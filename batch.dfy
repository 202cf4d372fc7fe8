/**
 * The whole run of `process_files_and_zip`: input checks, the output-name
 * suffix chosen once from the document text, one pass per roster record in
 * roster order, the ledger of records that produced a PDF, and the zip archive
 * holding every produced PDF followed by the ledger spreadsheet.
 */
module Batch {
  import opened Matching
  import opened Annotation
  import opened Extraction

  /** Why a run fails before any record is processed. */
  datatype Error =
    | MissingFiles  // the roster spreadsheet or the PDF was not supplied
    | EmptyPdf      // the PDF upload holds no bytes

  datatype Result<T> = Success(value: T) | Failure(error: Error)

  /** The uploaded PDF: its bytes and the pages the PDF library reads from them. */
  datatype PdfFile = PdfFile(bytes: seq<bv8>, pages: seq<Page>)

  /** The name of the ledger spreadsheet inside the archive. */
  const LedgerFileName: string := "dados_selecionados.xlsx"

  function PageTexts(pages: seq<Page>): (ts: seq<string>)
    ensures |ts| == |pages| && forall i :: 0 <= i < |pages| ==> ts[i] == pages[i].text
  {
    seq(|pages|, i requires 0 <= i < |pages| => pages[i].text)
  }

  /** The suffix of every output name: "_VRHO" when the joined page text mentions "home" in any case. */
  function Suffix(pages: seq<Page>): string {
    if ContainsIgnoreCase(JoinLines(PageTexts(pages)), "home") then "_VRHO" else "_AL"
  }

  /**
   * The suffix is one of the two variants, and it is the home variant exactly
   * when some single page mentions "home" in any case: joining the pages with
   * line breaks adds no match across a page border.
   */
  lemma SuffixSpec(pages: seq<Page>)
    ensures Suffix(pages) == "_VRHO" || Suffix(pages) == "_AL"
    ensures Suffix(pages) == "_VRHO" <==>
      exists i :: 0 <= i < |pages| && ContainsIgnoreCase(pages[i].text, "home")
  {
    var ts := PageTexts(pages);
    JoinLinesContainsIgnoreCase(ts, "home");
    if exists t :: 0 <= t < |ts| && ContainsIgnoreCase(ts[t], "home") {
      var t :| 0 <= t < |ts| && ContainsIgnoreCase(ts[t], "home");
      assert ContainsIgnoreCase(pages[t].text, "home");
    }
  }

  /** The ledger row of a record. */
  function Row(rec: Record): LedgerRow {
    LedgerRow(rec.id, rec.name)
  }

  /** The records, in roster order, for which at least one page matched. */
  function Producers(source: seq<Page>, roster: seq<Record>): (ps: seq<Record>)
    ensures |ps| <= |roster|
    ensures forall r :: r in ps <==> r in roster && MatchedPages(source, r.id) != []
  {
    if roster == [] then []
    else
      var last := roster[|roster| - 1];
      Producers(source, roster[..|roster| - 1]) +
        (if MatchedPages(source, last.id) != [] then [last] else [])
  }

  /** The PDF members written while going through `roster`, in roster order. */
  function PdfEntries(source: seq<Page>, suffix: string, roster: seq<Record>): seq<Entry> {
    if roster == [] then []
    else
      var front := PdfEntries(source, suffix, roster[..|roster| - 1]);
      match RecordOutput(source, suffix, roster[|roster| - 1])
      case Some(e) => front + [e]
      case None => front
  }

  /** The ledger rows collected while going through `roster`, in roster order. */
  function LedgerRows(source: seq<Page>, roster: seq<Record>): seq<LedgerRow> {
    if roster == [] then []
    else
      var last := roster[|roster| - 1];
      LedgerRows(source, roster[..|roster| - 1]) +
        (if MatchedPages(source, last.id) != [] then [Row(last)] else [])
  }

  /**
   * Going through one more record appends its PDF, if it produced one, and
   * its ledger row exactly when some page matched its identifier.
   */
  lemma AppendRecord(source: seq<Page>, suffix: string, front: seq<Record>, rec: Record)
    ensures PdfEntries(source, suffix, front + [rec]) ==
      PdfEntries(source, suffix, front) +
        (if RecordOutput(source, suffix, rec).Some? then [RecordOutput(source, suffix, rec).value] else [])
    ensures RecordOutput(source, suffix, rec).Some? <==> MatchedPages(source, rec.id) != []
    ensures LedgerRows(source, front + [rec]) ==
      LedgerRows(source, front) + (if MatchedPages(source, rec.id) != [] then [Row(rec)] else [])
  {
    assert (front + [rec])[..|front|] == front;
  }

  /**
   * Ledger rows and PDF members correspond one to one, in roster order: the
   * k-th row and the k-th PDF both come from the k-th record that matched at
   * least one page.
   */
  lemma {:induction false} LedgerMatchesOutputs(source: seq<Page>, suffix: string, roster: seq<Record>)
    ensures var ps := Producers(source, roster);
      && |LedgerRows(source, roster)| == |ps| == |PdfEntries(source, suffix, roster)|
      && forall k :: 0 <= k < |ps| ==>
           && LedgerRows(source, roster)[k] == Row(ps[k])
           && RecordOutput(source, suffix, ps[k]).Some?
           && PdfEntries(source, suffix, roster)[k] == RecordOutput(source, suffix, ps[k]).value
  {
    if roster != [] {
      var front := roster[..|roster| - 1];
      var last := roster[|roster| - 1];
      assert roster == front + [last];
      LedgerMatchesOutputs(source, suffix, front);
      AppendRecord(source, suffix, front, last);
    }
  }

  /**
   * A record whose identifier matches no page yields no PDF, and no ledger
   * row carries its identifier.
   */
  lemma UnmatchedRecordContributesNothing(source: seq<Page>, suffix: string, roster: seq<Record>, rec: Record)
    requires forall i :: 0 <= i < |source| ==> !ContainsWholeWord(source[i].text, rec.id)
    ensures RecordOutput(source, suffix, rec) == None
    ensures forall row :: row in LedgerRows(source, roster) ==> row.matricula != rec.id
  {
    var ps := Producers(source, roster);
    RecordOutputSpec(source, suffix, rec);
    LedgerMatchesOutputs(source, suffix, roster);
    forall row | row in LedgerRows(source, roster) ensures row.matricula != rec.id {
      var k :| 0 <= k < |LedgerRows(source, roster)| && LedgerRows(source, roster)[k] == row;
      assert ps[k] in ps;
    }
  }

  /** The result of a run: an error, or the archive's members in the order they are written. */
  function Process(excel: Option<seq<Record>>, pdf: Option<PdfFile>): Result<seq<Entry>> {
    if excel.None? || pdf.None? then Failure(MissingFiles)
    else if |pdf.value.bytes| == 0 then Failure(EmptyPdf)
    else
      var source := pdf.value.pages;
      var roster := excel.value;
      var suffix := Suffix(source);
      Success(PdfEntries(source, suffix, roster) +
              [Entry(LedgerFileName, Spreadsheet(LedgerRows(source, roster)))])
  }

  /**
   * A run fails exactly on a missing input or an empty PDF, and then produces
   * nothing. Otherwise the archive holds one protected PDF per record that
   * matched, named with the record's name and the run's suffix, followed by
   * the ledger, whose row count equals the number of PDFs.
   */
  lemma ProcessSpec(excel: Option<seq<Record>>, pdf: Option<PdfFile>)
    ensures Process(excel, pdf) == Failure(MissingFiles) <==> excel.None? || pdf.None?
    ensures Process(excel, pdf) == Failure(EmptyPdf) <==>
      excel.Some? && pdf.Some? && |pdf.value.bytes| == 0
    ensures Process(excel, pdf).Success? ==>
      var entries := Process(excel, pdf).value;
      var suffix := Suffix(pdf.value.pages);
      && |entries| >= 1
      && entries[|entries| - 1].name == LedgerFileName
      && entries[|entries| - 1].content.Spreadsheet?
      && |entries[|entries| - 1].content.rows| == |entries| - 1
      && forall k :: 0 <= k < |entries| - 1 ==>
           && entries[k].content.Pdf?
           && entries[k].content.protection == OutputProtection
           && entries[k].name == OutputName(entries[|entries| - 1].content.rows[k].nome, suffix)
  {
    if excel.Some? && pdf.Some? && |pdf.value.bytes| > 0 {
      var source := pdf.value.pages;
      var roster := excel.value;
      var suffix := Suffix(source);
      var ps := Producers(source, roster);
      LedgerMatchesOutputs(source, suffix, roster);
      forall k | 0 <= k < |ps| ensures
        var e := PdfEntries(source, suffix, roster)[k];
        e.content.Pdf? && e.content.protection == OutputProtection &&
        e.name == OutputName(LedgerRows(source, roster)[k].nome, suffix)
      {
        RecordOutputSpec(source, suffix, ps[k]);
      }
    }
  }

  /** The zip archive being written: its members so far, in the order they were written. */
  class ZipWriter {
    var entries: seq<Entry>

    constructor ()
      ensures entries == []
    {
      entries := [];
    }

    /** `zipf.writestr(name, content)`: appends one member. */
    method WriteStr(name: string, content: Content)
      modifies this
      ensures entries == old(entries) + [Entry(name, content)]
    {
      entries := entries + [Entry(name, content)];
    }
  }

  /**
   * Runs the batch: checks the inputs, chooses the suffix, processes every
   * record in roster order (each on its own fresh copy of the document),
   * writes each produced PDF to the archive and its row to the ledger, and
   * finally writes the ledger spreadsheet.
   */
  method ProcessFilesAndZip(excel: Option<seq<Record>>, pdf: Option<PdfFile>) returns (r: Result<seq<Entry>>)
    ensures r == Process(excel, pdf)
  {
    if excel.None? || pdf.None? {
      return Failure(MissingFiles);
    }
    var roster := excel.value;
    if |pdf.value.bytes| == 0 {
      return Failure(EmptyPdf);
    }
    var source := pdf.value.pages;
    var suffix := Suffix(source);

    var zipf := new ZipWriter();
    var selected: seq<LedgerRow> := [];
    for k := 0 to |roster|
      invariant zipf.entries == PdfEntries(source, suffix, roster[..k])
      invariant selected == LedgerRows(source, roster[..k])
    {
      assert roster[..k + 1] == roster[..k] + [roster[k]];
      AppendRecord(source, suffix, roster[..k], roster[k]);
      var out := MarkAndSave(source, suffix, roster[k]);
      if out.Some? {
        zipf.WriteStr(out.value.name, out.value.content);
        selected := selected + [Row(roster[k])];
      }
    }
    assert roster[..|roster|] == roster;
    zipf.WriteStr(LedgerFileName, Spreadsheet(selected));
    return Success(zipf.entries);
  }
}
