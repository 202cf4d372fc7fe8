/**
 * One roster record against the whole document: which pages it selects, and
 * the protected per-employee PDF that is built from a fresh working copy
 * holding only those pages, annotated, in document order.
 */
module Extraction {
  import opened Matching
  import opened Annotation

  /** A roster line: the employee's name (NOME) and registration number (MATRICULA). */
  datatype Record = Record(name: string, id: string)

  /** A ledger line as written to the spreadsheet: MATRICULA, then NOME. */
  datatype LedgerRow = LedgerRow(matricula: string, nome: string)

  datatype Encryption = Aes256
  datatype Permission = Print

  /** How an output PDF is saved: encryption, user permissions, owner password. */
  datatype Protection = Protection(encryption: Encryption, permissions: set<Permission>, ownerPassword: string)

  /** Every output PDF is saved with AES-256, printing as the only permission, and one fixed owner password. */
  const OutputProtection: Protection := Protection(Aes256, {Print}, "senha_segura")

  /** A page of an output PDF: the source page it was copied from, with the annotations it carried. */
  datatype OutputPage = OutputPage(origin: nat, page: Page, annots: seq<Annot>)

  /** What a zip member holds: a protected PDF, or the ledger spreadsheet. */
  datatype Content =
    | Pdf(pages: seq<OutputPage>, protection: Protection)
    | Spreadsheet(rows: seq<LedgerRow>)

  /** A member of the zip archive. */
  datatype Entry = Entry(name: string, content: Content)

  /** The indices of the pages whose text matches `id` as a whole word, ascending. */
  function MatchedPages(pages: seq<Page>, id: string): (ps: seq<nat>)
    ensures |ps| <= |pages|
    ensures forall k :: 0 <= k < |ps| ==> ps[k] < |pages|
    ensures forall a, b :: 0 <= a < b < |ps| ==> ps[a] < ps[b]
    ensures forall i :: 0 <= i < |pages| ==> (i in ps <==> ContainsWholeWord(pages[i].text, id))
  {
    if pages == [] then []
    else
      var n := |pages| - 1;
      var front := pages[..n];
      assert forall i :: 0 <= i < n ==> front[i] == pages[i];
      MatchedPages(front, id) + (if ContainsWholeWord(pages[n].text, id) then [n] else [])
  }

  /** The file name of a record's output: name, then suffix, then ".pdf". */
  function OutputName(name: string, suffix: string): string {
    name + suffix + ".pdf"
  }

  /** The selected pages copied out of the annotated working copy, in the order given. */
  function CopyPages(pages: seq<Page>, id: string, marked: seq<nat>): seq<OutputPage>
    requires forall k :: 0 <= k < |marked| ==> marked[k] < |pages|
  {
    seq(|marked|, k requires 0 <= k < |marked| =>
      OutputPage(marked[k], pages[marked[k]], PageAnnots(pages[marked[k]], id)))
  }

  /** The zip member a record produces: none when no page matches its identifier. */
  function RecordOutput(source: seq<Page>, suffix: string, rec: Record): Option<Entry> {
    var marked := MatchedPages(source, rec.id);
    if marked == [] then None
    else Some(Entry(OutputName(rec.name, suffix), Pdf(CopyPages(source, rec.id, marked), OutputProtection)))
  }

  /**
   * A record produces an output exactly when some page matches its
   * identifier. The output is named after the record and the suffix and is
   * saved with the fixed protection. Its pages are the matching pages, each
   * exactly once, in strictly increasing document order. Each carries the
   * annotations this record alone put on it.
   */
  lemma RecordOutputSpec(source: seq<Page>, suffix: string, rec: Record)
    ensures RecordOutput(source, suffix, rec).Some? <==>
      exists i :: 0 <= i < |source| && ContainsWholeWord(source[i].text, rec.id)
    ensures RecordOutput(source, suffix, rec).Some? ==>
      var e := RecordOutput(source, suffix, rec).value;
      && e.name == OutputName(rec.name, suffix)
      && e.content.Pdf?
      && e.content.protection == OutputProtection
      && var out := e.content.pages;
      && (forall a, b :: 0 <= a < b < |out| ==> out[a].origin < out[b].origin)
      && (forall k :: 0 <= k < |out| ==>
            && out[k].origin < |source|
            && out[k].page == source[out[k].origin]
            && out[k].annots == PageAnnots(source[out[k].origin], rec.id))
      && (forall i :: 0 <= i < |source| ==>
            (ContainsWholeWord(source[i].text, rec.id) <==> exists k :: 0 <= k < |out| && out[k].origin == i))
  {
    var marked := MatchedPages(source, rec.id);
    if marked == [] {
      forall i | 0 <= i < |source| ensures !ContainsWholeWord(source[i].text, rec.id) {
        assert i !in marked;
      }
    } else {
      assert ContainsWholeWord(source[marked[0]].text, rec.id) by {
        assert marked[0] in marked;
      }
      CopiedPagesAreMatches(source, rec.id);
    }
  }

  /** The pages copied for an identifier are the matching pages, each once, in document order. */
  lemma CopiedPagesAreMatches(source: seq<Page>, id: string)
    ensures var out := CopyPages(source, id, MatchedPages(source, id));
      && (forall a, b :: 0 <= a < b < |out| ==> out[a].origin < out[b].origin)
      && (forall k :: 0 <= k < |out| ==>
            && out[k].origin < |source|
            && out[k].page == source[out[k].origin]
            && out[k].annots == PageAnnots(source[out[k].origin], id))
      && (forall i :: 0 <= i < |source| ==>
            (ContainsWholeWord(source[i].text, id) <==> exists k :: 0 <= k < |out| && out[k].origin == i))
  {
    var marked := MatchedPages(source, id);
    var out := CopyPages(source, id, marked);
    forall i | 0 <= i < |source|
      ensures ContainsWholeWord(source[i].text, id) <==> exists k :: 0 <= k < |out| && out[k].origin == i
    {
      if ContainsWholeWord(source[i].text, id) {
        var k :| 0 <= k < |marked| && marked[k] == i;
        assert out[k].origin == i;
      }
    }
  }

  /**
   * The page loop of one record: marks every page of a fresh working copy in
   * turn and collects the indices of the pages that matched.
   */
  method MarkAllPages(pdf: WorkingCopy, id: string) returns (marked: seq<nat>)
    requires pdf.Valid()
    requires forall i :: 0 <= i < |pdf.pages| ==> pdf.annots[i] == []
    modifies pdf
    ensures pdf.Valid()
    ensures marked == MatchedPages(pdf.pages, id)
    ensures forall i :: 0 <= i < |pdf.pages| ==> pdf.annots[i] == PageAnnots(pdf.pages[i], id)
  {
    var source := pdf.pages;
    marked := [];
    for pageNum := 0 to |source|
      invariant pdf.Valid()
      invariant marked == MatchedPages(source[..pageNum], id)
      invariant forall i :: 0 <= i < |source| ==>
        pdf.annots[i] == if i < pageNum then PageAnnots(source[i], id) else []
    {
      ghost var prefix := source[..pageNum + 1];
      assert prefix[..pageNum] == source[..pageNum] && prefix[pageNum] == source[pageNum];
      assert MatchedPages(prefix, id) == MatchedPages(source[..pageNum], id) +
        (if ContainsWholeWord(source[pageNum].text, id) then [pageNum] else []);
      ghost var annots0 := pdf.annots;
      var matched := MarkPage(pdf, pageNum, id);
      assert [] + PageAnnots(source[pageNum], id) == PageAnnots(source[pageNum], id);
      assert pdf.annots == annots0[pageNum := PageAnnots(source[pageNum], id)];
      if matched {
        marked := marked + [pageNum];
      }
    }
    assert source[..|source|] == source;
  }

  /**
   * Copies the marked pages of the annotated working copy, each with its
   * annotations, into a new document, in the order given.
   */
  method InsertPages(pdf: WorkingCopy, id: string, marked: seq<nat>) returns (pages: seq<OutputPage>)
    requires pdf.Valid()
    requires forall k :: 0 <= k < |marked| ==> marked[k] < |pdf.pages|
    requires forall i :: 0 <= i < |pdf.pages| ==> pdf.annots[i] == PageAnnots(pdf.pages[i], id)
    ensures pages == CopyPages(pdf.pages, id, marked)
  {
    pages := [];
    for k := 0 to |marked|
      invariant |pages| == k
      invariant forall j :: 0 <= j < k ==>
        pages[j] == OutputPage(marked[j], pdf.pages[marked[j]], PageAnnots(pdf.pages[marked[j]], id))
    {
      pages := pages + [OutputPage(marked[k], pdf.pages[marked[k]], pdf.annots[marked[k]])];
    }
  }

  /**
   * Processes one record: opens a fresh working copy of the source pages,
   * marks every page in turn, and, when at least one page matched, copies the
   * matched pages, in order, into a new protected PDF named after the record.
   * The result depends on the source, the suffix and the record only.
   */
  method MarkAndSave(source: seq<Page>, suffix: string, rec: Record) returns (out: Option<Entry>)
    ensures out == RecordOutput(source, suffix, rec)
  {
    var pdf := new WorkingCopy(source);
    var marked := MarkAllPages(pdf, rec.id);
    if marked == [] {
      return None;
    }
    var pages := InsertPages(pdf, rec.id, marked);
    out := Some(Entry(OutputName(rec.name, suffix), Pdf(pages, OutputProtection)));
  }
}
