/**
 * Concrete runs of the batch on small documents: the outcomes the
 * application is expected to give for a registration number found on one
 * page, a number that only occurs inside a longer number, two roster lines
 * sharing a number, a "Home Office" document, and the redaction of one page.
 */
module Scenarios {
  import opened Geometry
  import opened Matching
  import opened Annotation
  import opened Extraction
  import opened Batch

  lemma MatchStartsWithFirstLetter(s: string, pat: string, i: nat)
    requires |pat| > 0 && OccursIgnoreCaseAt(s, pat, i)
    ensures Lower(s[i]) == pat[0]
  {
    assert Lower(s[i + 0]) == pat[0];
  }

  lemma OccurrenceStartsWithFirstChar(s: string, w: string, i: nat)
    requires |w| > 0 && OccursAt(s, w, i)
    ensures s[i] == w[0]
  {
    assert s[i] == s[i..i + |w|][0];
  }

  /** A text in which no character lower-cases to the first letter of `pat` has no match of `pat`. */
  lemma NoFirstLetterNoMatch(s: string, pat: string)
    requires |pat| > 0 && forall k :: 0 <= k < |s| ==> Lower(s[k]) != pat[0]
    ensures !ContainsIgnoreCase(s, pat)
  {
    if ContainsIgnoreCase(s, pat) {
      var i: nat :| i <= |s| && OccursIgnoreCaseAt(s, pat, i);
      MatchStartsWithFirstLetter(s, pat, i);
      assert false;
    }
  }

  /** A text without the first character of `w` has no whole-word match of `w`. */
  lemma NoFirstCharNoMatch(s: string, w: string)
    requires |w| > 0 && forall k :: 0 <= k < |s| ==> s[k] != w[0]
    ensures !ContainsWholeWord(s, w)
  {
  }

  /** Documents that never mention "home" get the default suffix. */
  lemma NoHomeSuffix(pages: seq<Page>)
    requires forall i, k :: 0 <= i < |pages| && 0 <= k < |pages[i].text| ==> Lower(pages[i].text[k]) != 'h'
    ensures Suffix(pages) == "_AL"
  {
    SuffixSpec(pages);
    forall i | 0 <= i < |pages| ensures !ContainsIgnoreCase(pages[i].text, "home") {
      NoFirstLetterNoMatch(pages[i].text, "home");
    }
  }

  /** Of the pages "AL", "ID 123" and "ID 1234", only the second holds "123" as a whole word. */
  lemma OnlySecondPageMatches(pages: seq<Page>)
    requires |pages| == 3 && pages[0].text == "AL" && pages[1].text == "ID 123" && pages[2].text == "ID 1234"
    ensures MatchedPages(pages, "123") == [1]
  {
    var t2 := pages[2].text;
    assert !ContainsWholeWord(pages[0].text, "123");
    assert WholeWordAt(pages[1].text, "123", 3);
    forall i: nat | i <= |t2| ensures !WholeWordAt(t2, "123", i) {
      if OccursAt(t2, "123", i) {
        assert t2[i] == t2[i..i + 3][0] == '1';
        assert i == 3;
      }
    }
    assert pages[..2][..1] == pages[..1];
    assert MatchedPages(pages[..1], "123") == [];
    assert MatchedPages(pages[..2], "123") == [1];
  }

  /** A run on supplied inputs with a non-empty PDF: the PDF members in roster order, then the ledger. */
  lemma RunOf(roster: seq<Record>, pdf: PdfFile, suffix: string)
    requires |pdf.bytes| > 0 && Suffix(pdf.pages) == suffix
    ensures Process(Some(roster), Some(pdf)) ==
      Success(PdfEntries(pdf.pages, suffix, roster) +
              [Entry(LedgerFileName, Spreadsheet(LedgerRows(pdf.pages, roster)))])
  {
  }

  /** Against the pages "AL", "ID 123" and "ID 1234", Ana ("123") gets the second page only, and a ledger row. */
  lemma AnaRows(pages: seq<Page>, roster: seq<Record>)
    requires pages == [Page("AL", [], map[]), Page("ID 123", [], map[]), Page("ID 1234", [], map[])]
    requires roster == [Record("Ana", "123")]
    ensures PdfEntries(pages, "_AL", roster) ==
      [Entry("Ana_AL.pdf", Pdf([OutputPage(1, pages[1], PageAnnots(pages[1], "123"))], OutputProtection))]
    ensures LedgerRows(pages, roster) == [LedgerRow("123", "Ana")]
  {
    OnlySecondPageMatches(pages);
    assert OutputName("Ana", "_AL") == "Ana_AL.pdf";
    assert CopyPages(pages, "123", [1]) == [OutputPage(1, pages[1], PageAnnots(pages[1], "123"))];
    AppendRecord(pages, "_AL", [], roster[0]);
    assert [] + [roster[0]] == roster;
  }

  /** "123" as a whole word on the second page only: Ana gets exactly that page, and one ledger row. */
  lemma FoundOnOnePage(pages: seq<Page>, roster: seq<Record>)
    requires pages == [Page("AL", [], map[]), Page("ID 123", [], map[]), Page("ID 1234", [], map[])]
    requires roster == [Record("Ana", "123")]
    ensures Process(Some(roster), Some(PdfFile([37], pages))) ==
      Success([
        Entry("Ana_AL.pdf", Pdf([OutputPage(1, pages[1], PageAnnots(pages[1], "123"))], OutputProtection)),
        Entry(LedgerFileName, Spreadsheet([LedgerRow("123", "Ana")]))])
  {
    var e := Entry("Ana_AL.pdf", Pdf([OutputPage(1, pages[1], PageAnnots(pages[1], "123"))], OutputProtection));
    var ledger := Entry(LedgerFileName, Spreadsheet([LedgerRow("123", "Ana")]));
    NoHomeSuffix(pages);
    assert PdfEntries(pages, "_AL", roster) == [e] && LedgerRows(pages, roster) == ledger.content.rows by {
      AnaRows(pages, roster);
    }
    RunOf(roster, PdfFile([37], pages), "_AL");
    assert [e] + [ledger] == [e, ledger];
  }

  /** "45" does not match inside "4567": the match would be glued to the digit that follows. */
  lemma NoMatchInsideLongerNumber(pages: seq<Page>)
    requires pages == [Page("4567", [], map[])]
    ensures MatchedPages(pages, "45") == []
  {
    var t := pages[0].text;
    forall i: nat | i <= |t| ensures !WholeWordAt(t, "45", i) {
      if OccursAt(t, "45", i) {
        assert t[i] == t[i..i + 2][0] == '4';
        assert i == 0;
        PartOfLongerTokenIsNoMatch(t, "45", 0);
      }
    }
    assert pages[..0] == [];
  }

  /** Bea ("45") against the one page "4567": no PDF and no ledger row. */
  lemma BeaRows(pages: seq<Page>, roster: seq<Record>)
    requires pages == [Page("4567", [], map[])]
    requires roster == [Record("Bea", "45")]
    ensures PdfEntries(pages, "_AL", roster) == []
    ensures LedgerRows(pages, roster) == []
  {
    NoMatchInsideLongerNumber(pages);
    AppendRecord(pages, "_AL", [], roster[0]);
    assert [] + [roster[0]] == roster;
  }

  /** "45" occurs only inside "4567": Bea gets nothing, and the archive holds only an empty ledger. */
  lemma InsideLongerNumber(pages: seq<Page>, roster: seq<Record>)
    requires pages == [Page("4567", [], map[])]
    requires roster == [Record("Bea", "45")]
    ensures Process(Some(roster), Some(PdfFile([37], pages))) ==
      Success([Entry(LedgerFileName, Spreadsheet([]))])
  {
    var ledger := Entry(LedgerFileName, Spreadsheet([]));
    NoHomeSuffix(pages);
    assert PdfEntries(pages, "_AL", roster) == [] && LedgerRows(pages, roster) == [] by {
      BeaRows(pages, roster);
    }
    RunOf(roster, PdfFile([37], pages), "_AL");
    assert [] + [ledger] == [ledger];
  }

  /** The page "99" matches the identifier "99". */
  lemma NinetyNineMatches(pages: seq<Page>)
    requires pages == [Page("99", [], map[])]
    ensures MatchedPages(pages, "99") == [0]
  {
    assert WholeWordAt(pages[0].text, "99", 0);
    assert pages[..0] == [];
  }

  /** Two records with the same identifier, matched by exactly the first page: two PDFs of that page and two ledger rows. */
  lemma SharedNumberRows(pages: seq<Page>, id: string, n1: string, n2: string)
    requires |pages| > 0 && MatchedPages(pages, id) == [0]
    ensures
      var roster := [Record(n1, id), Record(n2, id)];
      var page := OutputPage(0, pages[0], PageAnnots(pages[0], id));
      && PdfEntries(pages, "_AL", roster) ==
           [Entry(OutputName(n1, "_AL"), Pdf([page], OutputProtection)),
            Entry(OutputName(n2, "_AL"), Pdf([page], OutputProtection))]
      && LedgerRows(pages, roster) == [LedgerRow(id, n1), LedgerRow(id, n2)]
  {
    var roster := [Record(n1, id), Record(n2, id)];
    var first := [roster[0]];
    assert [] + first == first && first + [roster[1]] == roster;
    assert CopyPages(pages, id, [0]) == [OutputPage(0, pages[0], PageAnnots(pages[0], id))];
    AppendRecord(pages, "_AL", [], roster[0]);
    AppendRecord(pages, "_AL", first, roster[1]);
  }

  /** Two roster lines with the same number each get their own copy of the same page, and a ledger row. */
  lemma SharedNumber(pages: seq<Page>, roster: seq<Record>)
    requires pages == [Page("99", [], map[])]
    requires roster == [Record("Caio", "99"), Record("Duda", "99")]
    ensures
      var page := OutputPage(0, pages[0], PageAnnots(pages[0], "99"));
      Process(Some(roster), Some(PdfFile([37], pages))) ==
        Success([
          Entry("Caio_AL.pdf", Pdf([page], OutputProtection)),
          Entry("Duda_AL.pdf", Pdf([page], OutputProtection)),
          Entry(LedgerFileName, Spreadsheet([LedgerRow("99", "Caio"), LedgerRow("99", "Duda")]))])
  {
    var page := OutputPage(0, pages[0], PageAnnots(pages[0], "99"));
    var e1 := Entry("Caio_AL.pdf", Pdf([page], OutputProtection));
    var e2 := Entry("Duda_AL.pdf", Pdf([page], OutputProtection));
    var ledger := Entry(LedgerFileName, Spreadsheet([LedgerRow("99", "Caio"), LedgerRow("99", "Duda")]));
    NoHomeSuffix(pages);
    assert PdfEntries(pages, "_AL", roster) == [e1, e2] && LedgerRows(pages, roster) == ledger.content.rows by {
      assert OutputName("Caio", "_AL") == "Caio_AL.pdf";
      assert OutputName("Duda", "_AL") == "Duda_AL.pdf";
      NinetyNineMatches(pages);
      SharedNumberRows(pages, "99", "Caio", "Duda");
    }
    RunOf(roster, PdfFile([37], pages), "_AL");
    assert [e1, e2] + [ledger] == [e1, e2, ledger];
  }

  /** A document that says "Home Office" gives every output the home-variant suffix. */
  lemma HomeOfficeSuffix(rest: seq<Page>)
    ensures Suffix([Page("Home Office", [], map[])] + rest) == "_VRHO"
  {
    var pages := [Page("Home Office", [], map[])] + rest;
    assert OccursIgnoreCaseAt(pages[0].text, "home", 0);
    SuffixSpec(pages);
  }

  /** On the voucher page, the search hit and then the block holding "123" are highlighted. */
  lemma VoucherHighlights(p: Page)
    requires p.text == "ID 123" && p.hits == map["123" := [Rect(30, 0, 40, 10)]]
    requires p.blocks == [Block(Rect(0, 0, 100, 10), "ID 123"), Block(Rect(0, 20, 100, 30), "CPF"), Block(Rect(0, 40, 100, 50), "R$ 9")]
    ensures ContainsWholeWord(p.text, "123")
    ensures HighlightRects(p, "123") == [Rect(30, 0, 40, 10), Rect(0, 0, 100, 10)]
  {
    var blocks := p.blocks;
    assert WholeWordAt(p.text, "123", 3);
    assert WholeWordAt(blocks[0].text, "123", 3);
    NoFirstCharNoMatch(blocks[1].text, "123");
    NoFirstCharNoMatch(blocks[2].text, "123");
    assert blocks[..1] == [blocks[0]] && blocks[..2] == [blocks[0], blocks[1]] && blocks[..2][..1] == [blocks[0]];
    assert blocks[..1][..0] == [];
    assert MatchingBlockRects(blocks[..1], "123") == [blocks[0].rect];
    assert MatchingBlockRects(blocks[..2], "123") == [blocks[0].rect];
  }

  /** Of the voucher's blocks only the labelled one is protected. */
  lemma VoucherProtection(blocks: seq<Block>)
    requires blocks == [Block(Rect(0, 0, 100, 10), "ID 123"), Block(Rect(0, 20, 100, 30), "CPF"), Block(Rect(0, 40, 100, 50), "R$ 9")]
    ensures !IsProtected(blocks[0].text) && IsProtected(blocks[1].text) && !IsProtected(blocks[2].text)
  {
    assert Contains(blocks[1].text, FixedInfo[6]) by {
      assert OccursAt(blocks[1].text, "CPF", 0);
    }
    forall k | 0 <= k < |FixedInfo| ensures !Contains(blocks[0].text, FixedInfo[k]) {
      NoLabelIn(blocks[0].text, FixedInfo[k]);
    }
    forall k | 0 <= k < |FixedInfo| ensures !Contains(blocks[2].text, FixedInfo[k]) {
      NoLabelIn(blocks[2].text, FixedInfo[k]);
    }
  }

  /** With the hit and the number's block highlighted, only the amount block is blacked out. */
  lemma VoucherRedaction(blocks: seq<Block>, hs: seq<Rect>)
    requires blocks == [Block(Rect(0, 0, 100, 10), "ID 123"), Block(Rect(0, 20, 100, 30), "CPF"), Block(Rect(0, 40, 100, 50), "R$ 9")]
    requires hs == [Rect(30, 0, 40, 10), Rect(0, 0, 100, 10)]
    ensures RedactedBlocks(blocks, hs) == [blocks[2]]
  {
    VoucherProtection(blocks);
    assert Intersects(hs[0], blocks[0].rect);
    assert !IntersectsAny(hs, blocks[2].rect);
    assert blocks[..1] == [blocks[0]] && blocks[..2] == [blocks[0], blocks[1]] && blocks[..2][..1] == [blocks[0]];
    assert blocks[..1][..0] == [];
    assert RedactedBlocks(blocks[..1], hs) == [];
    assert RedactedBlocks(blocks[..2], hs) == [];
  }

  /**
   * One voucher page for "123": the search hit and the block holding the
   * number are highlighted, the labelled block stays untouched, and the
   * unrelated amount block is blacked out.
   */
  lemma RedactOnePage(p: Page)
    requires p.text == "ID 123" && p.hits == map["123" := [Rect(30, 0, 40, 10)]]
    requires p.blocks == [Block(Rect(0, 0, 100, 10), "ID 123"), Block(Rect(0, 20, 100, 30), "CPF"), Block(Rect(0, 40, 100, 50), "R$ 9")]
    ensures PageAnnots(p, "123") ==
      [Highlight(Rect(30, 0, 40, 10)), Highlight(Rect(0, 0, 100, 10)), Blackout(Rect(0, 40, 100, 50))]
  {
    var hs := [Rect(30, 0, 40, 10), Rect(0, 0, 100, 10)];
    VoucherHighlights(p);
    VoucherRedaction(p.blocks, hs);
    assert PageAnnots(p, "123") == Highlights(hs) + Blackouts([p.blocks[2]]);
    assert Highlights(hs) == [Highlight(hs[0]), Highlight(hs[1])];
    assert Blackouts([p.blocks[2]]) == [Blackout(Rect(0, 40, 100, 50))];
  }

  /** The only fixed labels of at most six characters are "CPF" and "NOME", so a short text without "C" and "N" holds no label. */
  lemma NoLabelIn(s: string, info: string)
    requires info in FixedInfo
    requires |s| <= 6 && forall k :: 0 <= k < |s| ==> s[k] != 'C' && s[k] != 'N'
    ensures !Contains(s, info)
  {
    if Contains(s, info) {
      var i: nat :| i <= |s| && OccursAt(s, info, i);
      OccurrenceStartsWithFirstChar(s, info, i);
      assert false;
    }
  }
}
