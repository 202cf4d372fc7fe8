/**
 * Per-page work of one record: deciding whether a page mentions the
 * registration number (matrícula), which regions are highlighted, and which
 * text blocks are covered by a black rectangle. The working copy of the
 * document, whose pages receive the annotations in place, is a class.
 */
module Annotation {
  import opened Geometry
  import opened Matching

  /** A text block of a page: its bounding rectangle and its text. */
  datatype Block = Block(rect: Rect, text: string)

  /**
   * A page as the PDF library presents it: its plain text, its text blocks in
   * reading order, and the rectangles a text search finds for each searched
   * string (a string absent from `hits` has no hits).
   */
  datatype Page = Page(text: string, blocks: seq<Block>, hits: map<string, seq<Rect>>)

  /** An annotation added to a page: a yellow highlight or a black filled rectangle. */
  datatype Annot = Highlight(rect: Rect) | Blackout(rect: Rect)

  /** Labels whose presence in a block's text keeps the block visible. */
  const FixedInfo: seq<string> := [
    "PROGEN S.A.", "PRODUTO", "DATA DE ENVIO:", "RELAT\U{D3}RIO ANAL\U{CD}TICO",
    "NOME", "LOCAL DE ENTREGA:", "CPF", "MATRICULA", "VL BENEFICIO"
  ]

  /** `page.search_for(id)`: the rectangles where the library finds `id` on the page. */
  function SearchFor(page: Page, id: string): seq<Rect> {
    if id in page.hits then page.hits[id] else []
  }

  /** Some fixed label occurs (case-sensitively) in `text`. */
  predicate IsProtected(text: string) {
    exists k :: 0 <= k < |FixedInfo| && Contains(text, FixedInfo[k])
  }

  /** The rectangles of the blocks whose own text matches `id` as a whole word, in block order. */
  function MatchingBlockRects(blocks: seq<Block>, id: string): (rs: seq<Rect>)
    ensures |rs| <= |blocks|
    ensures forall j :: 0 <= j < |blocks| && ContainsWholeWord(blocks[j].text, id) ==>
      blocks[j].rect in rs
    ensures forall r :: r in rs ==>
      exists j :: 0 <= j < |blocks| && blocks[j].rect == r && ContainsWholeWord(blocks[j].text, id)
  {
    if blocks == [] then []
    else
      var last := blocks[|blocks| - 1];
      MatchingBlockRects(blocks[..|blocks| - 1], id) +
        (if ContainsWholeWord(last.text, id) then [last.rect] else [])
  }

  /** The regions highlighted on a matching page: the search hits, then the matching blocks. */
  function HighlightRects(page: Page, id: string): seq<Rect> {
    SearchFor(page, id) + MatchingBlockRects(page.blocks, id)
  }

  /** Some highlighted region intersects `r`. */
  predicate IntersectsAny(hs: seq<Rect>, r: Rect) {
    exists h :: h in hs && Intersects(h, r)
  }

  /** A block is blacked out when it carries no fixed label and touches no highlighted region. */
  predicate Redacts(b: Block, hs: seq<Rect>) {
    !IsProtected(b.text) && !IntersectsAny(hs, b.rect)
  }

  /** The blocks that are blacked out, in block order. */
  function RedactedBlocks(blocks: seq<Block>, hs: seq<Rect>): (rb: seq<Block>)
    ensures |rb| <= |blocks|
    ensures forall b :: b in rb <==> b in blocks && Redacts(b, hs)
  {
    if blocks == [] then []
    else
      var last := blocks[|blocks| - 1];
      RedactedBlocks(blocks[..|blocks| - 1], hs) + (if Redacts(last, hs) then [last] else [])
  }

  function Highlights(rs: seq<Rect>): seq<Annot> {
    seq(|rs|, k requires 0 <= k < |rs| => Highlight(rs[k]))
  }

  function Blackouts(bs: seq<Block>): seq<Annot> {
    seq(|bs|, k requires 0 <= k < |bs| => Blackout(bs[k].rect))
  }

  /**
   * The annotations one record adds to one page: none when the page does not
   * mention the identifier; otherwise a highlight per highlighted region,
   * followed by a black rectangle per blacked-out block.
   */
  function PageAnnots(page: Page, id: string): seq<Annot> {
    if !ContainsWholeWord(page.text, id) then []
    else
      var hs := HighlightRects(page, id);
      Highlights(hs) + Blackouts(RedactedBlocks(page.blocks, hs))
  }

  /**
   * What a page receives: nothing on a page that does not match; on a page
   * that matches, the highlights in order, then black rectangles exactly over
   * the blocks that are neither protected nor touching a highlight.
   */
  lemma PageAnnotsShape(page: Page, id: string)
    ensures !ContainsWholeWord(page.text, id) ==> PageAnnots(page, id) == []
    ensures ContainsWholeWord(page.text, id) ==>
      var hs := HighlightRects(page, id);
      var annots := PageAnnots(page, id);
      && |hs| <= |annots|
      && (forall k :: 0 <= k < |hs| ==> annots[k] == Highlight(hs[k]))
      && (forall k :: |hs| <= k < |annots| ==>
            annots[k].Blackout? &&
            exists b :: b in page.blocks && b.rect == annots[k].rect && Redacts(b, hs))
      && (forall b :: b in page.blocks && Redacts(b, hs) ==> Blackout(b.rect) in annots)
  {
    if ContainsWholeWord(page.text, id) {
      var hs := HighlightRects(page, id);
      var rb := RedactedBlocks(page.blocks, hs);
      var annots := PageAnnots(page, id);
      assert annots == Highlights(hs) + Blackouts(rb);
      forall k | |hs| <= k < |annots|
        ensures annots[k].Blackout? &&
                exists b :: b in page.blocks && b.rect == annots[k].rect && Redacts(b, hs)
      {
        assert annots[k] == Blackout(rb[k - |hs|].rect);
        assert rb[k - |hs|] in rb;
      }
      forall b | b in page.blocks && Redacts(b, hs) ensures Blackout(b.rect) in annots {
        var j :| 0 <= j < |rb| && rb[j] == b;
        assert annots[|hs| + j] == Blackout(b.rect);
      }
    }
  }

  /** A block that carries a fixed label is never blacked out, whatever it overlaps. */
  lemma ProtectedBlockNeverRedacted(page: Page, id: string, b: Block)
    requires b in page.blocks && IsProtected(b.text)
    ensures b !in RedactedBlocks(page.blocks, HighlightRects(page, id))
  {
  }

  /**
   * A block with a non-empty rectangle whose own text matches the identifier
   * is highlighted and never blacked out: its rectangle is one of the
   * highlighted regions and intersects itself.
   */
  lemma MatchingBlockNeverRedacted(page: Page, id: string, b: Block)
    requires b in page.blocks && ContainsWholeWord(b.text, id) && !IsEmpty(b.rect)
    ensures b.rect in HighlightRects(page, id)
    ensures b !in RedactedBlocks(page.blocks, HighlightRects(page, id))
  {
    var j :| 0 <= j < |page.blocks| && page.blocks[j] == b;
    var hs := HighlightRects(page, id);
    assert b.rect in MatchingBlockRects(page.blocks, id);
    IntersectsSelf(b.rect);
    assert IntersectsAny(hs, b.rect);
  }

  /**
   * The per-record working copy of the document: the pages of the source and
   * the annotations added to each page so far, in the order they were added.
   */
  class WorkingCopy {
    const pages: seq<Page>
    var annots: seq<seq<Annot>>

    ghost predicate Valid()
      reads this
    {
      |annots| == |pages|
    }

    /** Opens a fresh copy of the source document: no page carries an annotation. */
    constructor (source: seq<Page>)
      ensures Valid() && pages == source
      ensures forall i :: 0 <= i < |source| ==> annots[i] == []
    {
      pages := source;
      annots := seq(|source|, i => []);
    }

    /** `page.add_highlight_annot(rect)` on page `pageNum`. */
    method AddHighlightAnnot(pageNum: nat, r: Rect)
      requires Valid() && pageNum < |pages|
      modifies this
      ensures Valid()
      ensures annots == old(annots)[pageNum := old(annots)[pageNum] + [Highlight(r)]]
    {
      annots := annots[pageNum := annots[pageNum] + [Highlight(r)]];
    }

    /** `page.add_rect_annot(rect)` with black stroke and fill on page `pageNum`. */
    method AddRectAnnot(pageNum: nat, r: Rect)
      requires Valid() && pageNum < |pages|
      modifies this
      ensures Valid()
      ensures annots == old(annots)[pageNum := old(annots)[pageNum] + [Blackout(r)]]
    {
      annots := annots[pageNum := annots[pageNum] + [Blackout(r)]];
    }
  }

  /**
   * Builds the list of highlighted regions of a matching page as the source
   * does: the search hits first, then the rectangle of every block whose text
   * matches the identifier as a whole word.
   */
  method CollectHighlightRects(page: Page, id: string) returns (highlightRects: seq<Rect>)
    ensures highlightRects == HighlightRects(page, id)
  {
    var areas := SearchFor(page, id);
    highlightRects := [];
    for k := 0 to |areas|
      invariant highlightRects == areas[..k]
    {
      highlightRects := highlightRects + [areas[k]];
    }

    var blocks := page.blocks;
    for k := 0 to |blocks|
      invariant highlightRects == areas + MatchingBlockRects(blocks[..k], id)
    {
      assert blocks[..k + 1][..k] == blocks[..k];
      if Search(blocks[k].text, id).Some? {
        highlightRects := highlightRects + [blocks[k].rect];
      }
    }
    assert blocks[..|blocks|] == blocks;
  }

  /** Adds a highlight annotation over every region of `hs`, in order, to page `pageNum`. */
  method ApplyHighlights(pdf: WorkingCopy, pageNum: nat, hs: seq<Rect>)
    requires pdf.Valid() && pageNum < |pdf.pages|
    modifies pdf
    ensures pdf.Valid()
    ensures pdf.annots == old(pdf.annots)[pageNum := old(pdf.annots)[pageNum] + Highlights(hs)]
  {
    ghost var before := pdf.annots;
    ghost var row := before[pageNum];
    assert Highlights(hs[..0]) == [] && row + [] == row;
    assert before[pageNum := row] == before;
    for k := 0 to |hs|
      invariant pdf.Valid()
      invariant pdf.annots == before[pageNum := row + Highlights(hs[..k])]
    {
      assert Highlights(hs[..k + 1]) == Highlights(hs[..k]) + [Highlight(hs[k])];
      assert row + Highlights(hs[..k + 1]) == row + Highlights(hs[..k]) + [Highlight(hs[k])];
      pdf.AddHighlightAnnot(pageNum, hs[k]);
    }
    assert hs[..|hs|] == hs;
  }

  /**
   * Adds a black rectangle to page `pageNum` over every block, in order, that
   * carries no fixed label and intersects none of the regions `hs`.
   */
  method ApplyBlackouts(pdf: WorkingCopy, pageNum: nat, blocks: seq<Block>, hs: seq<Rect>)
    requires pdf.Valid() && pageNum < |pdf.pages|
    modifies pdf
    ensures pdf.Valid()
    ensures pdf.annots ==
      old(pdf.annots)[pageNum := old(pdf.annots)[pageNum] + Blackouts(RedactedBlocks(blocks, hs))]
  {
    ghost var before := pdf.annots;
    ghost var row := before[pageNum];
    assert RedactedBlocks(blocks[..0], hs) == [] && Blackouts([]) == [] && row + [] == row;
    assert before[pageNum := row] == before;
    for k := 0 to |blocks|
      invariant pdf.Valid()
      invariant pdf.annots == before[pageNum := row + Blackouts(RedactedBlocks(blocks[..k], hs))]
    {
      assert blocks[..k + 1][..k] == blocks[..k];
      ghost var done := RedactedBlocks(blocks[..k], hs);
      assert RedactedBlocks(blocks[..k + 1], hs) ==
             done + (if Redacts(blocks[k], hs) then [blocks[k]] else []);
      assert done + [] == done;
      if IsProtected(blocks[k].text) {
        continue;
      }
      if !IntersectsAny(hs, blocks[k].rect) {
        assert Blackouts(done + [blocks[k]]) == Blackouts(done) + [Blackout(blocks[k].rect)];
        assert row + Blackouts(done + [blocks[k]]) == row + Blackouts(done) + [Blackout(blocks[k].rect)];
        pdf.AddRectAnnot(pageNum, blocks[k].rect);
      }
    }
    assert blocks[..|blocks|] == blocks;
  }

  /**
   * Processes page `pageNum` of the working copy for identifier `id`: reports
   * whether the page matches and appends to that page, and to no other, the
   * annotations `PageAnnots` prescribes.
   */
  method MarkPage(pdf: WorkingCopy, pageNum: nat, id: string) returns (matched: bool)
    requires pdf.Valid() && pageNum < |pdf.pages|
    modifies pdf
    ensures pdf.Valid()
    ensures matched == ContainsWholeWord(pdf.pages[pageNum].text, id)
    ensures pdf.annots ==
      old(pdf.annots)[pageNum := old(pdf.annots)[pageNum] + PageAnnots(pdf.pages[pageNum], id)]
  {
    var page := pdf.pages[pageNum];
    ghost var before := pdf.annots;
    ghost var row := before[pageNum];
    matched := Search(page.text, id).Some?;
    if !matched {
      assert row + [] == row;
      assert before[pageNum := row] == before;
      return;
    }
    var highlightRects := CollectHighlightRects(page, id);
    ApplyHighlights(pdf, pageNum, highlightRects);
    ApplyBlackouts(pdf, pageNum, page.blocks, highlightRects);
    assert row + Highlights(highlightRects) + Blackouts(RedactedBlocks(page.blocks, highlightRects)) ==
           row + PageAnnots(page, id);
  }
}
