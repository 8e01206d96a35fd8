/**
 * What components/ChristmasTree.tsx decides for each glyph: the topper shown, whether a glyph
 * is a decoration, highlighted, active or hidden, and whether a click reaches `onCharClick`.
 * Class names, animation delays and other styling are not modelled.
 */
module TreeView {
  import opened TreeTypes
  import opened LayoutEngine

  /** The topper shown when the record's topper is empty: U+2B50 WHITE MEDIUM STAR, one code unit. */
  const DefaultTopper: JsString := [0x2B50]

  /** `data.t || '⭐'`: an empty topper falls back to the star. */
  function TopperShown(data: TreeData): (r: JsString)
    ensures r != []
    ensures data.t != [] ==> r == data.t
    ensures data.t == [] ==> r == DefaultTopper
  {
    if data.t != [] then data.t else DefaultTopper
  }

  /** The four flags computed for one glyph while rendering. */
  datatype GlyphState = GlyphState(isDecoration: bool, isHighlight: bool, isActive: bool, isHidden: bool)

  /** The sentinel index that marks a decoration glyph. */
  const DecorationIndex: int := -1

  /**
   * The flags of one glyph, from the CURRENT highlight list h (the glyph's own stored
   * `isHighlight` is not consulted) and the revealing flag.
   */
  function Classify(item: TreeChar, h: seq<int>, isRevealing: bool): (r: GlyphState)
    ensures r.isDecoration <==> item.index == DecorationIndex
    ensures r.isHighlight <==> !r.isDecoration && item.index in h
    ensures r.isDecoration ==> !r.isHighlight
    ensures isRevealing ==> (r.isActive <==> !r.isHidden)
    ensures !isRevealing ==> !r.isActive && !r.isHidden
    ensures r.isActive ==> r.isHighlight
    ensures r.isActive <==> isRevealing && r.isHighlight
    ensures r.isHidden <==> isRevealing && !r.isHighlight
  {
    var isDecoration := item.index == DecorationIndex;
    var isHighlight := !isDecoration && item.index in h;
    GlyphState(isDecoration, isHighlight, isRevealing && isHighlight, isRevealing && !isHighlight)
  }

  /** The glyph's stored highlight flag never influences how it is drawn. */
  lemma ClassifyIgnoresStoredFlag(item: TreeChar, h: seq<int>, isRevealing: bool, stored: bool)
    ensures Classify(item.(isHighlight := stored), h, isRevealing) == Classify(item, h, isRevealing)
  {
  }

  /**
   * The click handler `highlightMode && !isDecoration && onCharClick?.(item.index)`: the index
   * passed to `onCharClick`, or None when nothing is called (hasHandler says whether the
   * optional callback was given).
   */
  function ClickTarget(item: TreeChar, highlightMode: bool, hasHandler: bool): (r: Option<int>)
    ensures r.Some? <==> highlightMode && hasHandler && item.index != DecorationIndex
    ensures r.Some? ==> r.value == item.index
  {
    if highlightMode && item.index != DecorationIndex && hasHandler then Some(item.index) else None
  }

  /** `rows.map(row => row.map(item => ...))`: the flags of every glyph, row by row. */
  function ViewRows(rows: seq<TreeRow>, h: seq<int>, isRevealing: bool): (r: seq<seq<GlyphState>>)
    ensures |r| == |rows|
    ensures forall i :: 0 <= i < |rows| ==> |r[i]| == |rows[i]|
    ensures forall i, j :: 0 <= i < |rows| && 0 <= j < |rows[i]| ==> r[i][j] == Classify(rows[i][j], h, isRevealing)
  {
    seq(|rows|, i requires 0 <= i < |rows| =>
      seq(|rows[i]|, j requires 0 <= j < |rows[i]| => Classify(rows[i][j], h, isRevealing)))
  }

  /**
   * The layout never produces a decoration: every glyph it lays out is drawn as a content
   * glyph, highlighted exactly when the layout flagged it, and clickable in highlight mode.
   */
  lemma LayoutHasNoDecorations(data: TreeData, isRevealing: bool, highlightMode: bool)
    ensures forall i, j :: 0 <= i < |Layout(data)| && 0 <= j < |Layout(data)[i]| ==>
      var g := Layout(data)[i][j];
      !Classify(g, data.h, isRevealing).isDecoration &&
      Classify(g, data.h, isRevealing).isHighlight == g.isHighlight &&
      ClickTarget(g, highlightMode, true) == (if highlightMode then Some(g.index) else None)
  {
    LayoutGlyphs(data);
  }

  /**
   * The rows are memoised on `data.c` and `data.t` only, so after the highlight list changes
   * the tree may draw rows laid out from an earlier record `memo`. Their shape and indices are
   * those of a fresh layout, and the drawn highlight is that of the fresh layout: membership
   * in the current `data.h`, whatever the stale stored flags say.
   */
  lemma MemoisedRowsShowCurrentHighlights(memo: TreeData, data: TreeData, isRevealing: bool)
    requires memo.c == data.c && memo.t == data.t
    ensures |Layout(memo)| == |Layout(data)|
    ensures forall i :: 0 <= i < |Layout(memo)| ==> |Layout(memo)[i]| == |Layout(data)[i]|
    ensures forall i, j :: 0 <= i < |Layout(memo)| && 0 <= j < |Layout(memo)[i]| ==>
      Layout(memo)[i][j].index == Layout(data)[i][j].index &&
      Layout(memo)[i][j].ch == Layout(data)[i][j].ch &&
      ViewRows(Layout(memo), data.h, isRevealing)[i][j].isHighlight == Layout(data)[i][j].isHighlight
  {
    var stream := Stream(data.c);
    var stale := LayoutOf(stream, memo.h);
    var now := LayoutOf(stream, data.h);
    RowGlyphs(stream, memo.h);
    RowGlyphs(stream, data.h);
    forall i | 0 <= i < |stale|
      ensures |stale[i]| == |now[i]|
    {
      assert stale[i] == RowAt(stream, memo.h, i);
      assert now[i] == RowAt(stream, data.h, i);
    }
  }
}
