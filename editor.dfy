/**
 * The editor of components/Editor.tsx: the pure `setData` updaters (text, topper, highlight
 * toggle) and the share-URL construction as functions, and the component's state as a class
 * whose methods are its event handlers and timer callbacks.
 */
module EditorModel {
  import opened TreeTypes
  import opened TreeView

  /** The textarea keeps at most this many code units. */
  const MaxTextLength: nat := 500

  /** The build animation: scanning, then revealing, then back to idle. */
  datatype BuildPhase = Idle | Scanning | Revealing

  /** The record the editor starts from: a star topper, the default greeting, no highlights, style 1. */
  const InitialData: TreeData := TreeData(
    [0x2B50],
    [0x795D, 0x4F60, 0x5723, 0x8BDE, 0x5FEB, 0x4E50, 0x65B0, 0x5E74, 0x5927, 0x5409, 0x5FC3,
     0x60F3, 0x4E8B, 0x6210, 0x4E07, 0x4E8B, 0x5982, 0x610F, 0x5E73, 0x5B89, 0x559C, 0x4E50],
    [], Some(1))

  // ---------------------------------------------------------------- text

  /** `value.slice(0, n)` for n >= 0. */
  function Truncate(s: JsString, n: nat): (r: JsString)
    ensures |r| == Min(|s|, n)
    ensures r == s[..|r|]
  {
    if |s| <= n then s else s[..n]
  }

  /** The update of a text change: the first 500 code units become the content and the highlights are cleared. */
  function WithText(prev: TreeData, value: JsString): (r: TreeData)
    ensures |r.c| <= MaxTextLength && |r.c| <= |value|
    ensures r.c == value[..|r.c|]
    ensures |value| <= MaxTextLength ==> r.c == value
    ensures |value| > MaxTextLength ==> |r.c| == MaxTextLength
    ensures r.h == []
    ensures r.t == prev.t && r.s == prev.s
  {
    prev.(c := Truncate(value, MaxTextLength), h := [])
  }

  // ---------------------------------------------------------------- topper

  predicate IsHighSurrogate(u: CodeUnit)
  {
    0xD800 <= u <= 0xDBFF
  }

  predicate IsLowSurrogate(u: CodeUnit)
  {
    0xDC00 <= u <= 0xDFFF
  }

  /**
   * `s.length > 0 ? [...s][0] : ''`: the string iterator yields code points, so the first
   * element is a surrogate pair when s starts with a high surrogate followed by a low one,
   * and a single code unit otherwise (a lone surrogate included).
   */
  function FirstCodePoint(s: JsString): (r: JsString)
    ensures |r| <= |s| && r == s[..|r|]
    ensures r == [] <==> s == []
    ensures |r| == 2 <==> |s| >= 2 && IsHighSurrogate(s[0]) && IsLowSurrogate(s[1])
    ensures |r| <= 2
  {
    if s == [] then []
    else if |s| >= 2 && IsHighSurrogate(s[0]) && IsLowSurrogate(s[1]) then s[..2]
    else s[..1]
  }

  /** Taking the first code point of a topper that is already one code point changes nothing. */
  lemma FirstCodePointIdempotent(s: JsString)
    ensures FirstCodePoint(FirstCodePoint(s)) == FirstCodePoint(s)
  {
  }

  /** The update of a topper change: only the topper changes, to the input's first code point. */
  function WithTopper(prev: TreeData, value: JsString): (r: TreeData)
    ensures r.t == FirstCodePoint(value)
    ensures |r.t| <= 2
    ensures r.c == prev.c && r.h == prev.h && r.s == prev.s
  {
    prev.(t := FirstCodePoint(value))
  }

  // ---------------------------------------------------------------- highlights

  /** `h.filter(i => i !== x)`: every occurrence of x removed, the rest kept in order. */
  function Without(h: seq<int>, x: int): (r: seq<int>)
    ensures x !in r
    ensures forall y :: y != x ==> (y in r <==> y in h)
  {
    if h == [] then []
    else (if h[0] == x then [] else [h[0]]) + Without(h[1..], x)
  }

  /** Filtering keeps every other value as often as it occurred, and drops every x. */
  lemma {:induction false} WithoutCounts(h: seq<int>, x: int)
    ensures multiset(Without(h, x))[x] == 0
    ensures forall y :: y != x ==> multiset(Without(h, x))[y] == multiset(h)[y]
  {
    if h != [] {
      WithoutCounts(h[1..], x);
      assert h == [h[0]] + h[1..];
    }
  }

  /** Filtering distributes over concatenation: the survivors keep their relative order. */
  lemma {:induction false} WithoutConcat(a: seq<int>, b: seq<int>, x: int)
    ensures Without(a + b, x) == Without(a, x) + Without(b, x)
  {
    if a == [] {
      assert a + b == b;
    } else {
      var head: seq<int> := if a[0] == x then [] else [a[0]];
      assert (a + b)[0] == a[0];
      assert (a + b)[1..] == a[1..] + b;
      calc {
        Without(a + b, x);
        head + Without(a[1..] + b, x);
        { WithoutConcat(a[1..], b, x); }
        head + (Without(a[1..], x) + Without(b, x));
        (head + Without(a[1..], x)) + Without(b, x);
        Without(a, x) + Without(b, x);
      }
    }
  }

  /** Filtering out a value that does not occur leaves the list exactly as it was. */
  lemma {:induction false} WithoutAbsent(h: seq<int>, x: int)
    requires x !in h
    ensures Without(h, x) == h
  {
    if h != [] {
      WithoutAbsent(h[1..], x);
    }
  }

  /**
   * The highlight toggle: a present index is removed (every occurrence), an absent one is
   * appended at the end.
   */
  function Toggled(h: seq<int>, x: int): (r: seq<int>)
    ensures x in r <==> x !in h
    ensures forall y :: y != x ==> (y in r <==> y in h)
    ensures forall y :: y != x ==> multiset(r)[y] == multiset(h)[y]
  {
    if x in h then WithoutCounts(h, x); Without(h, x) else h + [x]
  }

  /** An absent index is appended after every existing highlight. */
  lemma ToggleAbsentAppends(h: seq<int>, x: int)
    requires x !in h
    ensures |Toggled(h, x)| == |h| + 1
    ensures Toggled(h, x)[..|h|] == h && Toggled(h, x)[|h|] == x
  {
  }

  /** Toggling an absent index twice gives back exactly the original list. */
  lemma ToggleTwiceRestores(h: seq<int>, x: int)
    requires x !in h
    ensures Toggled(Toggled(h, x), x) == h
  {
    assert x in h + [x];
    WithoutConcat(h, [x], x);
    WithoutAbsent(h, x);
  }

  /** No index occurs twice. */
  ghost predicate NoDuplicates(h: seq<int>)
  {
    forall y :: multiset(h)[y] <= 1
  }

  /** Toggling keeps a duplicate-free highlight list duplicate-free. */
  lemma TogglePreservesNoDuplicates(h: seq<int>, x: int)
    requires NoDuplicates(h)
    ensures NoDuplicates(Toggled(h, x))
  {
    var r := Toggled(h, x);
    forall y
      ensures multiset(r)[y] <= 1
    {
      if y == x && x !in h {
        assert multiset(r) == multiset(h) + multiset{x};
      }
    }
  }

  /** Toggling a present index twice moves it to the end, keeping the other highlights in order. */
  lemma ToggleTwiceMovesToEnd(h: seq<int>, x: int)
    requires x in h
    ensures Toggled(Toggled(h, x), x) == Without(h, x) + [x]
  {
  }

  /** The update of a highlight toggle: only `h` changes. */
  function WithToggled(prev: TreeData, x: int): (r: TreeData)
    ensures x in r.h <==> x !in prev.h
    ensures forall y :: y != x ==> (y in r.h <==> y in prev.h)
    ensures r.h == Toggled(prev.h, x)
    ensures r.c == prev.c && r.t == prev.t && r.s == prev.s
  {
    prev.(h := Toggled(prev.h, x))
  }

  // ---------------------------------------------------------------- share URL

  /** '#' */
  const Hash: CodeUnit := 0x23
  /** '?' */
  const Question: CodeUnit := 0x3F
  /** "#tree=" */
  const TreeKey: JsString := [0x23, 0x74, 0x72, 0x65, 0x65, 0x3D]

  /** `s.split(sep)[0]`: s up to, not including, its first sep (all of s when there is none). */
  function BeforeFirst(s: JsString, sep: CodeUnit): (r: JsString)
    ensures |r| <= |s| && r == s[..|r|]
    ensures sep !in r
    ensures |r| < |s| ==> s[|r|] == sep
  {
    if s == [] || s[0] == sep then []
    else
      assert s == [s[0]] + s[1..];
      [s[0]] + BeforeFirst(s[1..], sep)
  }

  /** Cutting a + b, where a has no sep, keeps a whole and cuts b. */
  lemma {:induction false} BeforeFirstConcat(a: JsString, b: JsString, sep: CodeUnit)
    requires sep !in a
    ensures BeforeFirst(a + b, sep) == a + BeforeFirst(b, sep)
  {
    if a == [] {
      assert a + b == b;
    } else {
      assert (a + b)[0] == a[0];
      assert (a + b)[1..] == a[1..] + b;
      BeforeFirstConcat(a[1..], b, sep);
    }
  }

  /** The page address without fragment and query: `href.split('#')[0].split('?')[0]`. */
  function BaseUrl(href: JsString): (r: JsString)
    ensures Hash !in r && Question !in r
    ensures |r| <= |href| && r == href[..|r|]
    ensures Hash !in href && Question !in href ==> r == href
    ensures |r| < |href| ==> href[|r|] == Hash || href[|r|] == Question
  {
    var noFragment := BeforeFirst(href, Hash);
    assert noFragment == href[..|noFragment|];
    BeforeFirst(noFragment, Question)
  }

  /** The generated link: `${base}#tree=${token}`. */
  function ShareUrl(href: JsString, token: JsString): (r: JsString)
    ensures |r| == |BaseUrl(href)| + |TreeKey| + |token|
    ensures r[..|BaseUrl(href)|] == BaseUrl(href)
    ensures r[|BaseUrl(href)|..|BaseUrl(href)| + |TreeKey|] == TreeKey
    ensures r[|BaseUrl(href)| + |TreeKey|..] == token
  {
    BaseUrl(href) + TreeKey + token
  }

  /**
   * Reading the link back: the part before its first '#' is the base, and what follows that
   * '#' is "tree=" and the token, whatever characters the token holds.
   */
  lemma ShareUrlFragment(href: JsString, token: JsString)
    ensures BeforeFirst(ShareUrl(href, token), Hash) == BaseUrl(href)
    ensures ShareUrl(href, token)[|BaseUrl(href)| + 1..] == TreeKey[1..] + token
  {
    var base := BaseUrl(href);
    assert ShareUrl(href, token) == base + (TreeKey + token);
    BeforeFirstConcat(base, TreeKey + token, Hash);
    assert BeforeFirst(TreeKey + token, Hash) == [];
  }

  /** Generating again from a page whose address is a generated link yields the same base. */
  lemma RegenerateSameBase(href: JsString, token: JsString)
    ensures BaseUrl(ShareUrl(href, token)) == BaseUrl(href)
  {
    var base := BaseUrl(href);
    ShareUrlFragment(href, token);
    assert BeforeFirst(base, Question) == base by {
      BeforeFirstConcat(base, [], Question);
      assert base + [] == base;
    }
  }

  // ---------------------------------------------------------------- the component

  /** The editor component's state; each method is one handler or timer callback. */
  class Editor {
    var data: TreeData
    var highlightMode: bool
    var isBuilding: bool
    var isGenerated: bool
    var isRevealingPreview: bool
    var generatedUrl: JsString
    var copyStatus: bool
    var buildPhase: BuildPhase

    /** The content never exceeds the textarea limit and the topper is at most one code point. */
    ghost predicate Valid()
      reads this
    {
      |data.c| <= MaxTextLength && |data.t| <= 2
    }

    constructor ()
      ensures Valid()
      ensures data == InitialData
      ensures !highlightMode && !isBuilding && !isGenerated && !isRevealingPreview && !copyStatus
      ensures generatedUrl == [] && buildPhase == Idle
    {
      data := InitialData;
      highlightMode := false;
      isBuilding := false;
      isGenerated := false;
      isRevealingPreview := false;
      generatedUrl := [];
      copyStatus := false;
      buildPhase := Idle;
    }

    /** `handleTextChange` */
    method HandleTextChange(value: JsString)
      requires Valid()
      modifies this`data
      ensures Valid()
      ensures data == WithText(old(data), value)
    {
      data := WithText(data, value);
    }

    /** `handleTopperChange` */
    method HandleTopperChange(value: JsString)
      requires Valid()
      modifies this`data
      ensures Valid()
      ensures data == WithTopper(old(data), value)
    {
      data := WithTopper(data, value);
    }

    /** `toggleHighlight`: ignored while the preview is lit or once the tree is generated. */
    method ToggleHighlight(index: int)
      requires Valid()
      modifies this`data
      ensures Valid()
      ensures old(isRevealingPreview || isGenerated) ==> data == old(data)
      ensures !old(isRevealingPreview || isGenerated) ==> data == WithToggled(old(data), index)
    {
      if isRevealingPreview || isGenerated {
        return;
      }
      data := WithToggled(data, index);
    }

    /** The highlight-mode button flips the mode. */
    method ToggleHighlightMode()
      requires Valid()
      modifies this`highlightMode
      ensures Valid()
      ensures highlightMode == !old(highlightMode)
    {
      highlightMode := !highlightMode;
    }

    /**
     * `handleGenerate`, up to its first timer: start building, enter scanning, and store the
     * link for the current record (encode stands for `encodeTreeData`, href for the page address).
     */
    method HandleGenerate(href: JsString, encode: TreeData -> JsString)
      requires Valid()
      modifies this`isBuilding, this`buildPhase, this`generatedUrl
      ensures Valid()
      ensures isBuilding && buildPhase == Scanning
      ensures generatedUrl == ShareUrl(href, encode(data))
      ensures TreeIsBuilding() && (TreeIsRevealing() <==> isRevealingPreview)
    {
      isBuilding := true;
      buildPhase := Scanning;
      var encoded := encode(data);
      var baseUrl := BaseUrl(href);
      generatedUrl := baseUrl + TreeKey + encoded;
    }

    /** The first build timer: scanning gives way to revealing. */
    method ScanTimerFires()
      requires Valid()
      modifies this`buildPhase
      ensures Valid()
      ensures buildPhase == Revealing
      ensures TreeIsRevealing() && !TreeIsBuilding()
    {
      buildPhase := Revealing;
    }

    /** The second build timer: building ends and the tree is generated. */
    method RevealTimerFires()
      requires Valid()
      modifies this`isBuilding, this`buildPhase, this`isGenerated
      ensures Valid()
      ensures !isBuilding && buildPhase == Idle && isGenerated
      ensures !TreeIsBuilding() && (TreeIsRevealing() <==> isRevealingPreview)
    {
      isBuilding := false;
      buildPhase := Idle;
      isGenerated := true;
    }

    /**
     * `handleCopy`, given whether the clipboard accepted the text: the text handed to the
     * clipboard is the generated link, and only success sets the status.
     */
    method HandleCopy(success: bool) returns (text: JsString)
      requires Valid()
      modifies this`copyStatus
      ensures Valid()
      ensures text == generatedUrl
      ensures success ==> copyStatus
      ensures !success ==> copyStatus == old(copyStatus)
    {
      text := generatedUrl;
      if success {
        copyStatus := true;
      }
    }

    /** The copy-status timer clears the status. */
    method CopyTimerFires()
      requires Valid()
      modifies this`copyStatus
      ensures Valid()
      ensures !copyStatus
    {
      copyStatus := false;
    }

    /** `handleBackToEdit`: back to editing, record and link untouched. */
    method HandleBackToEdit()
      requires Valid()
      modifies this`isGenerated
      ensures Valid()
      ensures !isGenerated
    {
      isGenerated := false;
    }

    /** Pointer down on the tree: lights the preview only once the tree is generated. */
    method TreePointerDown()
      requires Valid()
      modifies this`isRevealingPreview
      ensures Valid()
      ensures isGenerated ==> isRevealingPreview
      ensures !isGenerated ==> isRevealingPreview == old(isRevealingPreview)
    {
      if isGenerated {
        isRevealingPreview := true;
      }
    }

    /** Pointer up on, or leaving, the tree: darkens the preview only once the tree is generated. */
    method TreePointerRelease()
      requires Valid()
      modifies this`isRevealingPreview
      ensures Valid()
      ensures isGenerated ==> !isRevealingPreview
      ensures !isGenerated ==> isRevealingPreview == old(isRevealingPreview)
    {
      if isGenerated {
        isRevealingPreview := false;
      }
    }

    /** Pointer down on the press-to-light button. */
    method PreviewPointerDown()
      requires Valid()
      modifies this`isRevealingPreview
      ensures Valid()
      ensures isRevealingPreview
    {
      isRevealingPreview := true;
    }

    /** Pointer up on, or leaving, the press-to-light button. */
    method PreviewPointerRelease()
      requires Valid()
      modifies this`isRevealingPreview
      ensures Valid()
      ensures !isRevealingPreview
    {
      isRevealingPreview := false;
    }

    /** The character counter under the textarea (`data.c.length / 500`): it never exceeds its limit. */
    function CharCount(): (r: nat)
      reads this
      requires Valid()
      ensures r <= MaxTextLength
      ensures r == 0 <==> data.c == []
    {
      |data.c|
    }

    /** The `highlightMode` passed to the tree: off whenever the tree is generated. */
    function TreeHighlightMode(): (r: bool)
      reads this
      ensures isGenerated ==> !r
      ensures r <==> highlightMode && !isGenerated
    {
      !isGenerated && highlightMode
    }

    /** The `isRevealing` passed to the tree: the reveal phase of the build or a lit preview. */
    function TreeIsRevealing(): (r: bool)
      reads this
      ensures isRevealingPreview ==> r
      ensures buildPhase == Revealing ==> r
      ensures !isRevealingPreview && buildPhase != Revealing ==> !r
    {
      buildPhase == Revealing || isRevealingPreview
    }

    /** The `isBuilding` passed to the tree: only the scanning phase. */
    function TreeIsBuilding(): (r: bool)
      reads this
      ensures r <==> buildPhase == Scanning
    {
      buildPhase == Scanning
    }
  }

  /** Once generated, a click on any glyph of the editor's tree reaches no handler. */
  lemma GeneratedTreeIgnoresClicks(e: Editor, item: TreeChar)
    requires e.isGenerated
    ensures ClickTarget(item, e.TreeHighlightMode(), true) == None
  {
  }

  /**
   * A full build: generate, then both timers. The tree shows the scanning effect after
   * `HandleGenerate` and is lit after `ScanTimerFires` (their contracts); at the end it is the
   * generated tree with highlight mode off, lit only while the preview is held, and the link
   * is that of the record as it was when generating began.
   */
  method BuildSequence(e: Editor, href: JsString, encode: TreeData -> JsString)
    requires e.Valid()
    modifies e`isBuilding, e`buildPhase, e`generatedUrl, e`isGenerated
    ensures e.Valid()
    ensures e.generatedUrl == ShareUrl(href, encode(old(e.data)))
    ensures e.isGenerated && !e.isBuilding && e.buildPhase == Idle
    ensures !e.TreeHighlightMode() && !e.TreeIsBuilding()
    ensures e.TreeIsRevealing() <==> old(e.isRevealingPreview)
    ensures e.data == old(e.data)
    ensures e.highlightMode == old(e.highlightMode) && e.isRevealingPreview == old(e.isRevealingPreview)
    ensures e.copyStatus == old(e.copyStatus)
  {
    e.HandleGenerate(href, encode);
    assert e.TreeIsBuilding();
    e.ScanTimerFires();
    assert e.TreeIsRevealing() && !e.TreeIsBuilding();
    e.RevealTimerFires();
  }
}
