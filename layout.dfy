/**
 * The triangular tree layout of utils/helpers.ts (`buildTreeLayout`).
 *
 * The content is stripped of whitespace, repeated until it holds at least
 * `MinChars` code units, and dealt into rows of 1, 2, 3, ... slots, at most
 * `MaxRows` rows. `Layout` states the result in closed form; the method
 * `BuildTreeLayout` is the loop of `buildTreeLayout` itself, proved equal to it.
 */
module LayoutEngine {
  import opened TreeTypes

  /** A stripped content shorter than this is repeated. */
  const MinChars: nat := 55
  /** Row construction stops after this many rows. */
  const MaxRows: nat := 50

  // ---------------------------------------------------------------------
  // Whitespace removal: `data.c.replace(/\s+/g, '')`
  // ---------------------------------------------------------------------

  /** The code units the JavaScript class `\s` matches: ECMAScript WhiteSpace and LineTerminator. */
  predicate IsWhitespace(u: CodeUnit)
  {
    u == 0x09 || u == 0x0A || u == 0x0B || u == 0x0C || u == 0x0D || u == 0x20 ||
    u == 0xA0 || u == 0x1680 || (0x2000 <= u <= 0x200A) || u == 0x2028 || u == 0x2029 ||
    u == 0x202F || u == 0x205F || u == 0x3000 || u == 0xFEFF
  }

  /** The content with every whitespace code unit removed. */
  function Strip(s: JsString): (r: JsString)
    ensures |r| <= |s|
    ensures forall i :: 0 <= i < |r| ==> !IsWhitespace(r[i])
  {
    if s == [] then []
    else (if IsWhitespace(s[0]) then [] else [s[0]]) + Strip(s[1..])
  }

  /** Stripping works piece by piece: it keeps the order of what it keeps. */
  lemma {:induction false} StripConcat(a: JsString, b: JsString)
    ensures Strip(a + b) == Strip(a) + Strip(b)
  {
    if a != [] {
      var head := if IsWhitespace(a[0]) then [] else [a[0]];
      assert (a + b)[0] == a[0];
      assert (a + b)[1..] == a[1..] + b;
      StripConcat(a[1..], b);
      calc {
        Strip(a + b);
        head + Strip(a[1..] + b);
        head + (Strip(a[1..]) + Strip(b));
        (head + Strip(a[1..])) + Strip(b);
        Strip(a) + Strip(b);
      }
    } else {
      assert a + b == b;
    }
  }

  /** A content without whitespace is left exactly as it is. */
  lemma {:induction false} StripNoWhitespace(s: JsString)
    requires forall i :: 0 <= i < |s| ==> !IsWhitespace(s[i])
    ensures Strip(s) == s
  {
    if s != [] {
      StripNoWhitespace(s[1..]);
    }
  }

  /** Stripping leaves nothing exactly when every code unit is whitespace. */
  lemma {:induction false} StripEmptyIff(s: JsString)
    ensures Strip(s) == [] <==> forall i :: 0 <= i < |s| ==> IsWhitespace(s[i])
  {
    if s != [] {
      StripEmptyIff(s[1..]);
      assert forall i :: 1 <= i < |s| ==> s[i] == s[1..][i - 1];
    }
  }

  /** Stripping twice is stripping once. */
  lemma StripIdempotent(s: JsString)
    ensures Strip(Strip(s)) == Strip(s)
  {
    StripNoWhitespace(Strip(s));
  }

  // ---------------------------------------------------------------------
  // Padding: `while (contentToUse.length < minChars) contentToUse += cleanContent`
  // ---------------------------------------------------------------------

  /** k copies of s, one after the other. */
  function Repeat(s: JsString, k: nat): (r: JsString)
    ensures |r| == k * |s|
  {
    if k == 0 then [] else Repeat(s, k - 1) + s
  }

  /** Position q * |s| + j of k copies of s holds s[j]. */
  lemma {:induction false} RepeatAt(s: JsString, k: nat, q: nat, j: nat)
    requires q < k && j < |s|
    ensures q * |s| + j < |Repeat(s, k)|
    ensures Repeat(s, k)[q * |s| + j] == s[j]
  {
    var prev := Repeat(s, k - 1);
    assert Repeat(s, k) == prev + s;
    assert |prev| == (k - 1) * |s|;
    if q < k - 1 {
      RepeatAt(s, k - 1, q, j);
      assert (q + 1) * |s| <= (k - 1) * |s| by { MulMonotone(q + 1, k - 1, |s|); }
    } else {
      assert q * |s| == |prev|;
    }
    assert k * |s| == (k - 1) * |s| + |s|;
  }

  lemma MulMonotone(a: nat, b: nat, c: nat)
    requires a <= b
    ensures a * c <= b * c
  {
  }

  /** The number of copies the padding loop makes of a stripped content of length len: ceil(55 / len). */
  function Copies(len: nat): (k: nat)
    requires len > 0
    ensures k >= 1
    ensures k * len >= MinChars
    ensures (k - 1) * len < MinChars
  {
    var k := (MinChars + len - 1) / len;
    var rem := (MinChars + len - 1) % len;
    assert MinChars + len - 1 == k * len + rem;
    assert (k - 1) * len == k * len - len;
    k
  }

  /** Copies(len) is the only count with those two bounds: the least k with k * len >= 55. */
  lemma CopiesUnique(len: nat, k: nat)
    requires len > 0 && k >= 1
    requires k * len >= MinChars && (k - 1) * len < MinChars
    ensures k == Copies(len)
  {
    var c := Copies(len);
    if k < c {
      MulMonotone(k, c - 1, len);
    } else if c < k {
      MulMonotone(c, k - 1, len);
    }
  }

  /** The working stream: the stripped content, repeated until it holds at least 55 code units. */
  function Stream(content: JsString): JsString
  {
    var clean := Strip(content);
    if clean == [] then [] else Repeat(clean, Copies(|clean|))
  }

  /** How the working stream is built from the stripped content. */
  lemma StreamShape(content: JsString)
    ensures Strip(content) == [] ==> Stream(content) == []
    ensures |Strip(content)| >= MinChars ==> Stream(content) == Strip(content)
    ensures 0 < |Strip(content)| < MinChars ==>
      var len := |Strip(content)|;
      Copies(len) >= 2 && MinChars <= |Stream(content)| == Copies(len) * len < MinChars + len
  {
    var clean := Strip(content);
    var len := |clean|;
    if len >= MinChars {
      CopiesUnique(len, 1);
      assert Repeat(clean, 1) == [] + clean;
    } else if len > 0 {
      assert (Copies(len) - 1) * len + len == Copies(len) * len;
    }
  }

  /** Every glyph's code unit repeats the stripped content: stream position q * |clean| + j holds clean[j]. */
  lemma StreamAt(content: JsString, q: nat, j: nat)
    requires Strip(content) != []
    requires q < Copies(|Strip(content)|) && j < |Strip(content)|
    ensures q * |Strip(content)| + j < |Stream(content)|
    ensures Stream(content)[q * |Strip(content)| + j] == Strip(content)[j]
  {
    RepeatAt(Strip(content), Copies(|Strip(content)|), q, j);
  }

  // ---------------------------------------------------------------------
  // Rows of growing width
  // ---------------------------------------------------------------------

  /** Slots in the first r rows: row i (from 0) has i + 1 slots. */
  function Slots(r: nat): nat
  {
    if r == 0 then 0 else Slots(r - 1) + r
  }

  lemma {:induction false} SlotsMonotone(a: nat, b: nat)
    requires a <= b
    ensures Slots(a) <= Slots(b)
    ensures a < b ==> Slots(a) < Slots(b)
  {
    if a < b {
      SlotsMonotone(a, b - 1);
    }
  }

  lemma {:induction false} SlotsClosedForm(r: nat)
    ensures 2 * Slots(r) == r * (r + 1)
  {
    if r > 0 {
      SlotsClosedForm(r - 1);
    }
  }

  /** The number of slots in 50 rows. */
  const Capacity: nat := 1275

  /** 50 rows hold 1275 slots. */
  lemma CapacityIsSlots()
    ensures Slots(MaxRows) == Capacity
  {
    SlotsClosedForm(MaxRows);
  }

  /** Number of glyphs placed from a stream of length len: the excess beyond the 50th row is dropped. */
  function Placed(len: nat): nat
  {
    Min(len, Capacity)
  }

  /** Some row count has room for n glyphs and starts each of its rows before n. */
  lemma RowCountExists(n: nat)
    requires n <= Capacity
    ensures exists r: nat :: r <= MaxRows && n <= Slots(r) && (r > 0 ==> Slots(r - 1) < n)
  {
    var r: nat := 0;
    while Slots(r) < n
      invariant r <= MaxRows
      invariant r > 0 ==> Slots(r - 1) < n
      decreases MaxRows - r
    {
      CapacityIsSlots();
      SlotsMonotone(r, MaxRows);
      r := r + 1;
    }
    assert r <= MaxRows && n <= Slots(r) && (r > 0 ==> Slots(r - 1) < n);
  }

  /** The number of rows that n glyphs fill: the least r with Slots(r) >= n. */
  ghost function RowCount(n: nat): (r: nat)
    requires n <= Capacity
    ensures r <= MaxRows
    ensures n <= Slots(r)
    ensures r > 0 ==> Slots(r - 1) < n
  {
    RowCountExists(n);
    var r: nat :| r <= MaxRows && n <= Slots(r) && (r > 0 ==> Slots(r - 1) < n);
    r
  }

  /** Any row count that starts each of its rows before n and has room for n is RowCount(n). */
  lemma RowCountUnique(n: nat, r: nat)
    requires n <= Capacity && n <= Slots(r)
    requires r > 0 ==> Slots(r - 1) < n
    ensures r == RowCount(n)
  {
    var c := RowCount(n);
    if r < c {
      SlotsMonotone(r, c - 1);
      assert false;
    } else if c < r {
      SlotsMonotone(c, r - 1);
      assert false;
    }
  }

  /** Every row of RowCount(n) starts before position n. */
  lemma RowStartsBefore(n: nat, i: nat)
    requires n <= Capacity && i < RowCount(n)
    ensures Slots(i) < n
  {
    SlotsMonotone(i, RowCount(n) - 1);
  }

  /** The glyph for stream position k: its code unit, its index, and whether k is highlighted. */
  function Glyph(stream: JsString, h: seq<int>, k: nat): TreeChar
    requires k < |stream|
  {
    TreeChar(stream[k], k, k in h)
  }

  /** The glyphs of the count stream positions from position from on. */
  function Span(stream: JsString, h: seq<int>, from: nat, count: nat): seq<TreeChar>
    requires from + count <= |stream|
  {
    seq(count, j requires 0 <= j < count => Glyph(stream, h, from + j))
  }

  lemma SpanNext(stream: JsString, h: seq<int>, from: nat, count: nat)
    requires from + count < |stream|
    ensures Span(stream, h, from, count + 1) == Span(stream, h, from, count) + [Glyph(stream, h, from + count)]
  {
  }

  lemma SpanJoin(stream: JsString, h: seq<int>, from: nat, a: nat, b: nat)
    requires from + a + b <= |stream|
    ensures Span(stream, h, from, a) + Span(stream, h, from + a, b) == Span(stream, h, from, a + b)
  {
  }

  /** The glyphs of the first m positions: those of the first from, then the rest. */
  lemma SpanExtend(stream: JsString, h: seq<int>, from: nat, m: nat)
    requires from <= m <= |stream|
    ensures Span(stream, h, 0, from) + Span(stream, h, from, m - from) == Span(stream, h, 0, m)
  {
    SpanJoin(stream, h, 0, from, m - from);
  }

  /** Row i (from 0): the next i + 1 stream positions from Slots(i), or as many as remain. */
  function RowAt(stream: JsString, h: seq<int>, i: nat): TreeRow
  {
    if Slots(i) < |stream| then Span(stream, h, Slots(i), Min(i + 1, |stream| - Slots(i))) else []
  }

  /** The first r rows. */
  function RowsUpTo(stream: JsString, h: seq<int>, r: nat): seq<TreeRow>
  {
    seq(r, i requires 0 <= i < r => RowAt(stream, h, i))
  }

  lemma RowsUpToNext(stream: JsString, h: seq<int>, r: nat)
    ensures RowsUpTo(stream, h, r + 1) == RowsUpTo(stream, h, r) + [RowAt(stream, h, r)]
  {
  }

  /** A row dealt from position Slots(r) is row r, and it leaves the cursor at Slots(r + 1) or the end. */
  lemma RowDealt(stream: JsString, h: seq<int>, r: nat, row: TreeRow)
    requires Slots(r) < |stream|
    requires row == Span(stream, h, Slots(r), Min(r + 1, |stream| - Slots(r)))
    ensures row == RowAt(stream, h, r)
    ensures Slots(r) + |row| == Min(Slots(r + 1), |stream|)
  {
  }

  /** The rows laid out from a working stream and a highlight list. */
  ghost function LayoutOf(stream: JsString, h: seq<int>): seq<TreeRow>
  {
    RowsUpTo(stream, h, RowCount(Placed(|stream|)))
  }

  /** The rows `buildTreeLayout(data)` returns. */
  ghost function Layout(data: TreeData): seq<TreeRow>
  {
    LayoutOf(Stream(data.c), data.h)
  }

  /** `buildTreeLayout`: pad the stripped content with a loop, then deal it into rows. */
  method BuildTreeLayout(data: TreeData) returns (rows: seq<TreeRow>)
    ensures rows == Layout(data)
  {
    var cleanContent := Strip(data.c);
    if |cleanContent| == 0 {
      return [];
    }

    var contentToUse := cleanContent;
    if |contentToUse| < MinChars {
      ghost var k: nat := 1;
      while |contentToUse| < MinChars
        invariant k >= 1 && contentToUse == Repeat(cleanContent, k)
        invariant (k - 1) * |cleanContent| < MinChars
        decreases MinChars - |contentToUse|
      {
        contentToUse := contentToUse + cleanContent;
        k := k + 1;
      }
      CopiesUnique(|cleanContent|, k);
    } else {
      CopiesUnique(|cleanContent|, 1);
      assert Repeat(cleanContent, 1) == [] + cleanContent;
    }
    assert contentToUse == Stream(data.c);
    rows := DealRows(contentToUse, data.h);
  }

  /** The row-filling loops of `buildTreeLayout`: rows of 1, 2, 3, ... glyphs, stopping after 50 rows. */
  method DealRows(stream: JsString, h: seq<int>) returns (rows: seq<TreeRow>)
    ensures rows == LayoutOf(stream, h)
  {
    var len := |stream|;
    rows := [];
    var charPtr := 0;
    var rowNum := 1;
    while charPtr < len
      invariant rowNum == |rows| + 1 && |rows| < MaxRows
      invariant charPtr == Min(Slots(|rows|), len)
      invariant |rows| > 0 ==> Slots(|rows| - 1) < len
      invariant rows == RowsUpTo(stream, h, |rows|)
      decreases len - charPtr
    {
      ghost var start := charPtr;
      var row: TreeRow := [];
      var i := 0;
      while i < rowNum
        invariant 0 <= i <= rowNum
        invariant charPtr == start + i <= len
        invariant row == Span(stream, h, start, i)
      {
        if charPtr < len {
          SpanNext(stream, h, start, i);
          row := row + [TreeChar(stream[charPtr], charPtr, charPtr in h)];
          charPtr := charPtr + 1;
        } else {
          break;
        }
        i := i + 1;
      }
      assert start == Slots(|rows|) && i == Min(rowNum, len - start);
      RowDealt(stream, h, |rows|, row);
      RowsUpToNext(stream, h, |rows|);
      rows := rows + [row];
      rowNum := rowNum + 1;
      if rowNum > MaxRows {
        break;
      }
    }

    DealtRowCount(len, |rows|);
  }

  /** The dealing loop stops after RowCount rows: at the 50th row, or once the stream is used up. */
  lemma DealtRowCount(len: nat, r: nat)
    requires r <= MaxRows
    requires r > 0 ==> Slots(r - 1) < len
    requires r == MaxRows || len <= Slots(r)
    ensures r == RowCount(Placed(len))
  {
    CapacityIsSlots();
    if r == MaxRows {
      SlotsMonotone(r - 1, r);
    } else {
      SlotsMonotone(r, MaxRows);
    }
    RowCountUnique(Placed(len), r);
  }

  // ---------------------------------------------------------------------
  // Properties of the layout
  // ---------------------------------------------------------------------

  /** Empty or all-whitespace content, and only that, gives no rows. */
  lemma LayoutEmptyIff(data: TreeData)
    ensures Layout(data) == [] <==> forall i :: 0 <= i < |data.c| ==> IsWhitespace(data.c[i])
  {
    StripEmptyIff(data.c);
    var clean := Strip(data.c);
    if clean != [] {
      StreamShape(data.c);
      assert |Stream(data.c)| >= MinChars;
      assert RowCount(Placed(|Stream(data.c)|)) != 0;
    }
  }

  /** At most 50 rows; every row is non-empty; row i holds i + 1 glyphs, the last row at most that. */
  lemma RowSizes(stream: JsString, h: seq<int>)
    ensures |LayoutOf(stream, h)| <= MaxRows
    ensures forall i :: 0 <= i < |LayoutOf(stream, h)| ==> 1 <= |LayoutOf(stream, h)[i]| <= i + 1
    ensures forall i :: 0 <= i < |LayoutOf(stream, h)| - 1 ==> |LayoutOf(stream, h)[i]| == i + 1
  {
    var rows := LayoutOf(stream, h);
    var n := Placed(|stream|);
    forall i | 0 <= i < |rows|
      ensures 1 <= |rows[i]| <= i + 1
      ensures i < |rows| - 1 ==> |rows[i]| == i + 1
    {
      assert rows[i] == RowAt(stream, h, i);
      RowStartsBefore(n, i);
      if i < |rows| - 1 {
        RowStartsBefore(n, i + 1);
      }
    }
  }

  /** At most 50 rows; every row is non-empty; row i holds i + 1 glyphs, the last row at most that. */
  lemma LayoutRowSizes(data: TreeData)
    ensures |Layout(data)| <= MaxRows
    ensures forall i :: 0 <= i < |Layout(data)| ==> 1 <= |Layout(data)[i]| <= i + 1
    ensures forall i :: 0 <= i < |Layout(data)| - 1 ==> |Layout(data)[i]| == i + 1
  {
    assert Layout(data) == LayoutOf(Stream(data.c), data.h);
    RowSizes(Stream(data.c), data.h);
  }

  /** All glyphs of the rows, row after row. */
  function Flatten(rows: seq<TreeRow>): seq<TreeChar>
  {
    if rows == [] then [] else Flatten(rows[..|rows| - 1]) + rows[|rows| - 1]
  }

  /** Every row before the last is full: row r - 1 holds the r positions from Slots(r - 1). */
  lemma FullRowSpan(stream: JsString, h: seq<int>, r: nat)
    requires 0 < r < RowCount(Placed(|stream|))
    ensures Slots(r) == Slots(r - 1) + r < Placed(|stream|) <= |stream|
    ensures RowAt(stream, h, r - 1) == Span(stream, h, Slots(r - 1), r)
  {
    RowStartsBefore(Placed(|stream|), r);
  }

  /** The last row holds the positions from its start up to the placed count. */
  lemma LastRowSpan(stream: JsString, h: seq<int>)
    requires RowCount(Placed(|stream|)) > 0
    ensures Slots(RowCount(Placed(|stream|)) - 1) < Placed(|stream|) <= |stream|
    ensures var c := RowCount(Placed(|stream|));
      RowAt(stream, h, c - 1) == Span(stream, h, Slots(c - 1), Placed(|stream|) - Slots(c - 1))
  {
    var c := RowCount(Placed(|stream|));
    assert Slots(c) == Slots(c - 1) + c;
    if |stream| > Capacity {
      if c < MaxRows {
        CapacityIsSlots();
        SlotsMonotone(c, MaxRows - 1);
        assert false;
      }
      CapacityIsSlots();
    }
  }

  /** Flattening r rows appends the last row to the flattened first r - 1. */
  lemma FlattenRowsNext(stream: JsString, h: seq<int>, r: nat)
    requires r > 0
    ensures Flatten(RowsUpTo(stream, h, r)) == Flatten(RowsUpTo(stream, h, r - 1)) + RowAt(stream, h, r - 1)
  {
    var rows := RowsUpTo(stream, h, r);
    assert rows[..r - 1] == RowsUpTo(stream, h, r - 1);
  }

  /** The rows before the last flatten to the glyphs of the first Slots(r) positions. */
  lemma {:induction false} FlattenFullRows(stream: JsString, h: seq<int>, r: nat)
    requires r < RowCount(Placed(|stream|))
    ensures Slots(r) <= |stream|
    ensures Flatten(RowsUpTo(stream, h, r)) == Span(stream, h, 0, Slots(r))
  {
    if r == 0 {
      assert RowsUpTo(stream, h, 0) == [];
    } else {
      FullRowSpan(stream, h, r);
      FlattenFullRows(stream, h, r - 1);
      FlattenRowsNext(stream, h, r);
      SpanExtend(stream, h, Slots(r - 1), Slots(r));
    }
  }

  /**
   * Flattening the rows gives the glyphs of stream positions 0, 1, ..., n - 1 in order,
   * with n = min(|stream|, 1275); each glyph carries stream[index] as ch and its index.
   */
  lemma LayoutFlatten(data: TreeData)
    ensures Placed(|Stream(data.c)|) == Min(|Stream(data.c)|, 1275)
    ensures Flatten(Layout(data)) == Span(Stream(data.c), data.h, 0, Placed(|Stream(data.c)|))
  {
    assert Layout(data) == LayoutOf(Stream(data.c), data.h);
    FlattenLayoutOf(Stream(data.c), data.h);
  }

  lemma FlattenLayoutOf(stream: JsString, h: seq<int>)
    ensures Placed(|stream|) <= |stream|
    ensures Flatten(LayoutOf(stream, h)) == Span(stream, h, 0, Placed(|stream|))
  {
    var n := Placed(|stream|);
    var c := RowCount(n);
    assert LayoutOf(stream, h) == RowsUpTo(stream, h, c);
    if c == 0 {
      assert n == 0;
      assert RowsUpTo(stream, h, 0) == [] && Span(stream, h, 0, 0) == [];
    } else {
      FlattenAllRows(stream, h, c);
    }
  }

  /** The full rows and then the last one: together the first Placed(|stream|) positions. */
  lemma FlattenAllRows(stream: JsString, h: seq<int>, c: nat)
    requires 0 < c == RowCount(Placed(|stream|))
    ensures Placed(|stream|) <= |stream|
    ensures Flatten(RowsUpTo(stream, h, c)) == Span(stream, h, 0, Placed(|stream|))
  {
    var n := Placed(|stream|);
    var from := Slots(c - 1);
    FlattenFullRows(stream, h, c - 1);
    LastRowSpan(stream, h);
    FlattenRowsNext(stream, h, c);
    SpanExtend(stream, h, from, n);
    assert Flatten(RowsUpTo(stream, h, c)) == Span(stream, h, 0, from) + Span(stream, h, from, n - from);
  }

  /**
   * Every glyph of the layout sits at a non-negative cursor index into the padded stream,
   * carries the stream's code unit there, and is highlighted exactly when its index is in h.
   */
  lemma LayoutGlyphs(data: TreeData)
    ensures forall i, j :: 0 <= i < |Layout(data)| && 0 <= j < |Layout(data)[i]| ==>
      var g := Layout(data)[i][j];
      0 <= g.index == Slots(i) + j < |Stream(data.c)| &&
      g.ch == Stream(data.c)[g.index] &&
      (g.isHighlight <==> g.index in data.h)
  {
    assert Layout(data) == LayoutOf(Stream(data.c), data.h);
    RowGlyphs(Stream(data.c), data.h);
  }

  lemma RowGlyphs(stream: JsString, h: seq<int>)
    ensures forall i, j :: 0 <= i < |LayoutOf(stream, h)| && 0 <= j < |LayoutOf(stream, h)[i]| ==>
      var g := LayoutOf(stream, h)[i][j];
      0 <= g.index == Slots(i) + j < |stream| && g.ch == stream[g.index] && (g.isHighlight <==> g.index in h)
  {
    var rows: seq<TreeRow> := LayoutOf(stream, h);
    forall i: int, j: int | 0 <= i < |rows| && 0 <= j < |rows[i]|
      ensures 0 <= rows[i][j].index == Slots(i) + j < |stream|
      ensures rows[i][j].ch == stream[rows[i][j].index]
      ensures rows[i][j].isHighlight <==> rows[i][j].index in h
    {
      RowStartsBefore(Placed(|stream|), i);
      assert rows[i] == Span(stream, h, Slots(i), Min(i + 1, |stream| - Slots(i)));
      assert rows[i][j] == Glyph(stream, h, Slots(i) + j);
    }
  }

  /** The layout depends on the content only through its whitespace-stripped form. */
  lemma LayoutIgnoresWhitespace(a: TreeData, b: TreeData)
    requires Strip(a.c) == Strip(b.c) && a.h == b.h
    ensures Layout(a) == Layout(b)
  {
  }

  /** Topper and style index do not affect the rows. */
  lemma LayoutIgnoresTopperAndStyle(data: TreeData, t: JsString, s: Option<int>)
    ensures Layout(data.(t := t, s := s)) == Layout(data)
  {
  }

  /** "A B\nC" lays out as "ABC". */
  lemma SpacedExample(h: seq<int>)
    ensures Layout(TreeData([], [0x41, 0x20, 0x42, 0x0A, 0x43], h, None))
         == Layout(TreeData([], [0x41, 0x42, 0x43], h, None))
  {
    var spaced: JsString := [0x41, 0x20, 0x42, 0x0A, 0x43];
    StripConcat([0x41], spaced[1..]);
    StripConcat([0x20], spaced[2..]);
    StripConcat([0x42], spaced[3..]);
    StripConcat([0x0A], spaced[4..]);
    StripNoWhitespace([0x41, 0x42, 0x43]);
    assert Strip(spaced) == [0x41, 0x42, 0x43];
  }

  /**
   * Indices are cursor positions into the padded stream: the tree of "HELLO" with h = [1, 3]
   * holds 55 glyphs, numbered 0 to 54 in reading order, and only positions 1 and 3 are
   * highlighted; the later copies of 'E' and 'L' at positions 6 and 8 are not.
   */
  lemma HelloExample(data: TreeData)
    requires data.c == [0x48, 0x45, 0x4C, 0x4C, 0x4F] && data.h == [1, 3]
    ensures |Flatten(Layout(data))| == 55
    ensures forall k :: 0 <= k < |Flatten(Layout(data))| ==>
      Flatten(Layout(data))[k].index == k &&
      (Flatten(Layout(data))[k].isHighlight <==> k == 1 || k == 3)
    ensures Flatten(Layout(data))[1].ch == Flatten(Layout(data))[6].ch == 0x45
    ensures Flatten(Layout(data))[3].ch == Flatten(Layout(data))[8].ch == 0x4C
  {
    HelloStream(data.c);
    LayoutFlatten(data);
    assert Placed(55) == 55;
  }

  /** "HELLO" is padded to 11 copies; positions 6 and 8 repeat positions 1 and 3. */
  lemma HelloStream(c: JsString)
    requires c == [0x48, 0x45, 0x4C, 0x4C, 0x4F]
    ensures |Stream(c)| == 55
    ensures Stream(c)[1] == Stream(c)[6] == 0x45 && Stream(c)[3] == Stream(c)[8] == 0x4C
  {
    StripNoWhitespace(c);
    assert Copies(5) == 11;
    StreamAt(c, 0, 1);
    StreamAt(c, 0, 3);
    StreamAt(c, 1, 1);
    StreamAt(c, 1, 3);
  }
}
