/** The records shared by the layout, the tree view, the editor and the receiver (types.ts). */
module TreeTypes {

  /** One UTF-16 code unit: JavaScript strings are indexed, sliced and measured in these. */
  newtype CodeUnit = x: int | 0 <= x < 0x1_0000

  /** A JavaScript string, as the sequence of its UTF-16 code units. */
  type JsString = seq<CodeUnit>

  datatype Option<T> = None | Some(value: T)

  /** The editable, shareable state of one tree: topper, content, highlighted indices, style. */
  datatype TreeData = TreeData(t: JsString, c: JsString, h: seq<int>, s: Option<int>)

  /** One positioned glyph of the layout: a single code unit, its cursor index, its highlight flag. */
  datatype TreeChar = TreeChar(ch: CodeUnit, index: int, isHighlight: bool)

  type TreeRow = seq<TreeChar>

  function Min(a: int, b: int): int
  {
    if a < b then a else b
  }
}
