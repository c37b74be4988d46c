/**
  Small shared vocabulary for the editor model: an optional value, a text
  position (line, column) with the lexicographic order the editor uses, and
  an inclusive text range.
 */
module Common {

  datatype Option<+T> = None | Some(value: T)

  /** A position in a document: a logical line and a column inside it. */
  datatype Pos = Pos(line: int, column: int)

  /** Strict lexicographic order on positions: first by line, then by column. */
  predicate PosLess(a: Pos, b: Pos) {
    a.line < b.line || (a.line == b.line && a.column < b.column)
  }

  predicate PosLessEq(a: Pos, b: Pos) {
    PosLess(a, b) || a == b
  }

  /** A range between two positions; only normalized ranges have start <= end. */
  datatype TextRange = TextRange(start: Pos, end: Pos) {

    /** The range with its ends ordered. */
    function Normalized(): (r: TextRange)
      ensures PosLessEq(r.start, r.end)
      ensures (r.start == start && r.end == end) || (r.start == end && r.end == start)
    {
      if PosLess(end, start) then TextRange(end, start) else this
    }

    /** True when the given line lies between the range's start and end lines, inclusive. */
    predicate ContainsLine(line: int) {
      start.line <= line <= end.line
    }
  }

  /** Lexicographic order on ranges: by start position, then by end position. */
  predicate RangeLess(a: TextRange, b: TextRange) {
    PosLess(a.start, b.start) || (a.start == b.start && PosLess(a.end, b.end))
  }

  predicate RangeLessEq(a: TextRange, b: TextRange) {
    RangeLess(a, b) || a == b
  }

  function Last<T>(s: seq<T>): T
    requires |s| > 0
  {
    s[|s| - 1]
  }
}
