/**
  The view cache of the text editor: the projection of a document's logical
  lines onto visual rows under soft wrapping and folding.

  The cache is three parallel sequences: the visual rows (each a position:
  logical line and the column the row starts at), the indentation padding
  of every logical line, and for every logical line the index of its first
  visual row, or Hidden when the line is folded away.

  What a cache should hold is determined by the layout inputs alone (the
  document, the font, the width, the wrap configuration and the folded
  regions), through the shape of each line (folded or not, its breaks, its
  padding); RowsBetween and ExpectedSlot turn shapes into rows and table
  entries, and Consistent says a view's cache agrees with them.
 */
module DocView {
  import opened Common
  import opened LineWrap
  import opened Folding

  /** The document: its lines, each holding its trailing newline, and whether it is still loading. */
  datatype Doc = Doc(lines: seq<string>, loading: bool)

  datatype Config = Config(mode: LineWrapMode, wrapType: LineWrapType, tabWidth: nat, keepIndentation: bool)

  /** A line-table entry: the index of a line's first visual row, or Hidden for a folded line. */
  datatype Slot = Hidden | At(index: int)

  datatype View = View(
    doc: Option<Doc>,
    font: Option<Metrics>,
    maxWidth: nat,
    config: Config,
    rows: seq<Pos>,                  // the visible rows, top to bottom
    offsets: seq<nat>,               // indentation padding per logical line
    table: seq<Slot>,                // logical line -> first visible row
    declared: map<int, TextRange>,   // declared fold regions, by the line they were declared at
    folded: seq<TextRange>,          // currently folded regions, sorted
    pending: bool                    // a rebuild was deferred while the document loaded
  )

  /** The inputs that determine the cache. */
  datatype Layout = Layout(doc: Doc, font: Option<Metrics>, maxWidth: nat, config: Config, folded: seq<TextRange>)

  predicate HasDoc(v: View) {
    v.doc.Some?
  }

  function LayoutOf(v: View): Layout
    requires HasDoc(v)
  {
    Layout(v.doc.value, v.font, v.maxWidth, v.config, v.folded)
  }

  predicate WrapEnabled(v: View) {
    v.config.mode != NoWrap
  }

  /** No wrapping and nothing folded: visual rows are logical lines and no cache is needed. */
  predicate IsOneToOne(v: View) {
    v.config.mode == NoWrap && |v.folded| == 0
  }

  // ---------------------------------------------------------------------
  // Reference meaning of the cache
  // ---------------------------------------------------------------------

  function LineCount(lay: Layout): nat {
    |lay.doc.lines|
  }

  /** The text of a line without its trailing newline. */
  function LineText(d: Doc, i: nat): string
    requires i < |d.lines|
  {
    var t := d.lines[i];
    if |t| == 0 then t else t[..|t| - 1]
  }

  /**
    The breaks and padding of a line, with the source's arithmetic after a
    word break; a single unpadded row when wrapping is off.
   */
  function LineInfo(lay: Layout, i: nat): WrapInfo
    requires i < LineCount(lay)
  {
    if lay.config.mode != NoWrap then
      ComputeLineBreaksAsWritten(LineText(lay.doc, i), lay.font, lay.maxWidth, lay.config.mode,
                        lay.config.keepIndentation, lay.config.tabWidth)
    else WrapInfo([0], 0)
  }

  /** What the cache records about one logical line: whether it is folded, its breaks and its padding. */
  datatype LineShape = LineShape(folded: bool, wraps: seq<nat>, pad: nat)

  /**
    The shape of a line under a layout. A folded line records its
    indentation width when wrapping (zero otherwise) and contributes no
    rows; any other line records the breaks and padding of its text.
   */
  function ShapeOf(lay: Layout, i: nat): LineShape
    requires i < LineCount(lay)
  {
    if IsFolded(lay.folded, i) then
      LineShape(true, [0], if lay.config.mode != NoWrap then ComputeOffsets(lay.font, lay.doc.lines[i], lay.config.tabWidth) else 0)
    else
      var info := LineInfo(lay, i);
      LineShape(false, info.wraps, info.paddingStart)
  }

  function Shapes(lay: Layout): (sh: seq<LineShape>)
    ensures |sh| == LineCount(lay)
  {
    ShapesUpTo(lay, LineCount(lay))
  }

  /** The shapes of lines 0 .. k-1. */
  function ShapesUpTo(lay: Layout, k: nat): (sh: seq<LineShape>)
    requires k <= LineCount(lay)
    ensures |sh| == k
  {
    if k == 0 then [] else ShapesUpTo(lay, k - 1) + [ShapeOf(lay, k - 1)]
  }

  lemma {:induction false} ShapesUpToAt(lay: Layout, k: nat, i: nat)
    requires i < k <= LineCount(lay)
    ensures ShapesUpTo(lay, k)[i] == ShapeOf(lay, i)
    decreases k
  {
    if i < k - 1 {
      ShapesUpToAt(lay, k - 1, i);
    }
  }

  /** Line i's entry in the shapes is its shape. */
  lemma ShapesAt(lay: Layout, i: nat)
    requires i < LineCount(lay)
    ensures Shapes(lay)[i] == ShapeOf(lay, i)
  {
    ShapesUpToAt(lay, LineCount(lay), i);
  }

  /** A line has at least one row, the first at column 0, and its breaks never go backwards. */
  ghost predicate ShapeOk(s: LineShape) {
    && |s.wraps| >= 1
    && s.wraps[0] == 0
    && (forall j, k :: 0 <= j < k < |s.wraps| ==> s.wraps[j] <= s.wraps[k])
  }

  ghost predicate ShapesOk(sh: seq<LineShape>) {
    forall i :: 0 <= i < |sh| ==> ShapeOk(sh[i])
  }

  lemma ShapesAreOk(lay: Layout)
    ensures ShapesOk(Shapes(lay))
  {
    forall i | 0 <= i < LineCount(lay) ensures ShapeOk(Shapes(lay)[i]) {
      ShapesAt(lay, i);
      if !IsFolded(lay.folded, i) && lay.config.mode != NoWrap {
        assert WellOrderedBreaks(LineInfo(lay, i).wraps);
      }
    }
  }

  /** One row per break, all on the given line. */
  function RowsOf(line: int, wraps: seq<nat>): (r: seq<Pos>)
    ensures |r| == |wraps|
    ensures forall k :: 0 <= k < |wraps| ==> r[k] == Pos(line, wraps[k])
  {
    seq(|wraps|, k requires 0 <= k < |wraps| => Pos(line, wraps[k]))
  }

  /** The rows a line contributes: none when folded, one per break otherwise. */
  function LineRows(sh: seq<LineShape>, i: nat): seq<Pos>
    requires i < |sh|
  {
    if sh[i].folded then [] else RowsOf(i, sh[i].wraps)
  }

  /** The rows of lines lo .. hi-1, in order. */
  function RowsBetween(sh: seq<LineShape>, lo: nat, hi: nat): seq<Pos>
    requires lo <= hi <= |sh|
    decreases hi - lo
  {
    if lo == hi then [] else RowsBetween(sh, lo, hi - 1) + LineRows(sh, hi - 1)
  }

  /** The table entry of a line: Hidden when folded, else the number of rows above it. */
  function ExpectedSlot(sh: seq<LineShape>, i: nat): Slot
    requires i < |sh|
  {
    if sh[i].folded then Hidden else At(|RowsBetween(sh, 0, i)|)
  }

  /**
    The cache holds exactly the rows and table entries the line shapes call
    for, and the padding of every visible line. The padding recorded for a
    hidden line is never read; a rebuild records its indentation width, a
    fold keeps the padding it had while visible.
   */
  ghost predicate CacheMatches(sh: seq<LineShape>, rows: seq<Pos>, offsets: seq<nat>, table: seq<Slot>) {
    && rows == RowsBetween(sh, 0, |sh|)
    && |offsets| == |sh|
    && |table| == |sh|
    && (forall i :: 0 <= i < |sh| && !sh[i].folded ==> offsets[i] == sh[i].pad)
    && (forall i :: 0 <= i < |sh| ==> table[i] == ExpectedSlot(sh, i))
  }

  /** Every line's padding, hidden or not, is the one its shape records. */
  ghost predicate PaddingsComplete(sh: seq<LineShape>, offsets: seq<nat>) {
    |offsets| == |sh| && forall i :: 0 <= i < |sh| ==> offsets[i] == sh[i].pad
  }

  ghost predicate Consistent(v: View) {
    HasDoc(v) && CacheMatches(Shapes(LayoutOf(v)), v.rows, v.offsets, v.table)
  }

  // ---------------------------------------------------------------------
  // Structure of RowsBetween
  // ---------------------------------------------------------------------

  lemma {:induction false} RowsBetweenSplit(sh: seq<LineShape>, a: nat, b: nat, c: nat)
    requires a <= b <= c <= |sh|
    ensures RowsBetween(sh, a, c) == RowsBetween(sh, a, b) + RowsBetween(sh, b, c)
    decreases c - b
  {
    if b < c {
      RowsBetweenSplit(sh, a, b, c - 1);
    }
  }

  lemma RowsBetweenGrows(sh: seq<LineShape>, a: nat, b: nat, c: nat)
    requires a <= b <= c <= |sh|
    ensures |RowsBetween(sh, a, b)| <= |RowsBetween(sh, a, c)|
  {
    RowsBetweenSplit(sh, a, b, c);
  }

  /**
    Row k of RowsBetween(lo, hi) belongs to an unfolded line L in [lo, hi),
    lies inside L's block of rows, and starts at the matching break of L.
   */
  lemma {:induction false} RowsBetweenIndex(sh: seq<LineShape>, lo: nat, hi: nat, k: nat)
    requires lo <= hi <= |sh|
    requires k < |RowsBetween(sh, lo, hi)|
    ensures var L := RowsBetween(sh, lo, hi)[k].line;
            && lo <= L < hi
            && !sh[L].folded
            && |RowsBetween(sh, lo, L)| <= k < |RowsBetween(sh, lo, L + 1)|
            && k - |RowsBetween(sh, lo, L)| < |sh[L].wraps|
            && RowsBetween(sh, lo, hi)[k] == Pos(L, sh[L].wraps[k - |RowsBetween(sh, lo, L)|])
    decreases hi - lo
  {
    var prev := RowsBetween(sh, lo, hi - 1);
    if k < |prev| {
      RowsBetweenIndex(sh, lo, hi - 1, k);
      IndexInPrefix(RowsBetween(sh, lo, hi), prev, LineRows(sh, hi - 1), k);
    } else {
      IndexInLastLine(sh, lo, hi, k);
    }
  }

  lemma IndexInPrefix(all: seq<Pos>, prev: seq<Pos>, last: seq<Pos>, k: nat)
    requires all == prev + last && k < |prev|
    ensures all[k] == prev[k]
  {
  }

  /** A row past the rows of lines lo .. hi-2 belongs to line hi-1, at the matching break. */
  lemma IndexInLastLine(sh: seq<LineShape>, lo: nat, hi: nat, k: nat)
    requires lo < hi <= |sh|
    requires |RowsBetween(sh, lo, hi - 1)| <= k < |RowsBetween(sh, lo, hi)|
    ensures !sh[hi - 1].folded
    ensures k - |RowsBetween(sh, lo, hi - 1)| < |sh[hi - 1].wraps|
    ensures RowsBetween(sh, lo, hi)[k] == Pos(hi - 1, sh[hi - 1].wraps[k - |RowsBetween(sh, lo, hi - 1)|])
  {
    var prev := RowsBetween(sh, lo, hi - 1);
    assert RowsBetween(sh, lo, hi)[k] == LineRows(sh, hi - 1)[k - |prev|];
  }

  /** The rows are ordered by position (non-decreasing), and hence by line. */
  lemma RowsBetweenSorted(sh: seq<LineShape>, lo: nat, hi: nat, k1: nat, k2: nat)
    requires ShapesOk(sh)
    requires lo <= hi <= |sh|
    requires k1 <= k2 < |RowsBetween(sh, lo, hi)|
    ensures PosLessEq(RowsBetween(sh, lo, hi)[k1], RowsBetween(sh, lo, hi)[k2])
  {
    var R := RowsBetween(sh, lo, hi);
    RowsBetweenIndex(sh, lo, hi, k1);
    RowsBetweenIndex(sh, lo, hi, k2);
    var L1 := R[k1].line;
    var L2 := R[k2].line;
    if L1 == L2 {
      var b := |RowsBetween(sh, lo, L1)|;
      WrapsOrdered(sh[L1], k1 - b, k2 - b);
    }
  }

  lemma WrapsOrdered(s: LineShape, j: nat, k: nat)
    requires ShapeOk(s) && j <= k < |s.wraps|
    ensures s.wraps[j] <= s.wraps[k]
  {
  }

  /**
    The block of an unfolded line l among all rows: its rows are exactly
    its breaks, it starts at ExpectedSlot(l), the row before it (if any)
    belongs to an earlier line, and the row after it (if any) to a later
    line.
   */
  lemma LineBlock(sh: seq<LineShape>, l: nat)
    requires ShapesOk(sh)
    requires l < |sh| && !sh[l].folded
    ensures var rows := RowsBetween(sh, 0, |sh|);
            var f := |RowsBetween(sh, 0, l)|;
            var n := |sh[l].wraps|;
            && n >= 1
            && f + n <= |rows|
            && rows[f..f + n] == RowsOf(l, sh[l].wraps)
            && rows[f] == Pos(l, 0)
            && (forall k :: f <= k < f + n ==> rows[k].line == l)
            && (forall k :: 0 <= k < f ==> rows[k].line < l)
            && (forall k :: f + n <= k < |rows| ==> rows[k].line > l)
  {
    var N := |sh|;
    LineBlockSplit(sh, l);
    assert ShapeOk(sh[l]);
    RowLines(sh, 0, l);
    RowLines(sh, l + 1, N);
    BlockInConcat(RowsBetween(sh, 0, N), RowsBetween(sh, 0, l), RowsOf(l, sh[l].wraps), RowsBetween(sh, l + 1, N), l);
  }

  /** Every row of lines lo .. hi-1 lies on one of those lines. */
  lemma RowLines(sh: seq<LineShape>, lo: nat, hi: nat)
    requires lo <= hi <= |sh|
    ensures forall k :: 0 <= k < |RowsBetween(sh, lo, hi)| ==> lo <= RowsBetween(sh, lo, hi)[k].line < hi
  {
    forall k | 0 <= k < |RowsBetween(sh, lo, hi)| ensures lo <= RowsBetween(sh, lo, hi)[k].line < hi {
      RowsBetweenIndex(sh, lo, hi, k);
    }
  }

  /** The rows of line l inside a concatenation whose first part lies before l and last part after l. */
  lemma BlockInConcat(rows: seq<Pos>, A: seq<Pos>, B: seq<Pos>, C: seq<Pos>, l: int)
    requires rows == A + B + C
    requires forall k :: 0 <= k < |A| ==> A[k].line < l
    requires forall k :: 0 <= k < |B| ==> B[k].line == l
    requires forall k :: 0 <= k < |C| ==> C[k].line > l
    ensures rows[|A|..|A| + |B|] == B
    ensures forall k :: |A| <= k < |A| + |B| ==> rows[k].line == l
    ensures forall k :: 0 <= k < |A| ==> rows[k].line < l
    ensures forall k :: |A| + |B| <= k < |rows| ==> rows[k].line > l
  {
    BlockOfConcat(A, B, C, l);
    forall k | |A| + |B| <= k < |rows| ensures rows[k].line > l {
      assert rows[k] == C[k - |A| - |B|];
    }
  }

  lemma LineBlockSplit(sh: seq<LineShape>, l: nat)
    requires l < |sh|
    ensures RowsBetween(sh, 0, |sh|) == RowsBetween(sh, 0, l) + LineRows(sh, l) + RowsBetween(sh, l + 1, |sh|)
  {
    RowsBetweenSplit(sh, 0, l, |sh|);
    RowsBetweenSplit(sh, l, l + 1, |sh|);
    OneLineRows(sh, l);
    JoinThree(RowsBetween(sh, 0, |sh|), RowsBetween(sh, 0, l), RowsBetween(sh, l, |sh|),
              RowsBetween(sh, l, l + 1), LineRows(sh, l), RowsBetween(sh, l + 1, |sh|));
  }

  lemma OneLineRows(sh: seq<LineShape>, l: nat)
    requires l < |sh|
    ensures RowsBetween(sh, l, l + 1) == LineRows(sh, l)
  {
    assert RowsBetween(sh, l, l) == [];
  }

  lemma JoinThree(x: seq<Pos>, a: seq<Pos>, y: seq<Pos>, m: seq<Pos>, b: seq<Pos>, c: seq<Pos>)
    requires x == a + y && y == m + c && m == b
    ensures x == a + b + c
  {
  }

  /** Positions in a three-part concatenation whose parts lie before, on and after line l. */
  lemma BlockOfConcat(A: seq<Pos>, B: seq<Pos>, C: seq<Pos>, l: int)
    requires forall k :: 0 <= k < |B| ==> B[k].line == l
    ensures var rows := A + B + C;
            && rows[|A|..|A| + |B|] == B
            && (forall k :: |A| <= k < |A| + |B| ==> rows[k].line == l)
            && (forall k :: 0 <= k < |A| ==> rows[k] == A[k])
            && (forall k :: |A| + |B| <= k < |rows| ==> rows[k] == C[k - |A| - |B|])
  {
    var rows := A + B + C;
    assert rows[|A|..|A| + |B|] == B;
    forall k | |A| <= k < |A| + |B| ensures rows[k].line == l {
      assert rows[k] == B[k - |A|];
    }
  }

  /** A folded line has no rows. */
  lemma FoldedLineHasNoRows(sh: seq<LineShape>, l: nat, k: nat)
    requires l < |sh| && sh[l].folded
    requires k < |RowsBetween(sh, 0, |sh|)|
    ensures RowsBetween(sh, 0, |sh|)[k].line != l
  {
    RowsBetweenIndex(sh, 0, |sh|, k);
  }

  // ---------------------------------------------------------------------
  // Full rebuild
  // ---------------------------------------------------------------------

  /** A rebuild happens only with a width, a document, and a document that has finished loading. */
  predicate Ready(v: View) {
    v.maxWidth != 0 && v.doc.Some? && !v.doc.value.loading
  }

  /** The state a full rebuild produces (the reference for InvalidateCache). */
  function Rebuild(v: View): (r: View)
    ensures v.maxWidth == 0 || v.doc.None? ==> r == v
    ensures HasDoc(v) && v.maxWidth != 0 && v.doc.value.loading ==> r == v.(pending := !IsOneToOne(v))
    ensures Ready(v) ==> Consistent(r) && !r.pending && PaddingsComplete(Shapes(LayoutOf(v)), r.offsets)
    ensures r == v.(rows := r.rows, offsets := r.offsets, table := r.table, pending := r.pending)
  {
    if v.maxWidth == 0 || v.doc.None? then v
    else if v.doc.value.loading then v.(pending := !IsOneToOne(v))
    else
      var sh := Shapes(LayoutOf(v));
      v.(rows := RowsBetween(sh, 0, |sh|),
         offsets := seq(|sh|, i requires 0 <= i < |sh| => sh[i].pad),
         table := seq(|sh|, i requires 0 <= i < |sh| => ExpectedSlot(sh, i)),
         pending := false)
  }

  /**
    Rebuilds the cache line by line: every line records its padding; a
    folded line records a Hidden entry, any other line records the index
    of its first row and appends one row per break. Does nothing without a width or a document,
    and only records a pending rebuild while the document is loading.
   */
  method InvalidateCache(v: View) returns (r: View)
    ensures v.maxWidth == 0 || v.doc.None? ==> r == v
    ensures HasDoc(v) && v.maxWidth != 0 && v.doc.value.loading ==> r == v.(pending := !IsOneToOne(v))
    ensures Ready(v) ==> Consistent(r) && !r.pending && PaddingsComplete(Shapes(LayoutOf(v)), r.offsets)
    ensures r == v.(rows := r.rows, offsets := r.offsets, table := r.table, pending := r.pending)
    ensures r == Rebuild(v)
  {
    if v.maxWidth == 0 || v.doc.None? {
      return v;
    }
    if v.doc.value.loading {
      return v.(pending := !IsOneToOne(v));
    }
    var lay := LayoutOf(v);
    ghost var sh := Shapes(lay);
    var n := LineCount(lay);
    var rows: seq<Pos> := [];
    var offsets: seq<nat> := [];
    var table: seq<Slot> := [];
    var i := 0;
    while i < n
      invariant 0 <= i <= n
      invariant BuiltUpTo(sh, i, rows, offsets, table)
    {
      var line := ShapeOf(lay, i);
      ShapesAt(lay, i);
      BuildStep(sh, i, rows, offsets, table);
      offsets := offsets + [line.pad];
      if line.folded {
        table := table + [Hidden];
      } else {
        table := table + [At(|rows|)];
        rows := rows + RowsOf(i, line.wraps);
      }
      i := i + 1;
    }
    r := v.(rows := rows, offsets := offsets, table := table, pending := false);
    LoopResultIsRebuild(v, rows, offsets, table);
  }

  /** The cache built for lines 0 .. i-1: their rows, and a padding and a table entry per line. */
  ghost predicate BuiltUpTo(sh: seq<LineShape>, i: nat, rows: seq<Pos>, offsets: seq<nat>, table: seq<Slot>) {
    && i <= |sh|
    && rows == RowsBetween(sh, 0, i)
    && |offsets| == i && |table| == i
    && (forall j :: 0 <= j < i ==> offsets[j] == sh[j].pad)
    && (forall j :: 0 <= j < i ==> table[j] == ExpectedSlot(sh, j))
  }

  /** Recording line i extends the cache built for lines 0 .. i-1 to lines 0 .. i. */
  lemma BuildStep(sh: seq<LineShape>, i: nat, rows: seq<Pos>, offsets: seq<nat>, table: seq<Slot>)
    requires i < |sh| && BuiltUpTo(sh, i, rows, offsets, table)
    ensures var l := sh[i];
            BuiltUpTo(sh, i + 1,
                      if l.folded then rows else rows + RowsOf(i, l.wraps),
                      offsets + [l.pad],
                      table + [if l.folded then Hidden else At(|rows|)])
  {
    NextLine(sh, i);
  }

  /** Adding line i to the rows of lines 0 .. i-1, and the table entry line i gets. */
  lemma NextLine(sh: seq<LineShape>, i: nat)
    requires i < |sh|
    ensures RowsBetween(sh, 0, i + 1) == RowsBetween(sh, 0, i) + LineRows(sh, i)
    ensures ExpectedSlot(sh, i) == if sh[i].folded then Hidden else At(|RowsBetween(sh, 0, i)|)
  {
  }

  /** A cache that agrees line by line with the shapes is the one Rebuild produces. */
  lemma LoopResultIsRebuild(v: View, rows: seq<Pos>, offsets: seq<nat>, table: seq<Slot>)
    requires Ready(v)
    requires BuiltUpTo(Shapes(LayoutOf(v)), LineCount(LayoutOf(v)), rows, offsets, table)
    ensures v.(rows := rows, offsets := offsets, table := table, pending := false) == Rebuild(v)
  {
    var sh := Shapes(LayoutOf(v));
    var r := Rebuild(v);
    assert offsets == r.offsets;
    assert table == r.table;
  }

  /**
    The shape of a consistent cache: a folded line is Hidden and owns no
    row; every other line's entry is the index of its first row, which
    starts at column 0, and the rows of that line are exactly the next
    |breaks| rows, one per break.
   */
  lemma ConsistentShape(v: View, l: nat)
    requires Consistent(v)
    requires l < |v.table|
    ensures IsFolded(v.folded, l) <==> v.table[l] == Hidden
    ensures IsFolded(v.folded, l) ==> forall k :: 0 <= k < |v.rows| ==> v.rows[k].line != l
    ensures !IsFolded(v.folded, l) ==>
              var n := |LineInfo(LayoutOf(v), l).wraps|;
              && v.table[l].At? && 0 <= v.table[l].index && v.table[l].index + n <= |v.rows|
              && v.rows[v.table[l].index] == Pos(l, 0)
              && (forall k :: 0 <= k < |v.rows| ==> (v.rows[k].line == l <==> v.table[l].index <= k < v.table[l].index + n))
  {
    var lay := LayoutOf(v);
    var sh := Shapes(lay);
    ShapesAt(lay, l);
    if IsFolded(v.folded, l) {
      forall k | 0 <= k < |v.rows| ensures v.rows[k].line != l {
        FoldedLineHasNoRows(sh, l, k);
      }
    } else {
      ShapesAreOk(lay);
      LineBlock(sh, l);
    }
  }

  // ---------------------------------------------------------------------
  // Queries
  // ---------------------------------------------------------------------

  /** The last index of the run of rows that share rows[i]'s line, scanning forward from i. */
  function RunEnd(rows: seq<Pos>, i: nat): (e: nat)
    requires i < |rows|
    ensures i <= e < |rows|
    ensures forall k :: i <= k <= e ==> rows[k].line == rows[i].line
    ensures e + 1 == |rows| || rows[e + 1].line != rows[i].line
    decreases |rows| - i
  {
    if i + 1 < |rows| && rows[i + 1].line == rows[i].line then RunEnd(rows, i + 1) else i
  }

  /** Whether the table lookup for a line is in range (and, for the last row, names a row). */
  predicate CanLookUp(v: View, line: int, retLast: bool) {
    IsOneToOne(v)
    || (0 <= line < |v.table| && (retLast ==> v.table[line].At? && 0 <= v.table[line].index < |v.rows|))
  }

  /**
    The visible index of a line's first row, or with retLast of its last
    row: the line itself in one-to-one mode, otherwise the table entry,
    extended over the following rows of the same line.
   */
  function ToVisibleIndex(v: View, line: int, retLast: bool): (r: Slot)
    requires CanLookUp(v, line, retLast)
    ensures IsOneToOne(v) ==> r == At(line)
    ensures !IsOneToOne(v) && !retLast ==> r == v.table[line]
    ensures !IsOneToOne(v) && retLast ==>
              r.At? && v.table[line].index <= r.index < |v.rows|
              && (forall k :: v.table[line].index <= k <= r.index ==> v.rows[k].line == v.rows[v.table[line].index].line)
              && (r.index + 1 == |v.rows| || v.rows[r.index + 1].line != v.rows[v.table[line].index].line)
  {
    if IsOneToOne(v) then At(line)
    else if !retLast then v.table[line]
    else At(RunEnd(v.rows, v.table[line].index))
  }

  /** The position a visible row starts at. */
  function GetVisibleIndexPosition(v: View, visibleIndex: nat): (p: Pos)
    requires IsOneToOne(v) || visibleIndex < |v.rows|
    ensures IsOneToOne(v) ==> p == Pos(visibleIndex, 0)
    ensures !IsOneToOne(v) ==> p == v.rows[visibleIndex]
  {
    if IsOneToOne(v) then Pos(visibleIndex, 0) else v.rows[visibleIndex]
  }

  /** The whole text of a line, from column 0 to its stored length. */
  function GetLineRange(d: Doc, line: nat): TextRange
    requires line < |d.lines|
  {
    TextRange(Pos(line, 0), Pos(line, |d.lines[line]|))
  }

  predicate CanGetRange(v: View, visibleIndex: nat) {
    HasDoc(v)
    && (IsOneToOne(v) ==> visibleIndex < |v.doc.value.lines|)
    && (!IsOneToOne(v) ==> visibleIndex < |v.rows| && 0 <= v.rows[visibleIndex].line < |v.doc.value.lines|)
  }

  /**
    The text row vi covers: from its start to the start of the next row of
    the same line, or to the end of the line for its last row.
   */
  function RowRange(rows: seq<Pos>, lines: seq<string>, vi: nat): (r: TextRange)
    requires vi < |rows| && 0 <= rows[vi].line < |lines|
    ensures r.start == rows[vi] && r.end.line == r.start.line
  {
    var start := rows[vi];
    if vi + 1 < |rows| && rows[vi + 1].line == start.line then
      TextRange(start, start.(column := rows[vi + 1].column))
    else
      TextRange(start, start.(column := |lines[start.line]|))
  }

  /** The text a visible row covers; a whole line in one-to-one mode. */
  function GetVisibleIndexRange(v: View, visibleIndex: nat): (r: TextRange)
    requires CanGetRange(v, visibleIndex)
    ensures r.start == GetVisibleIndexPosition(v, visibleIndex)
    ensures r.end.line == r.start.line
  {
    if IsOneToOne(v) then GetLineRange(v.doc.value, visibleIndex)
    else RowRange(v.rows, v.doc.value.lines, visibleIndex)
  }

  /** The number of visible rows: every line in one-to-one mode, else the cached rows. */
  function GetVisibleLinesCount(v: View): (n: nat)
    requires HasDoc(v)
    ensures IsOneToOne(v) ==> n == |v.doc.value.lines|
    ensures !IsOneToOne(v) ==> n == |v.rows|
  {
    if IsOneToOne(v) then |v.doc.value.lines| else |v.rows|
  }

  /** Whether a line occupies more than one row (only ever when wrapping). */
  function IsWrappedLine(v: View, line: int): (r: bool)
    requires WrapEnabled(v) ==> 0 <= line < |v.table| && v.table[line].At? && v.table[line].index >= 0
    ensures r ==> WrapEnabled(v)
  {
    if WrapEnabled(v) then
      var vi := ToVisibleIndex(v, line, false).index;
      vi + 1 < |v.rows| && v.rows[vi].line == v.rows[vi + 1].line
    else false
  }

  /** Whether a line has a row, that is, its table entry points at one. */
  function IsLineVisible(v: View, line: nat): (r: bool)
    requires line < |v.table|
    ensures r <==> v.table[line].At?
  {
    v.table[line] != Hidden
  }

  /** The padding of a line; zero in one-to-one mode or with no paddings recorded. */
  function GetLinePadding(v: View, line: nat): (pad: nat)
    requires !IsOneToOne(v) && |v.offsets| > 0 ==> line < |v.offsets|
    ensures IsOneToOne(v) || |v.offsets| == 0 ==> pad == 0
  {
    if IsOneToOne(v) || |v.offsets| == 0 then 0 else v.offsets[line]
  }

  // ---------------------------------------------------------------------
  // Properties of the queries on a consistent cache
  // ---------------------------------------------------------------------

  /** The breaks of an unfolded line are the ones its shape records. */
  lemma UnfoldedShape(lay: Layout, l: nat)
    requires l < LineCount(lay) && !IsFolded(lay.folded, l)
    ensures !Shapes(lay)[l].folded
    ensures Shapes(lay)[l].wraps == LineInfo(lay, l).wraps
    ensures Shapes(lay)[l].pad == LineInfo(lay, l).paddingStart
  {
    ShapesAt(lay, l);
  }

  lemma {:induction false} IdentityRows(lay: Layout, n: nat)
    requires lay.config.mode == NoWrap && |lay.folded| == 0 && n <= LineCount(lay)
    ensures RowsBetween(Shapes(lay), 0, n) == seq(n, l requires 0 <= l < n => Pos(l, 0))
  {
    if n > 0 {
      IdentityRows(lay, n - 1);
      ShapesAt(lay, n - 1);
    }
  }

  /**
    Without wrapping and folding a consistent cache is the identity: row l
    is line l at column 0 and the table maps l to l, which is what the
    one-to-one fast path answers without any cache.
   */
  lemma OneToOneCacheIsIdentity(v: View)
    requires Consistent(v) && IsOneToOne(v)
    ensures |v.rows| == |v.table| == |v.doc.value.lines|
    ensures forall l :: 0 <= l < |v.table| ==> v.rows[l] == Pos(l, 0) && v.table[l] == At(l)
  {
    var lay := LayoutOf(v);
    IdentityRows(lay, LineCount(lay));
    forall l | 0 <= l < |v.table| ensures v.table[l] == At(l) {
      IdentityRows(lay, l);
      ShapesAt(lay, l);
    }
  }

  /** The number of rows lines 0 .. n-1 give: the break count of every line the layout does not fold. */
  function UnfoldedBreakCount(lay: Layout, n: nat): nat
    requires n <= LineCount(lay)
  {
    if n == 0 then 0
    else UnfoldedBreakCount(lay, n - 1) + (if IsFolded(lay.folded, n - 1) then 0 else |LineInfo(lay, n - 1).wraps|)
  }

  lemma {:induction false} RowsAreUnfoldedBreaks(lay: Layout, n: nat)
    requires n <= LineCount(lay)
    ensures |RowsBetween(Shapes(lay), 0, n)| == UnfoldedBreakCount(lay, n)
  {
    if n > 0 {
      RowsAreUnfoldedBreaks(lay, n - 1);
      ShapesAt(lay, n - 1);
    }
  }

  /**
    On a consistent cache the visible line count is the number of breaks
    of all lines that are not folded, whatever the mode.
   */
  lemma VisibleLinesCountIsUnfoldedBreaks(v: View)
    requires Consistent(v)
    ensures GetVisibleLinesCount(v) == UnfoldedBreakCount(LayoutOf(v), |v.doc.value.lines|)
  {
    var lay := LayoutOf(v);
    RowsAreUnfoldedBreaks(lay, LineCount(lay));
    if IsOneToOne(v) {
      OneToOneCacheIsIdentity(v);
    }
  }

  /**
    The rows and table entries of an unfolded line l in a matching cache:
    the entry is the index f of its first row, the rows f .. f+n-1 start
    at its n breaks, and the run of rows of line l that starts at f ends
    exactly at f+n-1.
   */
  lemma BlockFacts(sh: seq<LineShape>, rows: seq<Pos>, l: nat)
    requires ShapesOk(sh)
    requires rows == RowsBetween(sh, 0, |sh|)
    requires l < |sh| && !sh[l].folded
    ensures var f := |RowsBetween(sh, 0, l)|;
            var n := |sh[l].wraps|;
            && ExpectedSlot(sh, l) == At(f)
            && 1 <= n && f + n <= |rows|
            && rows[f] == Pos(l, 0)
            && (forall j :: 0 <= j < n ==> rows[f + j] == Pos(l, sh[l].wraps[j]))
            && RunEnd(rows, f) == f + n - 1
            && (f + n < |rows| ==> rows[f + n].line != l)
  {
    LineBlockAndAfter(sh, l);
    BlockOfRows(rows, |RowsBetween(sh, 0, l)|, l, sh[l].wraps);
  }

  /** The part of LineBlock that BlockFacts needs: the block itself and the later lines after it. */
  lemma LineBlockAndAfter(sh: seq<LineShape>, l: nat)
    requires ShapesOk(sh)
    requires l < |sh| && !sh[l].folded
    ensures var rows := RowsBetween(sh, 0, |sh|);
            var f := |RowsBetween(sh, 0, l)|;
            var n := |sh[l].wraps|;
            && 1 <= n && f + n <= |rows|
            && rows[f..f + n] == RowsOf(l, sh[l].wraps)
            && (forall k :: f + n <= k < |rows| ==> rows[k].line > l)
  {
    LineBlock(sh, l);
  }

  /** A block of rows of line l, one per break, followed only by rows of later lines. */
  lemma BlockOfRows(rows: seq<Pos>, f: nat, l: int, w: seq<nat>)
    requires 1 <= |w| && f + |w| <= |rows| && rows[f..f + |w|] == RowsOf(l, w)
    requires forall k :: f + |w| <= k < |rows| ==> rows[k].line > l
    ensures forall j :: 0 <= j < |w| ==> rows[f + j] == Pos(l, w[j])
    ensures RunEnd(rows, f) == f + |w| - 1
    ensures f + |w| < |rows| ==> rows[f + |w|].line != l
  {
    var n := |w|;
    forall j | 0 <= j < n ensures rows[f + j] == Pos(l, w[j]) {
      assert rows[f + j] == rows[f..f + n][j];
    }
    RunEndOfBlock(rows, f, n, l);
  }

  /** A run of n rows of line l starting at f, not followed by another row of l, ends at f+n-1. */
  lemma {:induction false} RunEndOfBlock(rows: seq<Pos>, f: nat, n: nat, l: int)
    requires 1 <= n && f + n <= |rows|
    requires forall k :: f <= k < f + n ==> rows[k].line == l
    requires f + n < |rows| ==> rows[f + n].line != l
    ensures RunEnd(rows, f) == f + n - 1
    decreases n
  {
    if n > 1 {
      RunEndOfBlock(rows, f + 1, n - 1, l);
    }
  }

  /**
    For a visible line, the first visible index points at the line's row
    at column 0 and the last visible index at the last row of its block,
    one row per break further on; mapping the first index back gives
    (line, 0), and every row in between belongs to the line.
   */
  lemma VisibleIndexOfLine(v: View, l: nat)
    requires Consistent(v) && !IsOneToOne(v)
    requires l < |v.table| && !IsFolded(v.folded, l)
    ensures CanLookUp(v, l, true)
    ensures var first := ToVisibleIndex(v, l, false);
            var last := ToVisibleIndex(v, l, true);
            && first.At? && last.At?
            && last.index == first.index + |LineInfo(LayoutOf(v), l).wraps| - 1
            && GetVisibleIndexPosition(v, first.index) == Pos(l, 0)
            && (forall k :: first.index <= k <= last.index ==> v.rows[k].line == l)
  {
    var lay := LayoutOf(v);
    ShapesAreOk(lay);
    UnfoldedShape(lay, l);
    VisibleIndexOfBlock(v, Shapes(lay), l);
  }

  lemma VisibleIndexOfBlock(v: View, sh: seq<LineShape>, l: nat)
    requires !IsOneToOne(v)
    requires ShapesOk(sh) && CacheMatches(sh, v.rows, v.offsets, v.table)
    requires l < |sh| && !sh[l].folded
    ensures CanLookUp(v, l, true)
    ensures var first := ToVisibleIndex(v, l, false);
            var last := ToVisibleIndex(v, l, true);
            && first.At? && last.At?
            && last.index == first.index + |sh[l].wraps| - 1
            && GetVisibleIndexPosition(v, first.index) == Pos(l, 0)
            && (forall k :: first.index <= k <= last.index ==> v.rows[k].line == l)
  {
    BlockFacts(sh, v.rows, l);
  }

  /** A visible line wraps exactly when its line breaks give more than one row. */
  lemma WrappedLineIffSeveralBreaks(v: View, l: nat)
    requires Consistent(v) && WrapEnabled(v)
    requires l < |v.table| && !IsFolded(v.folded, l)
    ensures v.table[l].At? && v.table[l].index >= 0
    ensures IsWrappedLine(v, l) <==> |LineInfo(LayoutOf(v), l).wraps| > 1
  {
    var lay := LayoutOf(v);
    ShapesAreOk(lay);
    UnfoldedShape(lay, l);
    WrappedBlock(v, Shapes(lay), l);
  }

  lemma WrappedBlock(v: View, sh: seq<LineShape>, l: nat)
    requires WrapEnabled(v)
    requires ShapesOk(sh) && CacheMatches(sh, v.rows, v.offsets, v.table)
    requires l < |sh| && !sh[l].folded
    ensures v.table[l].At? && v.table[l].index >= 0
    ensures IsWrappedLine(v, l) <==> |sh[l].wraps| > 1
  {
    BlockFacts(sh, v.rows, l);
    var f := |RowsBetween(sh, 0, l)|;
    assert v.table[l] == At(f);
    assert v.rows[f].line == l;
    if |sh[l].wraps| > 1 {
      assert v.rows[f + 1] == Pos(l, sh[l].wraps[1]);
    } else if f + 1 < |v.rows| {
      assert v.rows[f + 1].line != l;
    }
  }

  /** The row j of the block of line l, the row after it, and the row after the block. */
  lemma RowOfBlock(sh: seq<LineShape>, rows: seq<Pos>, l: nat, j: nat, f: nat)
    requires ShapesOk(sh)
    requires rows == RowsBetween(sh, 0, |sh|)
    requires l < |sh| && !sh[l].folded && j < |sh[l].wraps|
    requires f == |RowsBetween(sh, 0, l)|
    ensures ExpectedSlot(sh, l) == At(f)
    ensures f + |sh[l].wraps| <= |rows|
    ensures rows[f + j] == Pos(l, sh[l].wraps[j])
    ensures j + 1 < |sh[l].wraps| ==> rows[f + j + 1] == Pos(l, sh[l].wraps[j + 1])
    ensures f + |sh[l].wraps| < |rows| ==> rows[f + |sh[l].wraps|].line != l
  {
    LineBlockAndAfter(sh, l);
    PointsOfBlock(rows, f, l, sh[l].wraps, j);
  }

  /** Row j of a block of rows of line l that starts at f, its successor, and the row after the block. */
  lemma PointsOfBlock(rows: seq<Pos>, f: nat, l: int, w: seq<nat>, j: nat)
    requires j < |w| && f + |w| <= |rows| && rows[f..f + |w|] == RowsOf(l, w)
    requires forall k :: f + |w| <= k < |rows| ==> rows[k].line > l
    ensures rows[f + j] == Pos(l, w[j])
    ensures j + 1 < |w| ==> rows[f + j + 1] == Pos(l, w[j + 1])
    ensures f + |w| < |rows| ==> rows[f + |w|].line != l
  {
    assert rows[f + j] == rows[f..f + |w|][j];
    if j + 1 < |w| {
      assert rows[f + j + 1] == rows[f..f + |w|][j + 1];
    }
  }

  /** The text range of row f + j of a block of rows of line l that starts at f, one row per break. */
  lemma RangeInBlock(rows: seq<Pos>, lines: seq<string>, f: nat, l: nat, w: seq<nat>, j: nat)
    requires j < |w| && f + |w| <= |rows| && l < |lines|
    requires rows[f + j] == Pos(l, w[j])
    requires j + 1 < |w| ==> rows[f + j + 1] == Pos(l, w[j + 1])
    requires f + |w| < |rows| ==> rows[f + |w|].line != l
    ensures rows[f + j].line == l
    ensures RowRange(rows, lines, f + j)
            == TextRange(Pos(l, w[j]), if j + 1 < |w| then Pos(l, w[j + 1]) else Pos(l, |lines[l]|))
  {
  }

  /** The range of the j-th row of an unfolded line l in a cache that matches the shapes. */
  lemma BlockRangesView(v: View, sh: seq<LineShape>, l: nat, j: nat)
    requires HasDoc(v) && !IsOneToOne(v)
    requires ShapesOk(sh) && |v.doc.value.lines| == |sh|
    requires v.rows == RowsBetween(sh, 0, |sh|)
    requires l < |sh| && l < |v.table| && !sh[l].folded && v.table[l] == ExpectedSlot(sh, l)
    requires j < |sh[l].wraps|
    ensures v.table[l].At? && v.table[l].index >= 0
    ensures CanGetRange(v, v.table[l].index + j)
    ensures var w := sh[l].wraps;
            GetVisibleIndexRange(v, v.table[l].index + j)
            == TextRange(Pos(l, w[j]), if j + 1 < |w| then Pos(l, w[j + 1]) else Pos(l, |v.doc.value.lines[l]|))
  {
    var f := |RowsBetween(sh, 0, l)|;
    RowOfBlock(sh, v.rows, l, j, f);
    ViewRowRange(v, f, l, sh[l].wraps, j);
  }

  /** The range of the j-th row of line l, whose block of rows, one per break, starts at row f. */
  lemma ViewRowRange(v: View, f: nat, l: nat, w: seq<nat>, j: nat)
    requires HasDoc(v) && !IsOneToOne(v) && l < |v.doc.value.lines|
    requires l < |v.table| && v.table[l] == At(f)
    requires j < |w| && f + |w| <= |v.rows|
    requires v.rows[f + j] == Pos(l, w[j])
    requires j + 1 < |w| ==> v.rows[f + j + 1] == Pos(l, w[j + 1])
    requires f + |w| < |v.rows| ==> v.rows[f + |w|].line != l
    ensures v.table[l].At? && v.table[l].index >= 0
    ensures CanGetRange(v, v.table[l].index + j)
    ensures GetVisibleIndexRange(v, v.table[l].index + j)
            == TextRange(Pos(l, w[j]), if j + 1 < |w| then Pos(l, w[j + 1]) else Pos(l, |v.doc.value.lines[l]|))
  {
    RangeInBlock(v.rows, v.doc.value.lines, f, l, w, j);
  }

  lemma RowRangesTileLine(v: View, l: nat, j: nat)
    requires Consistent(v) && !IsOneToOne(v)
    requires l < |v.table| && !IsFolded(v.folded, l)
    requires j < |LineInfo(LayoutOf(v), l).wraps|
    ensures v.table[l].At? && v.table[l].index >= 0
    ensures CanGetRange(v, v.table[l].index + j)
    ensures var w := LineInfo(LayoutOf(v), l).wraps;
            GetVisibleIndexRange(v, v.table[l].index + j)
            == TextRange(Pos(l, w[j]), if j + 1 < |w| then Pos(l, w[j + 1]) else Pos(l, |v.doc.value.lines[l]|))
  {
    var lay := LayoutOf(v);
    ShapesAreOk(lay);
    UnfoldedShape(lay, l);
    BlockRangesView(v, Shapes(lay), l, j);
  }

  /** Counts the lines among the first n that no folded region hides. */
  function UnfoldedCount(folded: seq<TextRange>, n: nat): nat {
    if n == 0 then 0 else UnfoldedCount(folded, n - 1) + (if IsFolded(folded, n - 1) then 0 else 1)
  }

  lemma {:induction false} NoWrapRowsCount(lay: Layout, n: nat)
    requires lay.config.mode == NoWrap && n <= LineCount(lay)
    ensures |RowsBetween(Shapes(lay), 0, n)| == UnfoldedCount(lay.folded, n)
  {
    if n > 0 {
      NoWrapRowsCount(lay, n - 1);
      ShapesAt(lay, n - 1);
    }
  }

  /**
    Without wrapping, the number of visible rows of a consistent cache is
    the number of lines no folded region hides (all lines in one-to-one
    mode).
   */
  lemma VisibleLinesCountWithoutWrap(v: View)
    requires Consistent(v) && !WrapEnabled(v)
    ensures GetVisibleLinesCount(v) == UnfoldedCount(v.folded, |v.doc.value.lines|)
  {
    NoWrapRowsCount(LayoutOf(v), |v.doc.value.lines|);
    if IsOneToOne(v) {
      UnfoldedCountWithoutFolds(|v.doc.value.lines|);
    }
  }

  lemma {:induction false} UnfoldedCountWithoutFolds(n: nat)
    ensures UnfoldedCount([], n) == n
  {
    if n > 0 {
      UnfoldedCountWithoutFolds(n - 1);
    }
  }

  // ---------------------------------------------------------------------
  // Configuration
  // ---------------------------------------------------------------------

  /**
    Changing the width rebuilds the cache; an unchanged width rebuilds only
    when forced or when a rebuild is pending.
   */
  function SetMaxWidth(v: View, maxWidth: nat, forceReconstructBreaks: bool): (r: View)
    ensures r.maxWidth == maxWidth
    ensures maxWidth == v.maxWidth && !forceReconstructBreaks && !v.pending ==> r == v
    ensures Ready(r) && (maxWidth != v.maxWidth || forceReconstructBreaks || v.pending) ==> Consistent(r) && !r.pending
    ensures r.doc == v.doc && r.config == v.config && r.folded == v.folded && r.declared == v.declared
  {
    if maxWidth != v.maxWidth then Rebuild(v.(maxWidth := maxWidth))
    else if forceReconstructBreaks || v.pending then Rebuild(v)
    else v
  }

  function SetLineWrapMode(v: View, mode: LineWrapMode): (r: View)
    ensures r.config.mode == mode
    ensures mode == v.config.mode ==> r == v
    ensures mode != v.config.mode && Ready(v) ==> Consistent(r) && !r.pending
    ensures r.doc == v.doc && r.folded == v.folded && r.declared == v.declared
  {
    if mode != v.config.mode then Rebuild(v.(config := v.config.(mode := mode))) else v
  }

  function SetConfig(v: View, config: Config): (r: View)
    ensures r.config == config
    ensures config == v.config ==> r == v
    ensures config != v.config && Ready(v) ==> Consistent(r) && !r.pending
    ensures r.doc == v.doc && r.folded == v.folded && r.declared == v.declared
  {
    if config != v.config then Rebuild(v.(config := config)) else v
  }

  /**
    setDocument: a different document rebuilds the cache. Documents are
    compared by value here, where the source compares object identity.
   */
  function SetDocument(v: View, doc: Option<Doc>): (r: View)
    ensures r.doc == doc
    ensures doc == v.doc ==> r == v
    ensures doc != v.doc && Ready(r) ==> Consistent(r) && !r.pending
    ensures r.config == v.config && r.folded == v.folded && r.declared == v.declared
  {
    if doc != v.doc then Rebuild(v.(doc := doc)) else v
  }

  /** Drops the cache (the three sequences), keeping settings and folds. */
  function ClearCache(v: View): (r: View)
    ensures r.rows == [] && r.offsets == [] && r.table == []
    ensures r == v.(rows := r.rows, offsets := r.offsets, table := r.table)
  {
    v.(rows := [], offsets := [], table := [])
  }

  /** Drops the cache and forgets every declared and folded region. */
  function Clear(v: View): (r: View)
    ensures r.rows == [] && r.offsets == [] && r.table == []
    ensures r.declared == map[] && r.folded == []
    ensures IsOneToOne(r) <==> !WrapEnabled(v)
  {
    ClearCache(v).(declared := map[], folded := [])
  }
}
