/**
  Folding on the view cache: hiding the rows of a range of lines, showing
  them again, and the fold and unfold operations built on those two steps.

  Hiding erases the rows of the range, marks its lines Hidden and moves
  every later line's entry up by the number of rows erased. Showing finds
  where the range's rows belong by a binary search on the row order and
  inserts them there, recording each line's padding; it leaves the line
  table as it was (see UnfoldLeavesTableStale and UnfoldRegionFixed).
 */
module ViewFolding {
  import opened Common
  import opened LineWrap
  import opened Folding
  import opened DocView

  // ---------------------------------------------------------------------
  // Hiding lines
  // ---------------------------------------------------------------------

  /** The lookups a hide of lines from .. to makes are in range and name a span of rows. */
  predicate CanHide(v: View, from: int, to: int) {
    && 0 <= from <= to < |v.table|
    && CanLookUp(v, from, false) && CanLookUp(v, to, true)
    && ToVisibleIndex(v, from, false).At?
    && 0 <= ToVisibleIndex(v, from, false).index <= ToVisibleIndex(v, to, true).index + 1 <= |v.rows|
  }

  /** Moves a table entry by delta rows; Hidden stays Hidden. */
  function ShiftSlot(s: Slot, delta: int): Slot {
    if s.At? then At(s.index + delta) else Hidden
  }

  /** The table after hiding lines from .. to and erasing `erased` rows. */
  function HideTable(table: seq<Slot>, from: int, to: int, erased: int): (r: seq<Slot>)
    ensures |r| == |table|
    ensures forall i :: 0 <= i < |table| && i < from ==> r[i] == table[i]
    ensures forall i :: 0 <= i < |table| && from <= i <= to ==> r[i] == Hidden
    ensures forall i :: 0 <= i < |table| && to < i ==> (r[i] == Hidden <==> table[i] == Hidden)
  {
    seq(|table|, i requires 0 <= i < |table| =>
      if i < from then table[i] else if i <= to then Hidden else ShiftSlot(table[i], -erased))
  }

  /**
    Hides lines from .. to: erases the rows from the first row of `from`
    through the last row of `to`, marks the lines Hidden, moves every later
    visible line's entry up by the number of rows erased, and keeps the
    paddings.
   */
  function HideLines(v: View, from: int, to: int): (r: View)
    requires CanHide(v, from, to)
    ensures var lo := ToVisibleIndex(v, from, false).index;
            var hi := ToVisibleIndex(v, to, true).index + 1;
            && |r.rows| == |v.rows| - (hi - lo) && |r.table| == |v.table|
            && r.rows[..lo] == v.rows[..lo] && r.rows[lo..] == v.rows[hi..]
            && (forall i :: to < i < |v.table| && v.table[i].At? ==> r.table[i] == At(v.table[i].index - (hi - lo)))
    ensures r.offsets == v.offsets
    ensures r == v.(rows := r.rows, table := r.table)
  {
    var lo := ToVisibleIndex(v, from, false).index;
    var hi := ToVisibleIndex(v, to, true).index + 1;
    v.(rows := v.rows[..lo] + v.rows[hi..], table := HideTable(v.table, from, to, hi - lo))
  }

  // ---------------------------------------------------------------------
  // Showing lines
  // ---------------------------------------------------------------------

  /** The first index whose row is not before p: every row in front of it is before p. */
  function LowerBound(rows: seq<Pos>, p: Pos): (k: nat)
    ensures k <= |rows|
    ensures forall j :: 0 <= j < k ==> PosLess(rows[j], p)
    ensures k < |rows| ==> !PosLess(rows[k], p)
  {
    if |rows| == 0 || !PosLess(rows[0], p) then 0
    else 1 + LowerBound(rows[1..], p)
  }

  /** The characterization of LowerBound determines it. */
  lemma LowerBoundUnique(rows: seq<Pos>, p: Pos, k: nat)
    requires k <= |rows|
    requires forall j :: 0 <= j < k ==> PosLess(rows[j], p)
    requires k < |rows| ==> !PosLess(rows[k], p)
    ensures LowerBound(rows, p) == k
  {
  }

  ghost predicate RowsSorted(rows: seq<Pos>) {
    forall i, j :: 0 <= i <= j < |rows| ==> PosLessEq(rows[i], rows[j])
  }

  /** Binary search for the lower bound of p in ordered rows. */
  method LowerBoundSearch(rows: seq<Pos>, p: Pos) returns (k: nat)
    requires RowsSorted(rows)
    ensures k == LowerBound(rows, p)
  {
    var lo, hi := 0, |rows|;
    while lo < hi
      invariant 0 <= lo <= hi <= |rows|
      invariant forall j :: 0 <= j < lo ==> PosLess(rows[j], p)
      invariant forall j :: hi <= j < |rows| ==> !PosLess(rows[j], p)
      decreases hi - lo
    {
      var mid := (lo + hi) / 2;
      if PosLess(rows[mid], p) {
        lo := mid + 1;
      } else {
        hi := mid;
      }
    }
    k := lo;
    LowerBoundUnique(rows, p, k);
  }

  /** The layout with nothing folded: every line has the shape of its own breaks and padding. */
  function Unfolded(lay: Layout): Layout {
    lay.(folded := [])
  }

  /** Without folds a line's shape is its line breaks and padding. */
  lemma UnfoldedLine(lay: Layout, i: nat)
    requires i < LineCount(lay)
    ensures Shapes(Unfolded(lay))[i] == LineShape(false, LineInfo(lay, i).wraps, LineInfo(lay, i).paddingStart)
  {
    ShapesAt(Unfolded(lay), i);
    assert LineInfo(Unfolded(lay), i) == LineInfo(lay, i);
  }

  /** The lines shown must exist, in the document and among the paddings. */
  predicate CanShow(v: View, from: int, to: int) {
    HasDoc(v) && (from <= to ==> 0 <= from && to < |v.doc.value.lines| && to < |v.offsets|)
  }

  /** The paddings after showing lines from .. to with their unfolded shapes U: each shown line records its own. */
  function ShowOffsets(U: seq<LineShape>, offsets: seq<nat>, from: nat, to: int): (r: seq<nat>)
    requires to < |U| && to < |offsets|
    ensures |r| == |offsets|
    ensures forall i :: 0 <= i < |offsets| && !(from <= i <= to) ==> r[i] == offsets[i]
  {
    seq(|offsets|, i requires 0 <= i < |offsets| =>
      if from <= i <= to then U[i].pad else offsets[i])
  }

  /**
    Shows lines from .. to: their rows, one per break, are inserted in line
    order where the row (from, 0) belongs, and each line records its
    padding. The line table is left as it was.
   */
  function ShowLines(v: View, from: int, to: int): (r: View)
    requires CanShow(v, from, to)
    ensures from > to ==> r == v
    ensures r.table == v.table
    ensures r == v.(rows := r.rows, offsets := r.offsets)
    ensures from <= to ==>
              var k := LowerBound(v.rows, Pos(from, 0));
              var shown := RowsBetween(Shapes(Unfolded(LayoutOf(v))), from, to + 1);
              && |r.rows| == |v.rows| + |shown|
              && r.rows[..k] == v.rows[..k]
              && r.rows[k..k + |shown|] == shown
              && r.rows[k + |shown|..] == v.rows[k..]
  {
    if from > to then v
    else
      var lay := LayoutOf(v);
      var k := LowerBound(v.rows, Pos(from, 0));
      var shown := RowsBetween(Shapes(Unfolded(lay)), from, to + 1);
      var rows := v.rows[..k] + shown + v.rows[k..];
      assert rows[..k] == v.rows[..k];
      assert rows[k..k + |shown|] == shown;
      assert rows[k + |shown|..] == v.rows[k..];
      v.(rows := rows, offsets := ShowOffsets(Shapes(Unfolded(lay)), v.offsets, from, to))
  }

  /**
    Shows or hides lines from .. to. Showing runs the binary search for the
    insertion point, then inserts the rows of each line in turn and records
    its padding.
   */
  method ChangeVisibility(v: View, from: int, to: int, visible: bool) returns (r: View)
    requires visible ==> CanShow(v, from, to) && RowsSorted(v.rows)
    requires !visible ==> CanHide(v, from, to)
    ensures visible ==> r == ShowLines(v, from, to)
    ensures !visible ==> r == HideLines(v, from, to)
  {
    if !visible {
      return HideLines(v, from, to);
    }
    if from > to {
      return v;
    }
    r := ShowLinesLoop(v, from, to);
  }

  method ShowLinesLoop(v: View, from: int, to: int) returns (r: View)
    requires CanShow(v, from, to) && RowsSorted(v.rows) && from <= to
    ensures r == ShowLines(v, from, to)
  {
    var U := Shapes(Unfolded(LayoutOf(v)));
    forall i | from <= i <= to ensures !U[i].folded {
      UnfoldedShape(Unfolded(LayoutOf(v)), i);
    }
    var k := LowerBoundSearch(v.rows, Pos(from, 0));
    var rows, offsets := InsertShownRows(U, v.offsets, from, to, v.rows[..k], v.rows[k..]);
    r := v.(rows := rows, offsets := offsets);
    LoopResultIsShow(v, from, to, k, U, rows, offsets);
  }

  /**
    The loop of the show branch: line by line from `from` to `to`, the
    rows of each line, one per break, go in after those already inserted,
    and the line's padding is recorded.
   */
  method InsertShownRows(U: seq<LineShape>, base: seq<nat>, from: nat, to: nat, before: seq<Pos>, after: seq<Pos>)
    returns (rows: seq<Pos>, offsets: seq<nat>)
    requires from <= to < |U| && to < |base|
    requires forall i :: from <= i <= to ==> !U[i].folded
    ensures rows == before + RowsBetween(U, from, to + 1) + after
    ensures offsets == ShowOffsets(U, base, from, to)
  {
    rows := before + after;
    offsets := base;
    var idx := |before|;
    var i: nat := from;
    ShowLoopStart(U, base, from, before, after, rows);
    while i <= to
      invariant i <= to + 1
      invariant ShownUpTo(U, base, from, i, before, after, rows, idx, offsets)
    {
      var line := U[i];
      ShowLoopStep(U, base, from, i, before, after, rows, idx, offsets);
      offsets := offsets[i := line.pad];
      rows := rows[..idx] + RowsOf(i, line.wraps) + rows[idx..];
      idx := idx + |line.wraps|;
      i := i + 1;
    }
  }

  /** The state of the show loop once lines from .. i-1 have had their rows inserted. */
  ghost predicate ShownUpTo(U: seq<LineShape>, base: seq<nat>, from: nat, i: nat,
                            before: seq<Pos>, after: seq<Pos>, rows: seq<Pos>, idx: int, offsets: seq<nat>) {
    && from <= i <= |U| && i <= |base|
    && idx == |before| + |RowsBetween(U, from, i)|
    && rows == before + RowsBetween(U, from, i) + after
    && offsets == ShowOffsets(U, base, from, i - 1)
  }

  lemma ShowLoopStart(U: seq<LineShape>, base: seq<nat>, from: nat, before: seq<Pos>, after: seq<Pos>, rows: seq<Pos>)
    requires from <= |U| && from <= |base|
    requires rows == before + after
    ensures ShownUpTo(U, base, from, from, before, after, rows, |before|, base)
  {
    assert ShowOffsets(U, base, from, from - 1) == base;
  }

  lemma ShowLoopStep(U: seq<LineShape>, base: seq<nat>, from: nat, i: nat,
                     before: seq<Pos>, after: seq<Pos>, rows: seq<Pos>, idx: int, offsets: seq<nat>)
    requires ShownUpTo(U, base, from, i, before, after, rows, idx, offsets)
    requires i < |U| && i < |base| && !U[i].folded
    ensures 0 <= idx <= |rows| && i < |offsets|
    ensures ShownUpTo(U, base, from, i + 1, before, after,
                      rows[..idx] + RowsOf(i, U[i].wraps) + rows[idx..], idx + |U[i].wraps|,
                      offsets[i := U[i].pad])
  {
    ShowStep(U, from, i, before, after, rows, idx, U[i].wraps, U[i].pad);
    ShowOffsetsStep(U, base, from, i);
  }


  /** One step of the show loop: the next line's rows go right after those already shown. */
  lemma ShowStep(U: seq<LineShape>, from: nat, i: nat, before: seq<Pos>, after: seq<Pos>,
                 rows: seq<Pos>, idx: int, wraps: seq<nat>, pad: nat)
    requires from <= i < |U| && U[i] == LineShape(false, wraps, pad)
    requires rows == before + RowsBetween(U, from, i) + after
    requires idx == |before| + |RowsBetween(U, from, i)|
    ensures 0 <= idx <= |rows|
    ensures rows[..idx] + RowsOf(i, wraps) + rows[idx..] == before + RowsBetween(U, from, i + 1) + after
    ensures idx + |wraps| == |before| + |RowsBetween(U, from, i + 1)|
  {
    assert RowsBetween(U, from, i + 1) == RowsBetween(U, from, i) + RowsOf(i, wraps);
    InsertBetween(before, RowsBetween(U, from, i), after, RowsOf(i, wraps));
  }

  /** Inserting a block at the end of the middle part of a three-part sequence. */
  lemma InsertBetween(before: seq<Pos>, mid: seq<Pos>, after: seq<Pos>, block: seq<Pos>)
    ensures var s := before + mid + after;
            && |before| + |mid| <= |s|
            && s[..|before| + |mid|] + block + s[|before| + |mid|..] == before + (mid + block) + after
  {
    var s := before + mid + after;
    assert s[..|before| + |mid|] == before + mid;
    assert s[|before| + |mid|..] == after;
  }

  lemma LoopResultIsShow(v: View, from: int, to: int, k: nat, U: seq<LineShape>, rows: seq<Pos>, offsets: seq<nat>)
    requires CanShow(v, from, to) && from <= to
    requires k == LowerBound(v.rows, Pos(from, 0)) && U == Shapes(Unfolded(LayoutOf(v)))
    requires rows == v.rows[..k] + RowsBetween(U, from, to + 1) + v.rows[k..]
    requires offsets == ShowOffsets(U, v.offsets, from, to)
    ensures v.(rows := rows, offsets := offsets) == ShowLines(v, from, to)
  {
  }

  lemma ShowOffsetsStep(U: seq<LineShape>, offsets: seq<nat>, from: nat, i: nat)
    requires from <= i < |U| && i < |offsets|
    ensures ShowOffsets(U, offsets, from, i - 1)[i := U[i].pad] == ShowOffsets(U, offsets, from, i)
  {
  }

  // ---------------------------------------------------------------------
  // Folding and unfolding declared regions
  // ---------------------------------------------------------------------

  /**
    Folding a declared region hides the lines from its key to its end line.
    A one-to-one view may fold whatever its cache holds: the rebuild that
    follows replaces the whole cache.
   */
  predicate CanFold(v: View, key: int) {
    key in v.declared ==> CanHide(v, key, v.declared[key].end.line) || IsOneToOne(v)
  }

  /**
    Folds the region declared at key: hides the lines from key to the
    region's end line and adds the region to the sorted folded list. When
    it is the first folded region and wrapping is off, the view leaves the
    one-to-one mode and the cache is rebuilt. An undeclared key changes
    nothing. In one-to-one mode an unfold or a clear may have dropped the
    cache; the hide's lookups then fall outside it and the hide is skipped,
    since the rebuild replaces its effect.
   */
  function FoldRegion(v: View, key: int): (r: View)
    requires CanFold(v, key)
    ensures key !in v.declared ==> r == v
    ensures key in v.declared ==>
              Sorted(r.folded) && multiset(r.folded) == multiset(v.folded) + multiset{v.declared[key]}
    ensures key in v.declared ==> !IsOneToOne(r)
    ensures r.declared == v.declared && r.doc == v.doc && r.config == v.config
  {
    if key !in v.declared then v
    else
      var region := v.declared[key];
      var h := if CanHide(v, key, region.end.line) then HideLines(v, key, region.end.line) else v;
      var folded := h.(folded := AddFoldedRegion(v.folded, region));
      if |v.folded| == 0 && v.config.mode == NoWrap then Rebuild(folded) else folded
  }

  /** Unfolding a declared region shows the lines from its key to its end line. */
  predicate CanUnfold(v: View, key: int) {
    key in v.declared ==> CanShow(v, key, v.declared[key].end.line)
  }

  /**
    Unfolds the region declared at key: shows the lines from key to the
    region's end line and removes the region from the folded list; if the
    view is then one-to-one, the cache is dropped. The line table is not
    updated. An undeclared key changes nothing.
   */
  function UnfoldRegion(v: View, key: int): (r: View)
    requires CanUnfold(v, key)
    ensures key !in v.declared ==> r == v
    ensures key in v.declared ==> multiset(r.folded) == multiset(v.folded) - multiset{v.declared[key]}
    ensures key in v.declared && IsOneToOne(r) ==> r.rows == [] && r.offsets == [] && r.table == []
    ensures key in v.declared && !IsOneToOne(r) ==> r.table == v.table
    ensures r.declared == v.declared && r.doc == v.doc && r.config == v.config
  {
    if key !in v.declared then v
    else
      var region := v.declared[key];
      var s := ShowLines(v, key, region.end.line);
      var unfolded := s.(folded := RemoveFoldedRegion(v.folded, region));
      if IsOneToOne(unfolded) then ClearCache(unfolded) else unfolded
  }

  // ---------------------------------------------------------------------
  // Rows of a range of lines
  // ---------------------------------------------------------------------

  /** The rows of lines lo .. hi-1 depend only on those lines' shapes. */
  lemma {:induction false} RowsBetweenSame(sh1: seq<LineShape>, sh2: seq<LineShape>, lo: nat, hi: nat)
    requires lo <= hi <= |sh1| && hi <= |sh2|
    requires forall i :: lo <= i < hi ==> sh1[i] == sh2[i]
    ensures RowsBetween(sh1, lo, hi) == RowsBetween(sh2, lo, hi)
    decreases hi - lo
  {
    if lo < hi {
      RowsBetweenSame(sh1, sh2, lo, hi - 1);
    }
  }

  /** Folded lines contribute no rows. */
  lemma {:induction false} RowsBetweenFolded(sh: seq<LineShape>, lo: nat, hi: nat)
    requires lo <= hi <= |sh|
    requires forall i :: lo <= i < hi ==> sh[i].folded
    ensures RowsBetween(sh, lo, hi) == []
    decreases hi - lo
  {
    if lo < hi {
      RowsBetweenFolded(sh, lo, hi - 1);
    }
  }

  /** The shapes sh2 agree with sh outside lines s .. e. */
  ghost predicate SameOutside(sh: seq<LineShape>, sh2: seq<LineShape>, s: nat, e: nat) {
    |sh2| == |sh| && forall i :: 0 <= i < |sh| && !(s <= i <= e) ==> sh2[i] == sh[i]
  }

  /** The rows of lines 0 .. N-1 around lines s .. e: before, within and after. */
  lemma RowsAround(sh: seq<LineShape>, s: nat, e: nat)
    requires s <= e < |sh|
    ensures RowsBetween(sh, 0, |sh|) == RowsBetween(sh, 0, s) + RowsBetween(sh, s, e + 1) + RowsBetween(sh, e + 1, |sh|)
    ensures |RowsBetween(sh, 0, e + 1)| == |RowsBetween(sh, 0, s)| + |RowsBetween(sh, s, e + 1)|
  {
    RowsBetweenSplit(sh, 0, s, e + 1);
    RowsBetweenSplit(sh, 0, e + 1, |sh|);
  }

  // ---------------------------------------------------------------------
  // Hiding keeps the cache consistent
  // ---------------------------------------------------------------------

  /**
    Where a hide of lines s .. e erases rows: from the first row of s to
    the last row of e, which in a matching cache is the span of rows of
    lines s .. e.
   */
  lemma HideBounds(v: View, sh: seq<LineShape>, s: nat, e: nat)
    requires ShapesOk(sh) && CacheMatches(sh, v.rows, v.offsets, v.table)
    requires s <= e < |sh| && !sh[s].folded && !sh[e].folded
    requires IsOneToOne(v) ==> v.table[s] == At(s) && v.table[e] == At(e) && |sh[e].wraps| == 1
    ensures CanHide(v, s, e)
    ensures ToVisibleIndex(v, s, false).index == |RowsBetween(sh, 0, s)|
    ensures ToVisibleIndex(v, e, true).index + 1 == |RowsBetween(sh, 0, e + 1)|
  {
    BlockFacts(sh, v.rows, s);
    BlockFacts(sh, v.rows, e);
    NextLine(sh, e);
    RowsBetweenGrows(sh, 0, s, e);
  }

  /** Lengths add up when a range of lines is split. */
  lemma SplitLength(sh: seq<LineShape>, a: nat, b: nat, c: nat)
    requires a <= b <= c <= |sh|
    ensures |RowsBetween(sh, a, c)| == |RowsBetween(sh, a, b)| + |RowsBetween(sh, b, c)|
  {
    RowsBetweenSplit(sh, a, b, c);
  }

  /** The number of rows above line i, counted before, within and after lines s .. e. */
  lemma SplitLength3(sh: seq<LineShape>, s: nat, e: nat, i: nat)
    requires s <= e < i <= |sh|
    ensures |RowsBetween(sh, 0, i)| == |RowsBetween(sh, 0, s)| + |RowsBetween(sh, s, e + 1)| + |RowsBetween(sh, e + 1, i)|
  {
    SplitLength(sh, 0, s, i);
    SplitLength(sh, s, e + 1, i);
    AddThree(|RowsBetween(sh, 0, i)|, |RowsBetween(sh, 0, s)|, |RowsBetween(sh, s, i)|, |RowsBetween(sh, s, e + 1)|, |RowsBetween(sh, e + 1, i)|);
  }

  lemma AddThree(x: int, a: int, y: int, b: int, c: int)
    requires x == a + y && y == b + c
    ensures x == a + b + c
  {
  }

  /** The number of rows of lines lo .. hi-1 depends only on those lines' shapes. */
  lemma RowCountSame(sh1: seq<LineShape>, sh2: seq<LineShape>, lo: nat, hi: nat)
    requires lo <= hi <= |sh1| && hi <= |sh2|
    requires forall i :: lo <= i < hi ==> sh1[i] == sh2[i]
    ensures |RowsBetween(sh1, lo, hi)| == |RowsBetween(sh2, lo, hi)|
  {
    RowsBetweenSame(sh1, sh2, lo, hi);
  }

  /** Row counts around lines s .. e when only those lines changed and they are now folded. */
  lemma FoldedCounts(sh: seq<LineShape>, sh2: seq<LineShape>, s: nat, e: nat, i: nat)
    requires s <= e < i <= |sh|
    requires SameOutside(sh, sh2, s, e) && forall j :: s <= j <= e ==> sh2[j].folded
    ensures |RowsBetween(sh2, 0, s)| == |RowsBetween(sh, 0, s)|
    ensures |RowsBetween(sh2, s, e + 1)| == 0
    ensures |RowsBetween(sh2, e + 1, i)| == |RowsBetween(sh, e + 1, i)|
  {
    CountPrefix(sh, sh2, s, e);
    FoldedMiddle(sh, sh2, s, e);
    CountAfter(sh, sh2, s, e, i);
  }

  lemma CountPrefix(sh: seq<LineShape>, sh2: seq<LineShape>, s: nat, e: nat)
    requires s <= e < |sh| && SameOutside(sh, sh2, s, e)
    ensures |RowsBetween(sh2, 0, s)| == |RowsBetween(sh, 0, s)|
  {
    RowCountSame(sh, sh2, 0, s);
  }

  lemma CountAfter(sh: seq<LineShape>, sh2: seq<LineShape>, s: nat, e: nat, i: nat)
    requires s <= e < i <= |sh| && SameOutside(sh, sh2, s, e)
    ensures |RowsBetween(sh2, e + 1, i)| == |RowsBetween(sh, e + 1, i)|
  {
    RowCountSame(sh, sh2, e + 1, i);
  }

  /** The rows above a line after lines s .. e, once lines s .. e are folded. */
  lemma RowsAboveAfterFold(sh: seq<LineShape>, sh2: seq<LineShape>, s: nat, e: nat, i: nat)
    requires s <= e < i <= |sh| && |sh2| == |sh|
    requires |RowsBetween(sh2, 0, s)| == |RowsBetween(sh, 0, s)|
    requires |RowsBetween(sh2, s, e + 1)| == 0
    requires |RowsBetween(sh2, e + 1, i)| == |RowsBetween(sh, e + 1, i)|
    ensures |RowsBetween(sh2, 0, i)| + |RowsBetween(sh, s, e + 1)| == |RowsBetween(sh, 0, i)|
  {
    SplitLength3(sh, s, e, i);
    SplitLength3(sh2, s, e, i);
  }

  /** The table entry of line i after lines s .. e fold. */
  lemma HideEntry(sh: seq<LineShape>, sh2: seq<LineShape>, s: nat, e: nat, i: nat)
    requires s <= e < |sh| && i < |sh|
    requires SameOutside(sh, sh2, s, e) && forall j :: s <= j <= e ==> sh2[j].folded
    ensures var erased := |RowsBetween(sh, s, e + 1)|;
            ExpectedSlot(sh2, i)
            == if i < s then ExpectedSlot(sh, i) else if i <= e then Hidden else ShiftSlot(ExpectedSlot(sh, i), -erased)
  {
    if i < s {
      HideEntryBefore(sh, sh2, s, e, i);
    } else if e < i {
      HideEntryAfter(sh, sh2, s, e, i);
    }
  }

  /** Line i before lines s .. e keeps its entry when those are folded. */
  lemma HideEntryBefore(sh: seq<LineShape>, sh2: seq<LineShape>, s: nat, e: nat, i: nat)
    requires i < s <= e < |sh|
    requires SameOutside(sh, sh2, s, e)
    ensures ExpectedSlot(sh2, i) == ExpectedSlot(sh, i)
  {
    RowCountSame(sh, sh2, 0, i);
  }

  /** The rows before, within and after lines s .. e once only those lines changed and are folded. */
  lemma FoldedParts(sh: seq<LineShape>, sh2: seq<LineShape>, s: nat, e: nat)
    requires s <= e < |sh|
    requires SameOutside(sh, sh2, s, e) && forall j :: s <= j <= e ==> sh2[j].folded
    ensures RowsBetween(sh2, 0, s) == RowsBetween(sh, 0, s)
    ensures RowsBetween(sh2, s, e + 1) == []
    ensures RowsBetween(sh2, e + 1, |sh|) == RowsBetween(sh, e + 1, |sh|)
  {
    FoldedPrefix(sh, sh2, s, e);
    FoldedMiddle(sh, sh2, s, e);
    FoldedSuffix(sh, sh2, s, e);
  }

  lemma FoldedPrefix(sh: seq<LineShape>, sh2: seq<LineShape>, s: nat, e: nat)
    requires s <= e < |sh| && SameOutside(sh, sh2, s, e)
    ensures RowsBetween(sh2, 0, s) == RowsBetween(sh, 0, s)
  {
    RowsBetweenSame(sh, sh2, 0, s);
  }

  lemma FoldedMiddle(sh: seq<LineShape>, sh2: seq<LineShape>, s: nat, e: nat)
    requires s <= e < |sh| && |sh2| == |sh| && forall j :: s <= j <= e ==> sh2[j].folded
    ensures RowsBetween(sh2, s, e + 1) == []
  {
    RowsBetweenFolded(sh2, s, e + 1);
  }

  lemma FoldedSuffix(sh: seq<LineShape>, sh2: seq<LineShape>, s: nat, e: nat)
    requires s <= e < |sh| && SameOutside(sh, sh2, s, e)
    ensures RowsBetween(sh2, e + 1, |sh|) == RowsBetween(sh, e + 1, |sh|)
  {
    RowsBetweenSame(sh, sh2, e + 1, |sh|);
  }

  /** The rows once lines s .. e are folded: those of the other lines, with the span of s .. e cut out. */
  lemma HideRows(sh: seq<LineShape>, sh2: seq<LineShape>, s: nat, e: nat)
    requires s <= e < |sh| && |sh2| == |sh|
    requires RowsBetween(sh2, 0, s) == RowsBetween(sh, 0, s)
    requires RowsBetween(sh2, s, e + 1) == []
    requires RowsBetween(sh2, e + 1, |sh|) == RowsBetween(sh, e + 1, |sh|)
    ensures var rows := RowsBetween(sh, 0, |sh|);
            var lo := |RowsBetween(sh, 0, s)|;
            var hi := |RowsBetween(sh, 0, e + 1)|;
            && lo <= hi <= |rows|
            && RowsBetween(sh2, 0, |sh|) == rows[..lo] + rows[hi..]
  {
    var N := |sh|;
    RowsAround(sh, s, e);
    RowsAround(sh2, s, e);
    CutSpan(RowsBetween(sh, 0, N), RowsBetween(sh2, 0, N),
            RowsBetween(sh, 0, s), RowsBetween(sh, s, e + 1), RowsBetween(sh, e + 1, N), RowsBetween(sh2, s, e + 1));
  }

  /** Cutting the middle part out of a three-part sequence. */
  lemma CutSpan(r: seq<Pos>, r2: seq<Pos>, a: seq<Pos>, m: seq<Pos>, c: seq<Pos>, empty: seq<Pos>)
    requires r == a + m + c && r2 == a + empty + c && empty == []
    ensures |a| + |m| <= |r| && r2 == r[..|a|] + r[|a| + |m|..]
  {
    assert r[..|a|] == a;
    assert r[|a| + |m|..] == c;
  }

  /** The table once lines s .. e are folded: the old entries, hidden over s .. e and moved up after. */
  lemma HideTableMatches(sh: seq<LineShape>, sh2: seq<LineShape>, table: seq<Slot>, s: nat, e: nat)
    requires s <= e < |sh| && |table| == |sh|
    requires forall i :: 0 <= i < |sh| ==> table[i] == ExpectedSlot(sh, i)
    requires SameOutside(sh, sh2, s, e) && forall j :: s <= j <= e ==> sh2[j].folded
    ensures forall i :: 0 <= i < |sh| ==> HideTable(table, s, e, |RowsBetween(sh, s, e + 1)|)[i] == ExpectedSlot(sh2, i)
  {
    forall i | 0 <= i < |sh| ensures HideTable(table, s, e, |RowsBetween(sh, s, e + 1)|)[i] == ExpectedSlot(sh2, i) {
      HideEntry(sh, sh2, s, e, i);
    }
  }

  /**
    Erasing the rows of lines s .. e from a cache that matches sh, marking
    the lines Hidden and moving later entries up gives the cache that
    matches sh2, the shapes with lines s .. e folded.
   */
  lemma HideMatches(sh: seq<LineShape>, sh2: seq<LineShape>, rows: seq<Pos>, offsets: seq<nat>, table: seq<Slot>,
                    s: nat, e: nat, lo: nat, hi: nat)
    requires CacheMatches(sh, rows, offsets, table)
    requires s <= e < |sh|
    requires SameOutside(sh, sh2, s, e) && forall j :: s <= j <= e ==> sh2[j].folded
    requires lo == |RowsBetween(sh, 0, s)| && hi == |RowsBetween(sh, 0, e + 1)|
    ensures lo <= hi <= |rows|
    ensures CacheMatches(sh2, rows[..lo] + rows[hi..], offsets, HideTable(table, s, e, hi - lo))
  {
    HideRowsCut(sh, sh2, rows, s, e, lo, hi);
    HideTableCut(sh, sh2, table, s, e, lo, hi);
    FoldedOffsets(sh, sh2, offsets, s, e);
    MatchesFromParts(sh2, rows[..lo] + rows[hi..], offsets, HideTable(table, s, e, hi - lo));
  }

  lemma HideRowsCut(sh: seq<LineShape>, sh2: seq<LineShape>, rows: seq<Pos>, s: nat, e: nat, lo: nat, hi: nat)
    requires rows == RowsBetween(sh, 0, |sh|)
    requires s <= e < |sh|
    requires SameOutside(sh, sh2, s, e) && forall j :: s <= j <= e ==> sh2[j].folded
    requires lo == |RowsBetween(sh, 0, s)| && hi == |RowsBetween(sh, 0, e + 1)|
    ensures lo <= hi <= |rows| && rows[..lo] + rows[hi..] == RowsBetween(sh2, 0, |sh2|)
  {
    FoldedParts(sh, sh2, s, e);
    HideRows(sh, sh2, s, e);
  }

  lemma HideTableCut(sh: seq<LineShape>, sh2: seq<LineShape>, table: seq<Slot>, s: nat, e: nat, lo: nat, hi: nat)
    requires s <= e < |sh| && |table| == |sh|
    requires forall i :: 0 <= i < |sh| ==> table[i] == ExpectedSlot(sh, i)
    requires SameOutside(sh, sh2, s, e) && forall j :: s <= j <= e ==> sh2[j].folded
    requires lo == |RowsBetween(sh, 0, s)| && hi == |RowsBetween(sh, 0, e + 1)|
    ensures |HideTable(table, s, e, hi - lo)| == |sh2|
    ensures forall i :: 0 <= i < |sh2| ==> HideTable(table, s, e, hi - lo)[i] == ExpectedSlot(sh2, i)
  {
    SplitLength(sh, 0, s, e + 1);
    HideTableMatches(sh, sh2, table, s, e);
  }

  /** The paddings of the lines still visible after lines s .. e fold are those they had. */
  lemma FoldedOffsets(sh: seq<LineShape>, sh2: seq<LineShape>, offsets: seq<nat>, s: nat, e: nat)
    requires |offsets| == |sh| && forall i :: 0 <= i < |sh| && !sh[i].folded ==> offsets[i] == sh[i].pad
    requires s <= e < |sh|
    requires SameOutside(sh, sh2, s, e) && forall j :: s <= j <= e ==> sh2[j].folded
    ensures forall i :: 0 <= i < |sh2| && !sh2[i].folded ==> offsets[i] == sh2[i].pad
  {
  }

  /** A cache matches the shapes when each of its parts does. */
  lemma MatchesFromParts(sh: seq<LineShape>, rows: seq<Pos>, offsets: seq<nat>, table: seq<Slot>)
    requires rows == RowsBetween(sh, 0, |sh|) && |offsets| == |sh| && |table| == |sh|
    requires forall i :: 0 <= i < |sh| && !sh[i].folded ==> offsets[i] == sh[i].pad
    requires forall i :: 0 <= i < |sh| ==> table[i] == ExpectedSlot(sh, i)
    ensures CacheMatches(sh, rows, offsets, table)
  {
  }

  /** The shapes after folding lines s .. e on top of the folds already there. */
  lemma ShapesAfterFold(lay: Layout, folded: seq<TextRange>, s: nat, e: nat)
    requires forall i :: IsFolded(folded, i) <==> IsFolded(lay.folded, i) || s <= i <= e
    ensures SameOutside(Shapes(lay), Shapes(lay.(folded := folded)), s, e)
    ensures forall i :: s <= i <= e && i < LineCount(lay) ==> Shapes(lay.(folded := folded))[i].folded
  {
    var lay2 := lay.(folded := folded);
    forall i | 0 <= i < LineCount(lay)
      ensures !(s <= i <= e) ==> Shapes(lay2)[i] == Shapes(lay)[i]
      ensures s <= i <= e ==> Shapes(lay2)[i].folded
    {
      ShapesAt(lay, i);
      ShapesAt(lay2, i);
      assert LineInfo(lay2, i) == LineInfo(lay, i);
    }
  }

  /** The lines hidden after adding a region that spans lines s .. e. */
  lemma FoldedAfterAdd(folded: seq<TextRange>, region: TextRange, s: int, e: int)
    requires region.start.line == s && region.end.line == e
    ensures forall i :: IsFolded(AddFoldedRegion(folded, region), i) <==> IsFolded(folded, i) || s <= i <= e
  {
    forall i ensures IsFolded(AddFoldedRegion(folded, region), i) <==> IsFolded(folded, i) || s <= i <= e {
      IsFoldedAfterAdd(folded, region, i);
    }
  }

  /** The parts of HideLines, named by the bounds of the rows it cuts. */
  lemma HideLinesParts(v: View, s: int, e: int, lo: int, hi: int)
    requires CanHide(v, s, e)
    requires lo == ToVisibleIndex(v, s, false).index && hi == ToVisibleIndex(v, e, true).index + 1
    ensures HideLines(v, s, e).rows == v.rows[..lo] + v.rows[hi..]
    ensures HideLines(v, s, e).table == HideTable(v.table, s, e, hi - lo)
    ensures HideLines(v, s, e).offsets == v.offsets
  {
  }

  /** Hiding lines s .. e of a cache that matches sh yields the cache matching sh2. */
  lemma HideLinesMatches(v: View, sh: seq<LineShape>, sh2: seq<LineShape>, s: nat, e: nat)
    requires ShapesOk(sh) && CacheMatches(sh, v.rows, v.offsets, v.table)
    requires s <= e < |sh| && !sh[s].folded && !sh[e].folded
    requires IsOneToOne(v) ==> v.table[s] == At(s) && v.table[e] == At(e) && |sh[e].wraps| == 1
    requires SameOutside(sh, sh2, s, e) && forall j :: s <= j <= e ==> sh2[j].folded
    ensures CanHide(v, s, e)
    ensures var h := HideLines(v, s, e); CacheMatches(sh2, h.rows, h.offsets, h.table)
  {
    HideBounds(v, sh, s, e);
    var lo := |RowsBetween(sh, 0, s)|;
    var hi := |RowsBetween(sh, 0, e + 1)|;
    HideMatches(sh, sh2, v.rows, v.offsets, v.table, s, e, lo, hi);
    HideLinesParts(v, s, e, lo, hi);
    var h := HideLines(v, s, e);
    MatchesSameCache(sh2, v.rows[..lo] + v.rows[hi..], v.offsets, HideTable(v.table, s, e, hi - lo), h.rows, h.offsets, h.table);
  }

  lemma MatchesSameCache(sh: seq<LineShape>, rows: seq<Pos>, offsets: seq<nat>, table: seq<Slot>,
                         rows2: seq<Pos>, offsets2: seq<nat>, table2: seq<Slot>)
    requires CacheMatches(sh, rows, offsets, table)
    requires rows2 == rows && offsets2 == offsets && table2 == table
    ensures CacheMatches(sh, rows2, offsets2, table2)
  {
  }

  /** A rebuild keeps a consistent cache consistent. */
  lemma RebuildKeepsConsistent(v: View)
    requires Consistent(v)
    ensures Consistent(Rebuild(v))
  {
  }

  /**
    Folding a declared region whose key is its start line, and whose first
    and last lines are visible, keeps the cache consistent with the new
    folded list: the region's lines lose their rows and become Hidden, and
    the rest of the cache moves up.
   */
  lemma FoldKeepsConsistent(v: View, key: int)
    requires Consistent(v) && key in v.declared
    requires var e := v.declared[key].end.line;
             && v.declared[key].start.line == key
             && 0 <= key <= e < |v.doc.value.lines|
             && !IsFolded(v.folded, key) && !IsFolded(v.folded, e)
    ensures CanFold(v, key)
    ensures Consistent(FoldRegion(v, key))
    ensures forall i :: IsFolded(FoldRegion(v, key).folded, i) <==> IsFolded(v.folded, i) || key <= i <= v.declared[key].end.line
  {
    var region := v.declared[key];
    var e := region.end.line;
    var lay := LayoutOf(v);
    ShapesAreOk(lay);
    UnfoldedShape(lay, key);
    UnfoldedShape(lay, e);
    if IsOneToOne(v) {
      OneToOneCacheIsIdentity(v);
    }
    var folded := AddFoldedRegion(v.folded, region);
    FoldedAfterAdd(v.folded, region, key, e);
    ShapesAfterFold(lay, folded, key, e);
    HideLinesMatches(v, Shapes(lay), Shapes(lay.(folded := folded)), key, e);
    var h := HideLines(v, key, e).(folded := folded);
    assert LayoutOf(h) == lay.(folded := folded);
    if |v.folded| == 0 && v.config.mode == NoWrap {
      RebuildKeepsConsistent(h);
    }
  }

  /**
    Folding a region of a one-to-one view rebuilds the cache whatever the
    cache held, even an empty one: the result is consistent with the new
    folded list, which hides exactly the region's lines.
   */
  lemma FoldOneToOneIsConsistent(v: View, key: int)
    requires IsOneToOne(v) && Ready(v) && key in v.declared
    requires v.declared[key].start.line == key
    ensures CanFold(v, key)
    ensures var f := FoldRegion(v, key);
            && Consistent(f) && !IsOneToOne(f) && !f.pending
            && forall i :: IsFolded(f.folded, i) <==> key <= i <= v.declared[key].end.line
  {
    var region := v.declared[key];
    FoldedAfterAdd(v.folded, region, key, region.end.line);
    assert forall i :: !IsFolded(v.folded, i);
  }

  /**
    The source's hide after an unfold that left the view one-to-one: the
    unfold dropped the rows and the line table, so the span of rows the
    fold erases and the table entries it writes lie past their ends.
   */
  lemma RefoldHidesOutOfRange(v: View, key: int)
    requires CanUnfold(v, key) && key in v.declared
    requires 0 <= key <= v.declared[key].end.line
    requires IsOneToOne(UnfoldRegion(v, key))
    ensures var u := UnfoldRegion(v, key);
            && u.rows == [] && u.table == []
            && |u.rows| < v.declared[key].end.line + 1 && |u.table| <= key
            && !CanHide(u, key, v.declared[key].end.line)
  {
  }

  /**
    Folding a region again after unfolding it left the view one-to-one
    gives a consistent view that hides exactly the region's lines.
   */
  lemma RefoldAfterUnfoldIsConsistent(v: View, key: int)
    requires CanUnfold(v, key) && key in v.declared && Ready(v)
    requires v.declared[key].start.line == key
    requires IsOneToOne(UnfoldRegion(v, key))
    ensures CanFold(UnfoldRegion(v, key), key)
    ensures var f := FoldRegion(UnfoldRegion(v, key), key);
            && Consistent(f) && !IsOneToOne(f)
            && forall i :: IsFolded(f.folded, i) <==> key <= i <= v.declared[key].end.line
  {
    var u := UnfoldRegion(v, key);
    assert u.maxWidth == v.maxWidth;
    FoldOneToOneIsConsistent(u, key);
  }

  // ---------------------------------------------------------------------
  // Unfolding leaves the line table stale
  // ---------------------------------------------------------------------

  /** The table entry of a line that a layout folds is Hidden in a consistent cache. */
  lemma FoldedLineIsHidden(v: View, l: nat)
    requires Consistent(v) && l < |v.doc.value.lines| && IsFolded(v.folded, l)
    ensures l < |v.table| && v.table[l] == Hidden
  {
    ShapesAt(LayoutOf(v), l);
  }

  /** The table entry of a line that a layout does not fold is never Hidden in a consistent cache. */
  lemma VisibleLineIsPlaced(v: View, l: nat)
    requires Consistent(v) && l < |v.doc.value.lines| && !IsFolded(v.folded, l)
    ensures l < |v.table| && v.table[l].At?
  {
    UnfoldedShape(LayoutOf(v), l);
  }

  /** On a consistent cache a line is visible exactly when no folded region hides it. */
  lemma LineVisibleIffUnfolded(v: View, l: nat)
    requires Consistent(v) && l < |v.doc.value.lines|
    ensures l < |v.table|
    ensures IsLineVisible(v, l) <==> !IsFolded(v.folded, l)
  {
    if IsFolded(v.folded, l) {
      FoldedLineIsHidden(v, l);
    } else {
      VisibleLineIsPlaced(v, l);
    }
  }

  /**
    Folding a region and unfolding it again, with the view not one-to-one
    afterwards, leaves the region's first line Hidden in the line table
    although no folded region covers it any more: the cache no longer
    agrees with the layout.
   */
  lemma UnfoldLeavesTableStale(v: View, key: int)
    requires Consistent(v) && key in v.declared && !IsOneToOne(v)
    requires var e := v.declared[key].end.line;
             && v.declared[key].start.line == key
             && 0 <= key <= e < |v.doc.value.lines|
             && !IsFolded(v.folded, key) && !IsFolded(v.folded, e)
    ensures CanFold(v, key) && CanUnfold(FoldRegion(v, key), key)
    ensures var u := UnfoldRegion(FoldRegion(v, key), key);
            && key < |u.table| && u.table[key] == Hidden
            && !IsFolded(u.folded, key)
            && !Consistent(u)
  {
    FoldKeepsConsistent(v, key);
    StaleAfterUnfold(FoldRegion(v, key), key, v.folded);
  }

  /** Unfolding a folded region whose first line was visible before it was folded. */
  lemma StaleAfterUnfold(f: View, key: int, before: seq<TextRange>)
    requires Consistent(f) && key in f.declared
    requires 0 <= key <= f.declared[key].end.line < |f.doc.value.lines|
    requires IsFolded(f.folded, key) && !IsFolded(before, key)
    requires multiset(f.folded) == multiset(before) + multiset{f.declared[key]}
    requires f.config.mode != NoWrap || |before| > 0
    ensures CanUnfold(f, key)
    ensures var u := UnfoldRegion(f, key);
            && key < |u.table| && u.table[key] == Hidden
            && !IsFolded(u.folded, key)
            && !Consistent(u)
  {
    FoldedLineIsHidden(f, key);
    var u := UnfoldRegion(f, key);
    assert multiset(u.folded) == multiset(before);
    IsFoldedOnlyNeedsElements(u.folded, before, key);
    assert |u.folded| == |before|;
    if Consistent(u) {
      VisibleLineIsPlaced(u, key);
      assert false;
    }
  }

  // ---------------------------------------------------------------------
  // Showing lines with the line table kept up to date
  // ---------------------------------------------------------------------

  /**
    The line table once the rows of lines from .. to, taken from the
    unfolded shapes U, are inserted at row k: the shown lines start at k
    and continue after each other's rows, and every later placed line
    moves down by the number of rows inserted.
   */
  function ShowTable(table: seq<Slot>, from: nat, to: nat, k: nat, U: seq<LineShape>): (r: seq<Slot>)
    requires from <= to < |U|
    ensures |r| == |table|
    ensures forall i :: 0 <= i < |table| && i < from ==> r[i] == table[i]
    ensures forall i :: from <= i <= to && i < |table| ==> r[i].At? && k <= r[i].index
    ensures forall i :: to < i < |table| ==> (r[i].At? <==> table[i].At?)
  {
    seq(|table|, i requires 0 <= i < |table| =>
      if i < from then table[i]
      else if i <= to then At(k + |RowsBetween(U, from, i)|)
      else ShiftSlot(table[i], |RowsBetween(U, from, to + 1)|))
  }

  /** The first index of a two-part sequence whose first part lies wholly before p and second part does not start before p. */
  lemma LowerBoundOfParts(rows: seq<Pos>, a: seq<Pos>, c: seq<Pos>, p: Pos)
    requires rows == a + c
    requires forall j :: 0 <= j < |a| ==> PosLess(a[j], p)
    requires |c| > 0 ==> !PosLess(c[0], p)
    ensures LowerBound(rows, p) == |a|
  {
    LowerBoundUnique(rows, p, |a|);
  }

  /** The rows of lines lo .. hi-1 all lie on lines before p's line when hi <= p.line. */
  lemma RowsBefore(sh: seq<LineShape>, lo: nat, hi: nat, p: Pos)
    requires lo <= hi <= |sh| && hi <= p.line
    ensures forall j :: 0 <= j < |RowsBetween(sh, lo, hi)| ==> PosLess(RowsBetween(sh, lo, hi)[j], p)
  {
    forall j | 0 <= j < |RowsBetween(sh, lo, hi)| ensures PosLess(RowsBetween(sh, lo, hi)[j], p) {
      RowsBetweenIndex(sh, lo, hi, j);
    }
  }

  /** In a cache matching sh2, where lines s .. e are folded, the row (s, 0) belongs right after the rows of lines before s. */
  lemma ShowBound(sh: seq<LineShape>, sh2: seq<LineShape>, rows: seq<Pos>, s: nat, e: nat)
    requires rows == RowsBetween(sh2, 0, |sh2|)
    requires s <= e < |sh|
    requires SameOutside(sh, sh2, s, e) && forall j :: s <= j <= e ==> sh2[j].folded
    ensures LowerBound(rows, Pos(s, 0)) == |RowsBetween(sh, 0, s)|
  {
    CountPrefix(sh, sh2, s, e);
    FoldedMiddle(sh, sh2, s, e);
    ShowBoundOfParts(sh2, rows, s, e);
  }

  /** Where lines s .. e have no rows, the row (s, 0) belongs right after the rows of the lines before s. */
  lemma ShowBoundOfParts(sh: seq<LineShape>, rows: seq<Pos>, s: nat, e: nat)
    requires s <= e < |sh|
    requires rows == RowsBetween(sh, 0, |sh|) && RowsBetween(sh, s, e + 1) == []
    ensures LowerBound(rows, Pos(s, 0)) == |RowsBetween(sh, 0, s)|
  {
    RowsAround(sh, s, e);
    RowsBefore(sh, 0, s, Pos(s, 0));
    FirstRowLine(sh, e + 1, |sh|);
    BoundOfParts(rows, RowsBetween(sh, 0, s), RowsBetween(sh, s, e + 1), RowsBetween(sh, e + 1, |sh|), Pos(s, 0));
  }

  /** The lower bound of p in a + m + c, with m empty, a all before p and c starting on a later line. */
  lemma BoundOfParts(rows: seq<Pos>, a: seq<Pos>, m: seq<Pos>, c: seq<Pos>, p: Pos)
    requires rows == a + m + c && m == []
    requires forall j :: 0 <= j < |a| ==> PosLess(a[j], p)
    requires |c| > 0 ==> c[0].line > p.line
    ensures LowerBound(rows, p) == |a|
  {
    assert rows == a + c;
    LowerBoundOfParts(rows, a, c, p);
  }

  /** The first row of lines lo .. hi-1, if any, lies on line lo or later. */
  lemma FirstRowLine(sh: seq<LineShape>, lo: nat, hi: nat)
    requires lo <= hi <= |sh|
    ensures |RowsBetween(sh, lo, hi)| > 0 ==> RowsBetween(sh, lo, hi)[0].line >= lo
  {
    if |RowsBetween(sh, lo, hi)| > 0 {
      RowsBetweenIndex(sh, lo, hi, 0);
    }
  }

  /** Putting the middle part back into a three-part sequence whose middle is empty. */
  lemma PutSpan(r2: seq<Pos>, a: seq<Pos>, m: seq<Pos>, c: seq<Pos>, empty: seq<Pos>)
    requires r2 == a + empty + c && empty == []
    ensures |a| <= |r2| && r2[..|a|] + m + r2[|a|..] == a + m + c
  {
    assert r2[..|a|] == a;
    assert r2[|a|..] == c;
  }

  /** Where lines s .. e are folded in sh2 and shown with the shapes of U in sh, inserting their rows at the lower bound gives the rows of sh. */
  lemma ShowRows(sh: seq<LineShape>, sh2: seq<LineShape>, U: seq<LineShape>, rows: seq<Pos>, s: nat, e: nat, k: nat)
    requires rows == RowsBetween(sh2, 0, |sh2|)
    requires s <= e < |sh| && |U| == |sh|
    requires SameOutside(sh, sh2, s, e) && forall j :: s <= j <= e ==> sh2[j].folded
    requires forall j :: s <= j <= e ==> sh[j] == U[j]
    requires k == |RowsBetween(sh, 0, s)|
    ensures k <= |rows| && rows[..k] + RowsBetween(U, s, e + 1) + rows[k..] == RowsBetween(sh, 0, |sh|)
  {
    ShowSpanFacts(sh, sh2, U, s, e);
    ShowRowsOfParts(sh, sh2, U, rows, s, e, k);
  }

  /** The rows around lines s .. e, folded in sh2, and the rows of those lines under the shapes U. */
  lemma ShowSpanFacts(sh: seq<LineShape>, sh2: seq<LineShape>, U: seq<LineShape>, s: nat, e: nat)
    requires s <= e < |sh| && |U| == |sh|
    requires SameOutside(sh, sh2, s, e) && forall j :: s <= j <= e ==> sh2[j].folded
    requires forall j :: s <= j <= e ==> sh[j] == U[j]
    ensures && RowsBetween(sh2, 0, s) == RowsBetween(sh, 0, s)
            && RowsBetween(sh2, s, e + 1) == []
            && RowsBetween(sh2, e + 1, |sh|) == RowsBetween(sh, e + 1, |sh|)
            && RowsBetween(U, s, e + 1) == RowsBetween(sh, s, e + 1)
  {
    FoldedParts(sh, sh2, s, e);
    RowsBetweenSame(sh, U, s, e + 1);
  }

  lemma ShowRowsOfParts(sh: seq<LineShape>, sh2: seq<LineShape>, U: seq<LineShape>, rows: seq<Pos>, s: nat, e: nat, k: nat)
    requires s <= e < |sh| && |sh2| == |sh| && |U| == |sh|
    requires rows == RowsBetween(sh2, 0, |sh2|)
    requires RowsBetween(sh2, 0, s) == RowsBetween(sh, 0, s)
    requires RowsBetween(sh2, s, e + 1) == []
    requires RowsBetween(sh2, e + 1, |sh|) == RowsBetween(sh, e + 1, |sh|)
    requires RowsBetween(U, s, e + 1) == RowsBetween(sh, s, e + 1)
    requires k == |RowsBetween(sh, 0, s)|
    ensures k <= |rows| && rows[..k] + RowsBetween(U, s, e + 1) + rows[k..] == RowsBetween(sh, 0, |sh|)
  {
    var N := |sh|;
    RowsAround(sh, s, e);
    RowsAround(sh2, s, e);
    PutBack(rows, RowsBetween(sh, 0, N),
            RowsBetween(sh2, 0, s), RowsBetween(sh2, s, e + 1), RowsBetween(sh2, e + 1, N),
            RowsBetween(sh, 0, s), RowsBetween(sh, s, e + 1), RowsBetween(sh, e + 1, N),
            RowsBetween(U, s, e + 1), k);
  }

  /** Putting the middle part m back at |a| into a three-part sequence whose middle is empty. */
  lemma PutBack(rows: seq<Pos>, full: seq<Pos>, a2: seq<Pos>, m2: seq<Pos>, c2: seq<Pos>,
                a: seq<Pos>, m: seq<Pos>, c: seq<Pos>, mu: seq<Pos>, k: nat)
    requires rows == a2 + m2 + c2 && full == a + m + c
    requires a2 == a && m2 == [] && c2 == c && mu == m && k == |a|
    ensures k <= |rows| && rows[..k] + mu + rows[k..] == full
  {
    PutSpan(rows, a, m, c, m2);
  }

  lemma ShiftSlotBack(x: Slot, d: int)
    ensures ShiftSlot(ShiftSlot(x, -d), d) == x
  {
  }

  /** The table entry of line i after lines s .. e are shown with the shapes of U. */
  lemma ShowEntry(sh: seq<LineShape>, sh2: seq<LineShape>, U: seq<LineShape>, table: seq<Slot>, s: nat, e: nat, k: nat, i: nat)
    requires s <= e < |sh| && |U| == |sh| && |table| == |sh| && i < |sh|
    requires SameOutside(sh, sh2, s, e) && forall j :: s <= j <= e ==> sh2[j].folded
    requires table[i] == ExpectedSlot(sh2, i)
    requires forall j :: s <= j <= e ==> sh[j] == U[j] && !U[j].folded
    requires k == |RowsBetween(sh, 0, s)|
    ensures ShowTable(table, s, e, k, U)[i] == ExpectedSlot(sh, i)
  {
    if i < s {
      ShowEntryBefore(sh, sh2, U, table, s, e, k, i);
    } else if i <= e {
      ShowEntryInside(sh, U, table, s, e, k, i);
    } else {
      ShowEntryAfter(sh, sh2, U, table, s, e, k, i);
    }
  }

  lemma ShowEntryBefore(sh: seq<LineShape>, sh2: seq<LineShape>, U: seq<LineShape>, table: seq<Slot>, s: nat, e: nat, k: nat, i: nat)
    requires i < s <= e < |sh| && |U| == |sh| && |table| == |sh|
    requires SameOutside(sh, sh2, s, e)
    requires table[i] == ExpectedSlot(sh2, i)
    ensures ShowTable(table, s, e, k, U)[i] == ExpectedSlot(sh, i)
  {
    RowCountSame(sh, sh2, 0, i);
  }

  lemma ShowEntryInside(sh: seq<LineShape>, U: seq<LineShape>, table: seq<Slot>, s: nat, e: nat, k: nat, i: nat)
    requires s <= i <= e < |sh| && |U| == |sh| && |table| == |sh|
    requires forall j :: s <= j <= e ==> sh[j] == U[j] && !U[j].folded
    requires k == |RowsBetween(sh, 0, s)|
    ensures ShowTable(table, s, e, k, U)[i] == ExpectedSlot(sh, i)
  {
    RowCountSame(sh, U, s, i);
    SplitLength(sh, 0, s, i);
  }

  lemma ShowEntryAfter(sh: seq<LineShape>, sh2: seq<LineShape>, U: seq<LineShape>, table: seq<Slot>, s: nat, e: nat, k: nat, i: nat)
    requires s <= e < i < |sh| && |U| == |sh| && |table| == |sh|
    requires SameOutside(sh, sh2, s, e) && forall j :: s <= j <= e ==> sh2[j].folded
    requires table[i] == ExpectedSlot(sh2, i)
    requires forall j :: s <= j <= e ==> sh[j] == U[j] && !U[j].folded
    ensures ShowTable(table, s, e, k, U)[i] == ExpectedSlot(sh, i)
  {
    HideEntryAfter(sh, sh2, s, e, i);
    ShownCount(sh, U, s, e);
    ShiftedBack(table, ExpectedSlot(sh, i), s, e, k, i, U, |RowsBetween(sh, s, e + 1)|);
  }

  /** Lines s .. e have as many rows under the shapes U as under sh. */
  lemma ShownCount(sh: seq<LineShape>, U: seq<LineShape>, s: nat, e: nat)
    requires s <= e < |sh| && |U| == |sh|
    requires forall j :: s <= j <= e ==> sh[j] == U[j] && !U[j].folded
    ensures |RowsBetween(U, s, e + 1)| == |RowsBetween(sh, s, e + 1)|
  {
    RowCountSame(sh, U, s, e + 1);
  }

  /** Line i after lines s .. e, once those are folded, moves up by the rows they had. */
  lemma HideEntryAfter(sh: seq<LineShape>, sh2: seq<LineShape>, s: nat, e: nat, i: nat)
    requires s <= e < i < |sh|
    requires SameOutside(sh, sh2, s, e) && forall j :: s <= j <= e ==> sh2[j].folded
    ensures ExpectedSlot(sh2, i) == ShiftSlot(ExpectedSlot(sh, i), -|RowsBetween(sh, s, e + 1)|)
  {
    CountAfterFold(sh, sh2, s, e, i);
    ShiftedEntry(sh, sh2, s, e, i, |RowsBetween(sh, s, e + 1)|);
  }

  /** Folding lines s .. e removes their rows from the count above a later line i. */
  lemma CountAfterFold(sh: seq<LineShape>, sh2: seq<LineShape>, s: nat, e: nat, i: nat)
    requires s <= e < i < |sh|
    requires SameOutside(sh, sh2, s, e) && forall j :: s <= j <= e ==> sh2[j].folded
    ensures |RowsBetween(sh2, 0, i)| + |RowsBetween(sh, s, e + 1)| == |RowsBetween(sh, 0, i)|
  {
    FoldedCounts(sh, sh2, s, e, i);
    RowsAboveAfterFold(sh, sh2, s, e, i);
  }

  /** The entry of a line i past the changed lines s .. e, which has d fewer rows above it. */
  lemma ShiftedEntry(sh: seq<LineShape>, sh2: seq<LineShape>, s: nat, e: nat, i: nat, d: int)
    requires s <= e < i < |sh| && SameOutside(sh, sh2, s, e)
    requires |RowsBetween(sh2, 0, i)| + d == |RowsBetween(sh, 0, i)|
    ensures ExpectedSlot(sh2, i) == ShiftSlot(ExpectedSlot(sh, i), -d)
  {
    assert sh2[i] == sh[i];
  }

  /** Shifting an entry shifted back by d forward again by the same count restores it. */
  lemma ShiftedBack(table: seq<Slot>, x: Slot, s: nat, e: nat, k: nat, i: nat, U: seq<LineShape>, d: int)
    requires s <= e < i < |table| && e < |U|
    requires table[i] == ShiftSlot(x, -d) && |RowsBetween(U, s, e + 1)| == d
    ensures ShowTable(table, s, e, k, U)[i] == x
  {
    ShiftSlotBack(x, d);
  }

  lemma ShowTableMatches(sh: seq<LineShape>, sh2: seq<LineShape>, U: seq<LineShape>, table: seq<Slot>, s: nat, e: nat, k: nat)
    requires s <= e < |sh| && |U| == |sh| && |table| == |sh|
    requires SameOutside(sh, sh2, s, e) && forall j :: s <= j <= e ==> sh2[j].folded
    requires forall i :: 0 <= i < |sh2| ==> table[i] == ExpectedSlot(sh2, i)
    requires forall j :: s <= j <= e ==> sh[j] == U[j] && !U[j].folded
    requires k == |RowsBetween(sh, 0, s)|
    ensures forall i :: 0 <= i < |sh| ==> ShowTable(table, s, e, k, U)[i] == ExpectedSlot(sh, i)
  {
    forall i | 0 <= i < |sh| ensures ShowTable(table, s, e, k, U)[i] == ExpectedSlot(sh, i) {
      ShowEntry(sh, sh2, U, table, s, e, k, i);
    }
  }

  /** The paddings after lines s .. e are shown: those lines record their own, the others keep theirs. */
  lemma ShownOffsets(sh: seq<LineShape>, sh2: seq<LineShape>, offsets: seq<nat>, offsets2: seq<nat>, s: nat, e: nat)
    requires s <= e < |sh| && |offsets| == |sh2| && |offsets2| == |offsets|
    requires forall i :: 0 <= i < |sh2| && !sh2[i].folded ==> offsets[i] == sh2[i].pad
    requires SameOutside(sh, sh2, s, e)
    requires forall i :: 0 <= i < |offsets| && !(s <= i <= e) ==> offsets2[i] == offsets[i]
    requires forall i :: s <= i <= e ==> offsets2[i] == sh[i].pad
    ensures forall i :: 0 <= i < |sh| && !sh[i].folded ==> offsets2[i] == sh[i].pad
  {
  }

  /**
    Showing lines s .. e, folded in sh2, with the shapes U they have
    unfolded, turns a cache matching sh2 into the cache matching sh,
    provided the line table is updated as ShowTable does.
   */
  lemma ShowMatches(sh: seq<LineShape>, sh2: seq<LineShape>, U: seq<LineShape>,
                    rows: seq<Pos>, offsets: seq<nat>, table: seq<Slot>, offsets2: seq<nat>, s: nat, e: nat, k: nat)
    requires CacheMatches(sh2, rows, offsets, table)
    requires s <= e < |sh| && |U| == |sh|
    requires SameOutside(sh, sh2, s, e) && forall j :: s <= j <= e ==> sh2[j].folded
    requires forall j :: s <= j <= e ==> sh[j] == U[j] && !U[j].folded
    requires k == |RowsBetween(sh, 0, s)|
    requires |offsets2| == |offsets|
    requires forall i :: 0 <= i < |offsets| && !(s <= i <= e) ==> offsets2[i] == offsets[i]
    requires forall i :: s <= i <= e ==> offsets2[i] == sh[i].pad
    ensures k <= |rows|
    ensures CacheMatches(sh, rows[..k] + RowsBetween(U, s, e + 1) + rows[k..], offsets2, ShowTable(table, s, e, k, U))
  {
    ShowRows(sh, sh2, U, rows, s, e, k);
    ShowTableMatches(sh, sh2, U, table, s, e, k);
    ShownOffsets(sh, sh2, offsets, offsets2, s, e);
    MatchesFromParts(sh, rows[..k] + RowsBetween(U, s, e + 1) + rows[k..], offsets2, ShowTable(table, s, e, k, U));
  }

  // ---------------------------------------------------------------------
  // Unfolding with the line table kept up to date
  // ---------------------------------------------------------------------

  /**
    Shows lines from .. to as ShowLines does and also brings the line table
    up to date: the shown lines point at their new rows and every later
    placed line moves down by the number of rows inserted.
   */
  function ShowLinesFixed(v: View, from: int, to: int): (r: View)
    requires CanShow(v, from, to) && (from <= to ==> to < |v.table|)
    ensures from > to ==> r == v
    ensures r.rows == ShowLines(v, from, to).rows && r.offsets == ShowLines(v, from, to).offsets
    ensures r == v.(rows := r.rows, offsets := r.offsets, table := r.table)
    ensures |r.table| == |v.table|
  {
    var s := ShowLines(v, from, to);
    if from > to then s
    else
      var k := LowerBound(v.rows, Pos(from, 0));
      s.(table := ShowTable(v.table, from, to, k, Shapes(Unfolded(LayoutOf(v)))))
  }

  /** Unfolding with the table update also needs the region's lines in the table. */
  predicate CanUnfoldFixed(v: View, key: int) {
    key in v.declared ==> CanShow(v, key, v.declared[key].end.line) && v.declared[key].end.line < |v.table|
  }

  /**
    The evidently intended unfold: as UnfoldRegion, but the lines shown are
    placed in the line table again.
   */
  function UnfoldRegionFixed(v: View, key: int): (r: View)
    requires CanUnfoldFixed(v, key)
    ensures key !in v.declared ==> r == v
    ensures key in v.declared ==> multiset(r.folded) == multiset(v.folded) - multiset{v.declared[key]}
    ensures key in v.declared && IsOneToOne(r) ==> r.rows == [] && r.offsets == [] && r.table == []
    ensures r.declared == v.declared && r.doc == v.doc && r.config == v.config
    ensures r.font == v.font && r.maxWidth == v.maxWidth
  {
    if key !in v.declared then v
    else
      var region := v.declared[key];
      var s := ShowLinesFixed(v, key, region.end.line);
      var unfolded := s.(folded := RemoveFoldedRegion(v.folded, region));
      if IsOneToOne(unfolded) then ClearCache(unfolded) else unfolded
  }

  /** The lines hidden after removing a region over lines s .. e that no other folded region covers. */
  lemma FoldedAfterRemove(folded: seq<TextRange>, region: TextRange, s: int, e: int)
    requires region.start.line == s && region.end.line == e && region in folded
    requires forall i :: s <= i <= e ==> !IsFolded(RemoveFoldedRegion(folded, region), i)
    ensures forall i :: IsFolded(folded, i) <==> IsFolded(RemoveFoldedRegion(folded, region), i) || s <= i <= e
  {
    forall i ensures IsFolded(folded, i) <==> IsFolded(RemoveFoldedRegion(folded, region), i) || s <= i <= e {
      IsFoldedAfterRemove(folded, region, i);
      if s <= i <= e {
        var j :| 0 <= j < |folded| && folded[j] == region;
        assert folded[j].ContainsLine(i);
      }
    }
  }

  /** A line that the new folded list leaves visible has its unfolded shape. */
  lemma ShownLineShape(lay: Layout, folded: seq<TextRange>, j: nat)
    requires j < LineCount(lay) && !IsFolded(folded, j)
    ensures Shapes(lay.(folded := folded))[j] == Shapes(Unfolded(lay))[j]
  {
    ShapesAt(lay.(folded := folded), j);
    assert LineInfo(lay.(folded := folded), j) == LineInfo(lay, j);
    UnfoldedLine(lay, j);
  }

  /** The rows ShowLines produces, as one sequence. */
  lemma ShowLinesRows(v: View, s: int, e: int)
    requires CanShow(v, s, e) && s <= e
    ensures var k := LowerBound(v.rows, Pos(s, 0));
            ShowLines(v, s, e).rows == v.rows[..k] + RowsBetween(Shapes(Unfolded(LayoutOf(v))), s, e + 1) + v.rows[k..]
  {
    var k := LowerBound(v.rows, Pos(s, 0));
    var m := RowsBetween(Shapes(Unfolded(LayoutOf(v))), s, e + 1);
    var r := ShowLines(v, s, e).rows;
    assert r == r[..k] + r[k..k + |m|] + r[k + |m|..];
  }

  /**
    Showing lines s .. e, folded in a consistent view, with the table
    update gives the cache that matches shapes sh in which those lines
    have their unfolded shapes and every other line is as before.
   */
  lemma ShowFixedMatches(v: View, sh: seq<LineShape>, s: nat, e: nat)
    requires Consistent(v) && s <= e < |sh|
    requires SameOutside(sh, Shapes(LayoutOf(v)), s, e) && forall j :: s <= j <= e ==> Shapes(LayoutOf(v))[j].folded
    requires forall j :: s <= j <= e ==> sh[j] == Shapes(Unfolded(LayoutOf(v)))[j]
    ensures CanShow(v, s, e) && e < |v.table|
    ensures var r := ShowLinesFixed(v, s, e); CacheMatches(sh, r.rows, r.offsets, r.table)
  {
    var lay := LayoutOf(v);
    var sh2 := Shapes(lay);
    var U := Shapes(Unfolded(lay));
    forall j | s <= j <= e ensures !U[j].folded {
      UnfoldedLine(lay, j);
    }
    ShowBound(sh, sh2, v.rows, s, e);
    var k := LowerBound(v.rows, Pos(s, 0));
    var offsets2 := ShowOffsets(U, v.offsets, s, e);
    ShowMatches(sh, sh2, U, v.rows, v.offsets, v.table, offsets2, s, e, k);
    ShowLinesRows(v, s, e);
    var r := ShowLinesFixed(v, s, e);
    MatchesSameCache(sh, v.rows[..k] + RowsBetween(U, s, e + 1) + v.rows[k..], offsets2, ShowTable(v.table, s, e, k, U),
                     r.rows, r.offsets, r.table);
  }

  /**
    Unfolding a folded region whose key is its start line, when no other
    folded region covers its lines, keeps the cache consistent with the
    new folded list (unless the view becomes one-to-one and drops its
    cache): the region's lines are shown again and placed in the table.
   */
  lemma UnfoldFixedKeepsConsistent(v: View, key: int)
    requires Consistent(v) && key in v.declared
    requires var region := v.declared[key];
             && region.start.line == key
             && 0 <= key <= region.end.line < |v.doc.value.lines|
             && region in v.folded
             && forall i :: key <= i <= region.end.line ==> !IsFolded(RemoveFoldedRegion(v.folded, region), i)
    ensures CanUnfoldFixed(v, key)
    ensures !IsOneToOne(UnfoldRegionFixed(v, key)) ==> Consistent(UnfoldRegionFixed(v, key))
    ensures forall i :: IsFolded(UnfoldRegionFixed(v, key).folded, i) <==>
                        IsFolded(v.folded, i) && !(key <= i <= v.declared[key].end.line)
  {
    var region := v.declared[key];
    var e := region.end.line;
    var lay := LayoutOf(v);
    var after := RemoveFoldedRegion(v.folded, region);
    var lay2 := lay.(folded := after);
    FoldedAfterRemove(v.folded, region, key, e);
    ShapesAfterFold(lay2, v.folded, key, e);
    assert lay2.(folded := v.folded) == lay;
    forall j | key <= j <= e ensures Shapes(lay2)[j] == Shapes(Unfolded(lay))[j] {
      ShownLineShape(lay, after, j);
    }
    ShowFixedMatches(v, Shapes(lay2), key, e);
    var u := ShowLinesFixed(v, key, e).(folded := after);
    assert LayoutOf(u) == lay2;
  }

  /** Two folded lists that hide the same lines give the same shapes. */
  lemma ShapesSameFolds(lay: Layout, folded: seq<TextRange>)
    requires forall i :: IsFolded(folded, i) <==> IsFolded(lay.folded, i)
    ensures Shapes(lay.(folded := folded)) == Shapes(lay)
  {
    var lay2 := lay.(folded := folded);
    forall i | 0 <= i < LineCount(lay) ensures Shapes(lay2)[i] == Shapes(lay)[i] {
      ShapesAt(lay, i);
      ShapesAt(lay2, i);
      assert LineInfo(lay2, i) == LineInfo(lay, i);
    }
  }

  /** Two caches matching the same shapes hold the same rows and the same line table. */
  lemma MatchingCachesAgree(sh: seq<LineShape>, rows: seq<Pos>, offsets: seq<nat>, table: seq<Slot>,
                            rows2: seq<Pos>, offsets2: seq<nat>, table2: seq<Slot>)
    requires CacheMatches(sh, rows, offsets, table) && CacheMatches(sh, rows2, offsets2, table2)
    ensures rows == rows2 && table == table2
  {
    assert forall i :: 0 <= i < |table| ==> table[i] == table2[i];
  }

  /**
    Folding a region none of whose lines is folded keeps the cache consistent
    and the settings, and removing the region again leaves the lines the
    view had folded before.
   */
  lemma FoldThenRemove(v: View, key: int)
    requires Consistent(v) && key in v.declared
    requires var e := v.declared[key].end.line;
             && v.declared[key].start.line == key
             && 0 <= key <= e < |v.doc.value.lines|
             && forall i :: key <= i <= e ==> !IsFolded(v.folded, i)
    ensures CanFold(v, key)
    ensures var f := FoldRegion(v, key);
            && Consistent(f) && f.font == v.font && f.maxWidth == v.maxWidth
            && v.declared[key] in f.folded
            && (forall i :: IsFolded(f.folded, i) <==> IsFolded(v.folded, i) || key <= i <= v.declared[key].end.line)
            && forall i :: IsFolded(RemoveFoldedRegion(f.folded, v.declared[key]), i) == IsFolded(v.folded, i)
  {
    FoldKeepsConsistent(v, key);
    FoldKeepsSettings(v, key);
    var f := FoldRegion(v, key);
    RemoveAgain(v.folded, f.folded, v.declared[key]);
  }

  /** Folding keeps the font and the width. */
  lemma FoldKeepsSettings(v: View, key: int)
    requires CanFold(v, key)
    ensures FoldRegion(v, key).font == v.font && FoldRegion(v, key).maxWidth == v.maxWidth
  {
  }

  /** Removing a region from a list that gained it hides the lines the list hid before. */
  lemma RemoveAgain(a: seq<TextRange>, b: seq<TextRange>, region: TextRange)
    requires multiset(b) == multiset(a) + multiset{region}
    ensures region in b
    ensures forall i :: IsFolded(RemoveFoldedRegion(b, region), i) == IsFolded(a, i)
  {
    assert region in multiset(b);
    var after := RemoveFoldedRegion(b, region);
    assert multiset(after) == multiset(a);
    forall i ensures IsFolded(after, i) == IsFolded(a, i) {
      IsFoldedOnlyNeedsElements(after, a, i);
    }
  }

  /** Adding lines s .. e, none of them folded in a, to the folds and taking them away again hides what a hides. */
  lemma FoldsComposeBack(a: seq<TextRange>, b: seq<TextRange>, c: seq<TextRange>, s: int, e: int)
    requires forall i :: IsFolded(b, i) <==> IsFolded(a, i) || s <= i <= e
    requires forall i :: IsFolded(c, i) <==> IsFolded(b, i) && !(s <= i <= e)
    requires forall i :: s <= i <= e ==> !IsFolded(a, i)
    ensures forall i :: IsFolded(c, i) <==> IsFolded(a, i)
  {
  }

  /** Two consistent views with the same document, settings and folded lines hold the same rows and line table. */
  lemma SameFoldsSameCache(v: View, u: View)
    requires Consistent(v) && Consistent(u)
    requires u.doc == v.doc && u.font == v.font && u.maxWidth == v.maxWidth && u.config == v.config
    requires forall i :: IsFolded(u.folded, i) <==> IsFolded(v.folded, i)
    ensures u.rows == v.rows && u.table == v.table
  {
    ShapesSameFolds(LayoutOf(v), u.folded);
    assert LayoutOf(u) == LayoutOf(v).(folded := u.folded);
    MatchingCachesAgree(Shapes(LayoutOf(v)), u.rows, u.offsets, u.table, v.rows, v.offsets, v.table);
  }

  /**
    With the table update, folding a region none of whose lines is folded
    and unfolding it again gives back the rows and the line table the view
    had (unless the view ends one-to-one and drops its cache), and a
    consistent cache.
   */
  lemma FoldThenUnfoldFixedRestores(v: View, key: int)
    requires Consistent(v) && key in v.declared
    requires var e := v.declared[key].end.line;
             && v.declared[key].start.line == key
             && 0 <= key <= e < |v.doc.value.lines|
             && forall i :: key <= i <= e ==> !IsFolded(v.folded, i)
    ensures CanFold(v, key) && CanUnfoldFixed(FoldRegion(v, key), key)
    ensures var u := UnfoldRegionFixed(FoldRegion(v, key), key);
            !IsOneToOne(u) ==> Consistent(u) && u.rows == v.rows && u.table == v.table
  {
    FoldThenRemove(v, key);
    var f := FoldRegion(v, key);
    UnfoldFixedKeepsConsistent(f, key);
    var u := UnfoldRegionFixed(f, key);
    FoldsComposeBack(v.folded, f.folded, u.folded, key, v.declared[key].end.line);
    if !IsOneToOne(u) {
      SameFoldsSameCache(v, u);
    }
  }
}
