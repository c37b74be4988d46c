/**
  The fold tracker of the editor view: the declared fold regions, keyed by
  the line they were declared at, and the list of regions that are
  currently folded, kept sorted.
 */
module Folding {
  import opened Common

  // ---------------------------------------------------------------------
  // Folded lines
  // ---------------------------------------------------------------------

  /** True iff some currently folded region contains the line (a scan over the folded list). */
  function IsFolded(folded: seq<TextRange>, line: int): (r: bool)
    ensures r <==> exists i :: 0 <= i < |folded| && folded[i].ContainsLine(line)
  {
    if |folded| == 0 then false
    else folded[0].ContainsLine(line) || IsFolded(folded[1..], line)
  }

  /** Two folded lists hide the same lines when they hold the same regions. */
  lemma IsFoldedOnlyNeedsElements(a: seq<TextRange>, b: seq<TextRange>, line: int)
    requires multiset(a) == multiset(b)
    ensures IsFolded(a, line) == IsFolded(b, line)
  {
    if IsFolded(a, line) {
      var i :| 0 <= i < |a| && a[i].ContainsLine(line);
      assert a[i] in multiset(b);
    }
    if IsFolded(b, line) {
      var i :| 0 <= i < |b| && b[i].ContainsLine(line);
      assert b[i] in multiset(a);
    }
  }

  // ---------------------------------------------------------------------
  // Declared regions
  // ---------------------------------------------------------------------

  /**
    Declares a fold region: the region is normalized and stored under its
    start line, replacing any region declared at that line.
   */
  function AddFoldRegion(declared: map<int, TextRange>, region: TextRange): (r: map<int, TextRange>)
    ensures r.Keys == declared.Keys + {region.Normalized().start.line}
    ensures r[region.Normalized().start.line] == region.Normalized()
    ensures forall k :: k in declared && k != region.Normalized().start.line ==> r[k] == declared[k]
  {
    var n := region.Normalized();
    declared[n.start.line := n]
  }

  // ---------------------------------------------------------------------
  // The sorted folded list
  // ---------------------------------------------------------------------

  ghost predicate Sorted(xs: seq<TextRange>) {
    forall i, j :: 0 <= i < j < |xs| ==> RangeLessEq(xs[i], xs[j])
  }

  lemma RangeOrderTotal(a: TextRange, b: TextRange)
    ensures RangeLessEq(a, b) || RangeLessEq(b, a)
  {
  }

  lemma RangeOrderTransitive(a: TextRange, b: TextRange, c: TextRange)
    requires RangeLessEq(a, b) && RangeLessEq(b, c)
    ensures RangeLessEq(a, c)
  {
  }

  /** Inserts a region into a sorted list before the first region it does not follow. */
  function InsertSorted(xs: seq<TextRange>, x: TextRange): (r: seq<TextRange>)
    requires Sorted(xs)
    ensures Sorted(r)
    ensures multiset(r) == multiset(xs) + multiset{x}
    ensures |r| == |xs| + 1
  {
    if |xs| == 0 then [x]
    else if RangeLessEq(x, xs[0]) then
      forall j | 0 <= j < |xs| ensures RangeLessEq(x, xs[j]) {
        RangeOrderTransitive(x, xs[0], xs[j]);
      }
      SortedCons(x, xs);
      [x] + xs
    else
      var rest := InsertSorted(xs[1..], x);
      RangeOrderTotal(x, xs[0]);
      assert xs == [xs[0]] + xs[1..];
      HeadBelowInsert(xs, x, rest);
      SortedCons(xs[0], rest);
      [xs[0]] + rest
  }

  lemma SortedCons(x: TextRange, rest: seq<TextRange>)
    requires Sorted(rest)
    requires forall j :: 0 <= j < |rest| ==> RangeLessEq(x, rest[j])
    ensures Sorted([x] + rest)
  {
    var r := [x] + rest;
    forall i, j | 0 <= i < j < |r| ensures RangeLessEq(r[i], r[j]) {
      if i == 0 {
        assert r[j] == rest[j - 1];
      } else {
        assert r[i] == rest[i - 1] && r[j] == rest[j - 1];
      }
    }
  }

  /** The head of a sorted list is below every element of its tail with a larger region inserted. */
  lemma HeadBelowInsert(xs: seq<TextRange>, x: TextRange, rest: seq<TextRange>)
    requires Sorted(xs) && |xs| > 0
    requires RangeLessEq(xs[0], x)
    requires multiset(rest) == multiset(xs[1..]) + multiset{x}
    ensures forall j :: 0 <= j < |rest| ==> RangeLessEq(xs[0], rest[j])
  {
    forall j | 0 <= j < |rest| ensures RangeLessEq(xs[0], rest[j]) {
      var y := rest[j];
      assert y in multiset(rest);
      if y != x {
        assert y in multiset(xs[1..]);
        var k :| 0 <= k < |xs[1..]| && xs[1..][k] == y;
        assert xs[k + 1] == y;
      }
    }
  }

  /** Sorts a list of regions (insertion sort); the result is an ordered permutation. */
  function SortRegions(xs: seq<TextRange>): (r: seq<TextRange>)
    ensures Sorted(r)
    ensures multiset(r) == multiset(xs)
  {
    if |xs| == 0 then []
    else
      assert xs == xs[..|xs| - 1] + [xs[|xs| - 1]];
      InsertSorted(SortRegions(xs[..|xs| - 1]), xs[|xs| - 1])
  }

  /** Folding a region appends it to the folded list and re-sorts the list. */
  function AddFoldedRegion(folded: seq<TextRange>, region: TextRange): (r: seq<TextRange>)
    ensures Sorted(r)
    ensures multiset(r) == multiset(folded) + multiset{region}
  {
    SortRegions(folded + [region])
  }

  /** The index of the first occurrence of x in xs, or |xs| when there is none. */
  function IndexOf(xs: seq<TextRange>, x: TextRange): (i: nat)
    ensures i <= |xs|
    ensures x !in xs[..i]
    ensures i < |xs| ==> xs[i] == x
  {
    if |xs| == 0 then 0
    else if xs[0] == x then 0
    else
      var i := IndexOf(xs[1..], x);
      assert xs[..i + 1] == [xs[0]] + xs[1..][..i];
      1 + i
  }

  /** Removes the first folded region equal to the given one; nothing happens when there is none. */
  function RemoveFoldedRegion(folded: seq<TextRange>, region: TextRange): (r: seq<TextRange>)
    ensures region !in folded ==> r == folded
    ensures IndexOf(folded, region) < |folded| ==>
              r == folded[..IndexOf(folded, region)] + folded[IndexOf(folded, region) + 1..]
    ensures multiset(r) == multiset(folded) - multiset{region}
  {
    var i := IndexOf(folded, region);
    if i < |folded| then
      assert folded == folded[..i] + [folded[i]] + folded[i + 1..];
      folded[..i] + folded[i + 1..]
    else
      assert folded[..i] == folded;
      folded
  }

  /** Folding a region and then unfolding it leaves the same regions folded. */
  lemma AddThenRemoveRegion(folded: seq<TextRange>, region: TextRange)
    ensures multiset(RemoveFoldedRegion(AddFoldedRegion(folded, region), region)) == multiset(folded)
  {
  }

  /** Folding a region hides exactly the lines already hidden and the lines of the region. */
  lemma IsFoldedAfterAdd(folded: seq<TextRange>, region: TextRange, line: int)
    ensures IsFolded(AddFoldedRegion(folded, region), line) <==> IsFolded(folded, line) || region.ContainsLine(line)
  {
    var added := folded + [region];
    IsFoldedOnlyNeedsElements(AddFoldedRegion(folded, region), added, line);
    if IsFolded(added, line) && !region.ContainsLine(line) {
      var i :| 0 <= i < |added| && added[i].ContainsLine(line);
      assert folded[i].ContainsLine(line);
    }
    if IsFolded(folded, line) {
      var i :| 0 <= i < |folded| && folded[i].ContainsLine(line);
      assert added[i].ContainsLine(line);
    }
    if region.ContainsLine(line) {
      assert added[|folded|].ContainsLine(line);
    }
  }

  /**
    Unfolding a region hides no new line, and keeps hidden every line
    another region still covers.
   */
  lemma IsFoldedAfterRemove(folded: seq<TextRange>, region: TextRange, line: int)
    ensures IsFolded(RemoveFoldedRegion(folded, region), line) ==> IsFolded(folded, line)
    ensures IsFolded(folded, line) && !region.ContainsLine(line) ==> IsFolded(RemoveFoldedRegion(folded, region), line)
  {
    var r := RemoveFoldedRegion(folded, region);
    if IsFolded(r, line) {
      var i :| 0 <= i < |r| && r[i].ContainsLine(line);
      assert r[i] in multiset(r);
      assert r[i] in multiset(folded);
    }
    if IsFolded(folded, line) && !region.ContainsLine(line) {
      var i :| 0 <= i < |folded| && folded[i].ContainsLine(line);
      assert folded[i] != region;
      assert folded[i] in multiset(folded);
      assert folded[i] in multiset(r);
    }
  }

  // ---------------------------------------------------------------------
  // Shifting after an edit
  // ---------------------------------------------------------------------

  /** Moves a region by delta lines when it starts at or after fromLine. */
  function ShiftRegion(region: TextRange, fromLine: int, delta: int): (r: TextRange)
  {
    if region.start.line >= fromLine then
      TextRange(region.start.(line := region.start.line + delta), region.end.(line := region.end.line + delta))
    else region
  }

  /**
    Moves every declared and every folded region that starts at or after
    fromLine by delta lines, both ends; the declared map keeps its keys.
   */
  function ShiftFoldingRegions(declared: map<int, TextRange>, folded: seq<TextRange>, fromLine: int, delta: int)
    : (r: (map<int, TextRange>, seq<TextRange>))
    ensures r.0.Keys == declared.Keys
    ensures forall k :: k in declared && declared[k].start.line < fromLine ==> r.0[k] == declared[k]
    ensures forall k :: k in declared && declared[k].start.line >= fromLine ==>
              r.0[k].start.line == declared[k].start.line + delta && r.0[k].end.line == declared[k].end.line + delta
              && r.0[k].start.column == declared[k].start.column && r.0[k].end.column == declared[k].end.column
    ensures |r.1| == |folded|
    ensures forall i :: 0 <= i < |folded| && folded[i].start.line < fromLine ==> r.1[i] == folded[i]
    ensures forall i :: 0 <= i < |folded| && folded[i].start.line >= fromLine ==>
              r.1[i].start.line == folded[i].start.line + delta && r.1[i].end.line == folded[i].end.line + delta
              && r.1[i].start.column == folded[i].start.column && r.1[i].end.column == folded[i].end.column
  {
    (map k | k in declared :: ShiftRegion(declared[k], fromLine, delta),
     seq(|folded|, i requires 0 <= i < |folded| => ShiftRegion(folded[i], fromLine, delta)))
  }

  /** No folded region shares a line with [fromLine, toLine]. */
  ghost predicate NoFoldTouches(folded: seq<TextRange>, fromLine: int, toLine: int) {
    forall i :: 0 <= i < |folded| ==> folded[i].start.line > toLine || folded[i].end.line < fromLine
  }

  /**
    After an edit that turned lines [fromLine, toLine] into lines
    [fromLine, toLine + delta], with no folded region touching the edited
    lines, the shifted folded list hides the lines before the edit as
    before, none of the edited lines, and the lines after it exactly when
    their pre-edit counterparts were hidden.
   */
  lemma ShiftedFoldedLines(folded: seq<TextRange>, fromLine: int, toLine: int, delta: int, line: int)
    requires NoFoldTouches(folded, fromLine, toLine)
    requires fromLine <= toLine && fromLine <= toLine + delta
    ensures var f := ShiftFoldingRegions(map[], folded, fromLine, delta).1;
            && (line < fromLine ==> IsFolded(f, line) == IsFolded(folded, line))
            && (fromLine <= line <= toLine + delta ==> !IsFolded(f, line))
            && (line > toLine + delta ==> IsFolded(f, line) == IsFolded(folded, line - delta))
  {
    var f := ShiftFoldingRegions(map[], folded, fromLine, delta).1;
    if line < fromLine || line > toLine + delta {
      var other := if line < fromLine then line else line - delta;
      if IsFolded(f, line) {
        var i :| 0 <= i < |f| && f[i].ContainsLine(line);
        assert folded[i].ContainsLine(other);
      }
      if IsFolded(folded, other) {
        var i :| 0 <= i < |folded| && folded[i].ContainsLine(other);
        assert f[i].ContainsLine(line);
      }
    } else if fromLine <= line <= toLine + delta {
      forall i | 0 <= i < |f| ensures !f[i].ContainsLine(line) {
      }
    }
  }
}
