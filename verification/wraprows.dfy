/**
  The rule by which the wrap-point calculator places its breaks, stated
  without the scan. Each row is checked for overflow from some column on;
  the first column whose character makes the row wider than maxWidth
  opens the next row. In Word mode the new row starts just after the last
  space, dot, dash or comma the overflowing row had accepted, when there
  was one, and otherwise at the overflowing column itself. The columns of
  those overflows, `over`, together with the text determine every break.
 */
module WrapRows {
  import opened Common
  import opened LineWrap

  // ---------------------------------------------------------------------
  // Widths of adjacent ranges add up
  // ---------------------------------------------------------------------

  lemma {:induction false} RowWidthSplit(m: Metrics, s: string, tabWidth: nat, a: nat, b: nat, c: nat)
    requires a <= b <= c <= |s|
    ensures RowWidth(m, s, tabWidth, a, c) == RowWidth(m, s, tabWidth, a, b) + RowWidth(m, s, tabWidth, b, c)
    decreases c - b
  {
    if b < c {
      RowWidthSplit(m, s, tabWidth, a, b, c - 1);
      RowWidthStep(m, s, tabWidth, a, c - 1);
      RowWidthStep(m, s, tabWidth, b, c - 1);
    } else {
      RowWidthEmpty(m, s, tabWidth, b);
    }
  }

  // ---------------------------------------------------------------------
  // The rule
  // ---------------------------------------------------------------------

  /**
    The last break opportunity among columns lo .. hi-1, or 0 when there is
    none; column 0 never counts, since the scan uses 0 for "none".
   */
  function LastOpportunity(s: string, lo: nat, hi: nat): (o: nat)
    requires hi <= |s|
    ensures o == 0 || (lo <= o < hi && IsBreakOpportunity(s[o]))
    ensures forall j :: lo <= j < hi && 0 < j && o < j ==> !IsBreakOpportunity(s[j])
    decreases hi
  {
    if hi <= lo || hi <= 1 then 0
    else if IsBreakOpportunity(s[hi - 1]) then hi - 1
    else LastOpportunity(s, lo, hi - 1)
  }

  /**
    The start of the row that an overflow at column o opens, when the
    overflowing row was checked from column c on: after the last accepted
    opportunity in Word mode, else the overflowing column.
   */
  function BreakAt(p: WrapParams, s: string, c: nat, o: nat): (b: nat)
    requires c <= o < |s|
    ensures c <= b <= o
    ensures p.mode != Word ==> b == o
  {
    var ls := LastOpportunity(s, c, o);
    if p.mode == Word && ls != 0 then ls + 1 else o
  }

  /**
    The width a row opened by an overflow at column o is charged beyond
    its text: the padding, plus, with doubleCharge, the overflowing
    character once more after a word break.
   */
  function Charge(p: WrapParams, s: string, c: nat, o: nat): (w: nat)
    requires c <= o < |s|
    ensures !p.doubleCharge ==> w == p.pad
  {
    p.pad + (if p.doubleCharge && p.mode == Word && LastOpportunity(s, c, o) != 0
             then CharWidth(p.metrics, s[o], p.tabWidth) else 0)
  }

  /** The first column whose overflow row k checks: 0, or just after the overflow that opened it. */
  function RowStart(over: seq<nat>, k: nat): nat
    requires k <= |over|
  {
    if k == 0 then 0 else over[k - 1] + 1
  }

  /** The column at which row k stops checking: its overflow, or the end of the text. */
  function RowEnd(s: string, over: seq<nat>, k: nat): nat
    requires k <= |over|
  {
    if k < |over| then over[k] else |s|
  }

  /** The overflowing columns lie inside the text and strictly increase. */
  ghost predicate OverflowsOrdered(s: string, over: seq<nat>) {
    && (forall k :: 0 <= k < |over| ==> over[k] < |s|)
    && (forall i, j :: 0 <= i < j < |over| ==> over[i] < over[j])
  }

  /** The column at which row k starts. */
  function RowBreak(p: WrapParams, s: string, over: seq<nat>, k: nat): nat
    requires k <= |over| && OverflowsOrdered(s, over)
  {
    if k == 0 then 0 else BreakAt(p, s, RowStart(over, k - 1), over[k - 1])
  }

  /** The width row k is charged beyond its text. */
  function RowCharge(p: WrapParams, s: string, over: seq<nat>, k: nat): nat
    requires k <= |over| && OverflowsOrdered(s, over)
  {
    if k == 0 then 0 else Charge(p, s, RowStart(over, k - 1), over[k - 1])
  }

  /**
    Row k starts where the rule says; up to the column where it stops
    checking it fits (unless it checked nothing), and when it stops at an
    overflow, the overflowing character does not fit.
   */
  ghost predicate RowExplained(p: WrapParams, s: string, wraps: seq<nat>, over: seq<nat>, k: nat)
    requires |wraps| == |over| + 1 && k < |wraps| && OverflowsOrdered(s, over)
  {
    var b := RowBreak(p, s, over, k);
    && wraps[k] == b
    && b <= RowStart(over, k)
    && (RowEnd(s, over, k) == RowStart(over, k)
        || RowCharge(p, s, over, k) + RowWidth(p.metrics, s, p.tabWidth, b, RowEnd(s, over, k)) <= p.maxWidth)
    && (k < |over| ==> RowCharge(p, s, over, k) + RowWidth(p.metrics, s, p.tabWidth, b, over[k] + 1) > p.maxWidth)
  }

  /** The breaks wraps are the ones the rule places, with over the overflowing columns. */
  ghost predicate RowsExplained(p: WrapParams, s: string, wraps: seq<nat>, over: seq<nat>) {
    && |wraps| == |over| + 1
    && OverflowsOrdered(s, over)
    && forall k :: 0 <= k < |wraps| ==> RowExplained(p, s, wraps, over, k)
  }

  // ---------------------------------------------------------------------
  // The scan follows the rule
  // ---------------------------------------------------------------------

  /**
    Before column idx: rows 0 .. K-1 (K = |over|) are finished and follow
    the rule; row K started where the rule says, its running width is its
    charge plus its text so far and fits, and the remembered opportunity is
    the last one row K accepted, with the width up to and including it.
   */
  ghost predicate RowsInv(p: WrapParams, s: string, idx: nat, st: ScanState, over: seq<nat>)
  {
    && ScanInv(s, idx, st)
    && |st.wraps| == |over| + 1
    && (forall k :: 0 <= k < |over| ==> over[k] < idx)
    && (forall i, j :: 0 <= i < j < |over| ==> over[i] < over[j])
    && (forall k :: 0 <= k < |over| ==> RowExplained(p, s, st.wraps, over, k))
    && CurrentRow(p, s, idx, st, over)
  }

  /** The facts about the row under construction, given that the overflows so far are ordered. */
  ghost predicate CurrentRow(p: WrapParams, s: string, idx: nat, st: ScanState, over: seq<nat>)
    requires idx <= |s| && |st.wraps| == |over| + 1 && OverflowsOrdered(s, over)
    requires RowStart(over, |over|) <= idx
  {
    var K := |over|;
    var b := RowBreak(p, s, over, K);
    var charge := RowCharge(p, s, over, K);
    && st.wraps[K] == b
    && b <= RowStart(over, K)
    && st.xoffset == charge + RowWidth(p.metrics, s, p.tabWidth, b, idx)
    && (idx == RowStart(over, K) || st.xoffset <= p.maxWidth)
    && st.lastSpace == LastOpportunity(s, RowStart(over, K), idx)
    && (st.lastSpace != 0 ==> st.lastWidth == charge + RowWidth(p.metrics, s, p.tabWidth, b, st.lastSpace + 1))
  }

  /** Overflow columns below idx are ordered overflows of the text. */
  lemma OrderedBelow(s: string, idx: nat, over: seq<nat>)
    requires idx <= |s|
    requires forall k :: 0 <= k < |over| ==> over[k] < idx
    requires forall i, j :: 0 <= i < j < |over| ==> over[i] < over[j]
    ensures OverflowsOrdered(s, over)
    ensures RowStart(over, |over|) <= idx
  {
  }

  /** Appending an overflow keeps the earlier rows' start, charge and end. */
  lemma AppendKeepsRow(p: WrapParams, s: string, wraps: seq<nat>, over: seq<nat>, x: nat, o: nat, k: nat)
    requires |wraps| == |over| + 1 && OverflowsOrdered(s, over) && OverflowsOrdered(s, over + [o])
    requires k < |over| && RowExplained(p, s, wraps, over, k)
    ensures RowExplained(p, s, wraps + [x], over + [o], k)
  {
    var over' := over + [o];
    assert over'[k] == over[k];
    if k > 0 {
      assert over'[k - 1] == over[k - 1];
    }
    assert RowBreak(p, s, over', k) == RowBreak(p, s, over, k);
    assert RowCharge(p, s, over', k) == RowCharge(p, s, over, k);
    assert RowStart(over', k) == RowStart(over, k);
    assert RowEnd(s, over', k) == RowEnd(s, over, k);
  }

  /** Appending an overflow keeps every finished row explained. */
  lemma AppendKeepsRows(p: WrapParams, s: string, wraps: seq<nat>, over: seq<nat>, x: nat, o: nat)
    requires |wraps| == |over| + 1 && OverflowsOrdered(s, over) && OverflowsOrdered(s, over + [o])
    requires forall k :: 0 <= k < |over| ==> RowExplained(p, s, wraps, over, k)
    ensures forall k :: 0 <= k < |over| ==> RowExplained(p, s, wraps + [x], over + [o], k)
  {
    forall k | 0 <= k < |over| ensures RowExplained(p, s, wraps + [x], over + [o], k) {
      AppendKeepsRow(p, s, wraps, over, x, o, k);
    }
  }

  /** The row under construction, once an overflow at idx ends it, follows the rule. */
  lemma OverflowEndsRow(p: WrapParams, s: string, idx: nat, st: ScanState, over: seq<nat>)
    requires idx < |s|
    requires RowsInv(p, s, idx, st, over)
    requires st.xoffset + CharWidth(p.metrics, s[idx], p.tabWidth) > p.maxWidth
    ensures OverflowsOrdered(s, over + [idx])
    ensures RowExplained(p, s, st.wraps + [Last(Step(p, s, idx, st).wraps)], over + [idx], |over|)
  {
    var K := |over|;
    var over' := over + [idx];
    OrderedBelow(s, idx, over);
    assert OverflowsOrdered(s, over');
    var b := RowBreak(p, s, over, K);
    if K > 0 {
      assert over'[K - 1] == over[K - 1];
    }
    assert RowBreak(p, s, over', K) == b;
    assert RowCharge(p, s, over', K) == RowCharge(p, s, over, K);
    assert RowStart(over', K) == RowStart(over, K);
    assert RowEnd(s, over', K) == idx;
    RowWidthStep(p.metrics, s, p.tabWidth, b, idx);
  }

  /** The facts of a row opened by an overflow at idx, from its start, running width and cleared opportunity. */
  lemma OpenedRow(p: WrapParams, s: string, idx: nat, st: ScanState, over: seq<nat>)
    requires idx < |s| && |st.wraps| == |over| + 1 && OverflowsOrdered(s, over)
    requires |over| > 0 && over[|over| - 1] == idx
    requires st.wraps[|over|] == RowBreak(p, s, over, |over|)
    requires st.xoffset == RowCharge(p, s, over, |over|)
                           + RowWidth(p.metrics, s, p.tabWidth, RowBreak(p, s, over, |over|), idx + 1)
    requires st.lastSpace == 0
    ensures RowStart(over, |over|) == idx + 1
    ensures CurrentRow(p, s, idx + 1, st, over)
  {
  }

  /** The text between the remembered opportunity and the overflowing glyph, by difference of running widths. */
  lemma WidthSinceOpportunity(m: Metrics, s: string, tabWidth: nat, b: nat, ls: nat, idx: nat, charge: int, x: int, lastWidth: int)
    requires b <= ls + 1 <= idx + 1 <= |s|
    requires x == charge + RowWidth(m, s, tabWidth, b, idx + 1)
    requires lastWidth == charge + RowWidth(m, s, tabWidth, b, ls + 1)
    ensures x - lastWidth == RowWidth(m, s, tabWidth, ls + 1, idx + 1)
  {
    RowWidthSplit(m, s, tabWidth, b, ls + 1, idx + 1);
  }

  /** The row an overflow at idx opens satisfies the facts of the row under construction. */
  lemma OverflowOpensRow(p: WrapParams, s: string, idx: nat, st: ScanState, over: seq<nat>)
    requires idx < |s|
    requires RowsInv(p, s, idx, st, over)
    requires st.xoffset + CharWidth(p.metrics, s[idx], p.tabWidth) > p.maxWidth
    requires OverflowsOrdered(s, over + [idx])
    ensures |Step(p, s, idx, st).wraps| == |over + [idx]| + 1
    ensures RowStart(over + [idx], |over| + 1) <= idx + 1
    ensures CurrentRow(p, s, idx + 1, Step(p, s, idx, st), over + [idx])
  {
    var K := |over|;
    var over' := over + [idx];
    var st' := Step(p, s, idx, st);
    var c := RowStart(over, K);
    var b := RowBreak(p, s, over, K);
    var w := CharWidth(p.metrics, s[idx], p.tabWidth);
    var x := st.xoffset + w;
    assert over'[K] == idx;
    if K > 0 {
      assert over'[K - 1] == over[K - 1];
    }
    assert RowStart(over', K) == c;
    var b' := RowBreak(p, s, over', K + 1);
    var charge' := RowCharge(p, s, over', K + 1);
    assert b' == BreakAt(p, s, c, idx);
    assert charge' == Charge(p, s, c, idx);
    RowWidthStep(p.metrics, s, p.tabWidth, b, idx);
    assert x == RowCharge(p, s, over, K) + RowWidth(p.metrics, s, p.tabWidth, b, idx + 1);
    if p.mode == Word && st.lastSpace != 0 {
      assert st'.wraps == st.wraps + [st.lastSpace + 1];
      WidthSinceOpportunity(p.metrics, s, p.tabWidth, b, st.lastSpace, idx, RowCharge(p, s, over, K), x, st.lastWidth);
    } else {
      assert st'.wraps == st.wraps + [idx];
      RowWidthStep(p.metrics, s, p.tabWidth, idx, idx);
      RowWidthEmpty(p.metrics, s, p.tabWidth, idx);
    }
    OpenedRow(p, s, idx, st', over');
  }

  /** A character that fits extends the row under construction. */
  lemma FitKeepsInv(p: WrapParams, s: string, idx: nat, st: ScanState, over: seq<nat>)
    requires idx < |s|
    requires RowsInv(p, s, idx, st, over)
    requires st.xoffset + CharWidth(p.metrics, s[idx], p.tabWidth) <= p.maxWidth
    ensures RowsInv(p, s, idx + 1, Step(p, s, idx, st), over)
  {
    var st' := Step(p, s, idx, st);
    StepKeepsInv(p, s, idx, st);
    OrderedBelow(s, idx, over);
    RowWidthStep(p.metrics, s, p.tabWidth, RowBreak(p, s, over, |over|), idx);
    assert st'.wraps == st.wraps;
  }

  /** A character that overflows finishes the row under construction and opens the next. */
  lemma OverflowKeepsInv(p: WrapParams, s: string, idx: nat, st: ScanState, over: seq<nat>)
    requires idx < |s|
    requires RowsInv(p, s, idx, st, over)
    requires st.xoffset + CharWidth(p.metrics, s[idx], p.tabWidth) > p.maxWidth
    ensures RowsInv(p, s, idx + 1, Step(p, s, idx, st), over + [idx])
  {
    var st' := Step(p, s, idx, st);
    var over' := over + [idx];
    var K := |over|;
    StepKeepsInv(p, s, idx, st);
    OrderedBelow(s, idx, over);
    OverflowEndsRow(p, s, idx, st, over);
    OverflowOpensRow(p, s, idx, st, over);
    assert st'.wraps == st.wraps + [Last(st'.wraps)];
    assert forall k :: 0 <= k < |over'| ==> over'[k] < idx + 1;
    AppendKeepsRows(p, s, st.wraps, over, Last(st'.wraps), idx);
    assert RowExplained(p, s, st'.wraps, over', K);
  }

  lemma RowsStepKeepsInv(p: WrapParams, s: string, idx: nat, st: ScanState, over: seq<nat>)
      returns (over': seq<nat>)
    requires idx < |s|
    requires RowsInv(p, s, idx, st, over)
    ensures RowsInv(p, s, idx + 1, Step(p, s, idx, st), over')
  {
    if st.xoffset + CharWidth(p.metrics, s[idx], p.tabWidth) > p.maxWidth {
      over' := over + [idx];
      OverflowKeepsInv(p, s, idx, st, over);
    } else {
      over' := over;
      FitKeepsInv(p, s, idx, st, over);
    }
  }

  /** At the end of the text the row under construction is the last row, and it fits. */
  lemma FinishedRowsExplained(p: WrapParams, s: string, st: ScanState, over: seq<nat>)
    requires RowsInv(p, s, |s|, st, over)
    ensures RowsExplained(p, s, st.wraps, over)
  {
    OrderedBelow(s, |s|, over);
    assert RowExplained(p, s, st.wraps, over, |over|);
  }

  /** The state the scan reaches at the end of the text. */
  ghost function FinalState(p: WrapParams, s: string, idx: nat, st: ScanState): ScanState
    requires ScanInv(s, idx, st)
    decreases |s| - idx
  {
    if idx == |s| then st
    else
      StepKeepsInv(p, s, idx, st);
      FinalState(p, s, idx + 1, Step(p, s, idx, st))
  }

  /** The breaks the scan returns are those of its final state. */
  lemma {:induction false} ScanIsFinalState(p: WrapParams, s: string, idx: nat, st: ScanState)
    requires ScanInv(s, idx, st)
    ensures Scan(p, s, idx, st) == FinalState(p, s, idx, st).wraps
    decreases |s| - idx
  {
    if idx < |s| {
      StepKeepsInv(p, s, idx, st);
      ScanIsFinalState(p, s, idx + 1, Step(p, s, idx, st));
    }
  }

  /** RowsInv, as the recursion over the scan sees it. */
  ghost predicate ScanReady(p: WrapParams, s: string, idx: nat, st: ScanState, over: seq<nat>) {
    RowsInv(p, s, idx, st, over)
  }

  /** One column of the scan: the invariant carries over to the next state, which reaches the same end. */
  lemma ScanStep(p: WrapParams, s: string, idx: nat, st: ScanState, over: seq<nat>)
      returns (st': ScanState, over': seq<nat>)
    requires idx < |s|
    requires ScanReady(p, s, idx, st, over)
    ensures ScanReady(p, s, idx + 1, st', over')
    ensures ScanInv(s, idx + 1, st')
    ensures FinalState(p, s, idx, st) == FinalState(p, s, idx + 1, st')
  {
    st' := Step(p, s, idx, st);
    over' := RowsStepKeepsInv(p, s, idx, st, over);
  }

  lemma {:induction false} ScanFollowsRule(p: WrapParams, s: string, idx: nat, st: ScanState, over: seq<nat>)
      returns (over': seq<nat>)
    requires idx <= |s| && ScanInv(s, idx, st)
    requires ScanReady(p, s, idx, st, over)
    ensures RowsExplained(p, s, FinalState(p, s, idx, st).wraps, over')
    decreases |s| - idx
  {
    if idx < |s| {
      var st', next := ScanStep(p, s, idx, st, over);
      over' := ScanFollowsRule(p, s, idx + 1, st', next);
    } else {
      over' := over;
      FinishedRowsExplained(p, s, st, over);
    }
  }

  /**
    In Word and Letter mode every break the calculator returns is the one
    the rule places, for some sequence of overflowing columns; this holds
    for the corrected arithmetic and for the source's, each with its own
    charge after a word break.
   */
  lemma LineBreaksFollowRule(s: string, m: Metrics, maxWidth: nat, mode: LineWrapMode,
                             keepIndentation: bool, tabWidth: nat, doubleCharge: bool)
      returns (over: seq<nat>)
    requires mode != NoWrap
    ensures var r := LineBreaks(s, Some(m), maxWidth, mode, keepIndentation, tabWidth, doubleCharge);
            RowsExplained(WrapParams(m, maxWidth, mode, r.paddingStart, tabWidth, doubleCharge), s, r.wraps, over)
  {
    var pad := if keepIndentation then ComputeOffsets(Some(m), s, tabWidth) else 0;
    var p := WrapParams(m, maxWidth, mode, pad, tabWidth, doubleCharge);
    if |s| == 0 {
      over := [];
      assert RowExplained(p, s, [0], [], 0);
    } else {
      RowWidthEmpty(m, s, tabWidth, 0);
      ScanIsFinalState(p, s, 0, ScanState([0], 0, 0, 0));
      assert ScanReady(p, s, 0, ScanState([0], 0, 0, 0), []);
      over := ScanFollowsRule(p, s, 0, ScanState([0], 0, 0, 0), []);
    }
  }

  /**
    The source's calculator, which the view uses, places its breaks by the
    rule with the overflowing character charged to the new row on top of
    the width since the opportunity.
   */
  lemma ComputeLineBreaksAsWrittenFollowsRule(s: string, m: Metrics, maxWidth: nat, mode: LineWrapMode,
                                              keepIndentation: bool, tabWidth: nat)
      returns (over: seq<nat>)
    requires mode != NoWrap
    ensures var r := ComputeLineBreaksAsWritten(s, Some(m), maxWidth, mode, keepIndentation, tabWidth);
            RowsExplained(WrapParams(m, maxWidth, mode, r.paddingStart, tabWidth, true), s, r.wraps, over)
  {
    over := LineBreaksFollowRule(s, m, maxWidth, mode, keepIndentation, tabWidth, true);
  }

  /** The corrected calculator places its breaks by the rule, charging continuation rows their text and padding only. */
  lemma ComputeLineBreaksFollowsRule(s: string, m: Metrics, maxWidth: nat, mode: LineWrapMode,
                                     keepIndentation: bool, tabWidth: nat)
      returns (over: seq<nat>)
    requires mode != NoWrap
    ensures var r := ComputeLineBreaks(s, Some(m), maxWidth, mode, keepIndentation, tabWidth);
            RowsExplained(WrapParams(m, maxWidth, mode, r.paddingStart, tabWidth, false), s, r.wraps, over)
  {
    over := LineBreaksFollowRule(s, m, maxWidth, mode, keepIndentation, tabWidth, false);
  }

  // ---------------------------------------------------------------------
  // The rule leaves no choice
  // ---------------------------------------------------------------------

  /** A row that fits up to column e (having checked something) fits at every column it checked before e. */
  lemma FitsBefore(m: Metrics, s: string, tabWidth: nat, maxWidth: nat, charge: nat, b: nat, start: nat, e: nat, o: nat)
    requires b <= start <= o < e <= |s|
    requires e == start || charge + RowWidth(m, s, tabWidth, b, e) <= maxWidth
    ensures charge + RowWidth(m, s, tabWidth, b, o + 1) <= maxWidth
  {
    RowWidthSplit(m, s, tabWidth, b, o + 1, e);
  }

  /** Two explanations of a row that start alike overflow at the same column. */
  lemma SameOverflow(p: WrapParams, s: string, w1: seq<nat>, o1: seq<nat>, w2: seq<nat>, o2: seq<nat>, k: nat)
    requires RowsExplained(p, s, w1, o1) && RowsExplained(p, s, w2, o2)
    requires k < |o1| && k < |o2|
    requires RowStart(o1, k) == RowStart(o2, k)
    requires RowBreak(p, s, o1, k) == RowBreak(p, s, o2, k)
    requires RowCharge(p, s, o1, k) == RowCharge(p, s, o2, k)
    ensures o1[k] == o2[k]
  {
    assert RowExplained(p, s, w1, o1, k) && RowExplained(p, s, w2, o2, k);
    var b := RowBreak(p, s, o1, k);
    var c := RowCharge(p, s, o1, k);
    if o1[k] < o2[k] {
      FitsBefore(p.metrics, s, p.tabWidth, p.maxWidth, c, b, RowStart(o1, k), o2[k], o1[k]);
    } else if o2[k] < o1[k] {
      FitsBefore(p.metrics, s, p.tabWidth, p.maxWidth, c, b, RowStart(o1, k), o1[k], o2[k]);
    }
  }

  /** Rows with the same overflows before them start alike and are charged alike. */
  lemma SamePrefixSameRow(p: WrapParams, s: string, o1: seq<nat>, o2: seq<nat>, k: nat)
    requires OverflowsOrdered(s, o1) && OverflowsOrdered(s, o2)
    requires k <= |o1| && k <= |o2|
    requires forall i :: 0 <= i < k ==> o1[i] == o2[i]
    ensures RowStart(o1, k) == RowStart(o2, k)
    ensures RowBreak(p, s, o1, k) == RowBreak(p, s, o2, k)
    ensures RowCharge(p, s, o1, k) == RowCharge(p, s, o2, k)
  {
    if k > 0 {
      assert o1[k - 1] == o2[k - 1];
      assert RowStart(o1, k - 1) == RowStart(o2, k - 1);
    }
  }

  lemma {:induction false} OverflowsAgree(p: WrapParams, s: string, w1: seq<nat>, o1: seq<nat>, w2: seq<nat>, o2: seq<nat>, k: nat)
    requires RowsExplained(p, s, w1, o1) && RowsExplained(p, s, w2, o2)
    requires k <= |o1| && k <= |o2|
    ensures forall i :: 0 <= i < k ==> o1[i] == o2[i]
  {
    if k > 0 {
      OverflowsAgree(p, s, w1, o1, w2, o2, k - 1);
      SamePrefixSameRow(p, s, o1, o2, k - 1);
      SameOverflow(p, s, w1, o1, w2, o2, k - 1);
    }
  }

  /** The last row of one explanation cannot be followed by another overflow in a second. */
  lemma NoLaterOverflow(p: WrapParams, s: string, w1: seq<nat>, o1: seq<nat>, w2: seq<nat>, o2: seq<nat>)
    requires RowsExplained(p, s, w1, o1) && RowsExplained(p, s, w2, o2)
    ensures |o2| <= |o1|
  {
    if |o1| < |o2| {
      var K := |o1|;
      OverflowsAgree(p, s, w1, o1, w2, o2, K);
      SamePrefixSameRow(p, s, o1, o2, K);
      assert RowExplained(p, s, w1, o1, K) && RowExplained(p, s, w2, o2, K);
      FitsBefore(p.metrics, s, p.tabWidth, p.maxWidth, RowCharge(p, s, o1, K), RowBreak(p, s, o1, K),
                 RowStart(o1, K), |s|, o2[K]);
    }
  }

  /**
    The rule determines the breaks: two sequences of breaks that the rule
    explains for the same text and parameters are equal, and so are their
    overflowing columns. With LineBreaksFollowRule, the calculator's
    result is the only one the rule allows.
   */
  lemma RuleDeterminesBreaks(p: WrapParams, s: string, w1: seq<nat>, o1: seq<nat>, w2: seq<nat>, o2: seq<nat>)
    requires RowsExplained(p, s, w1, o1) && RowsExplained(p, s, w2, o2)
    ensures o1 == o2 && w1 == w2
  {
    NoLaterOverflow(p, s, w1, o1, w2, o2);
    NoLaterOverflow(p, s, w2, o2, w1, o1);
    OverflowsAgree(p, s, w1, o1, w2, o2, |o1|);
    forall k | 0 <= k < |w1| ensures w1[k] == w2[k] {
      SamePrefixSameRow(p, s, o1, o2, k);
      assert RowExplained(p, s, w1, o1, k) && RowExplained(p, s, w2, o2, k);
    }
  }
}
