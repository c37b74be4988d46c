/**
  The line table of the hide step as the source stores it: 64-bit signed
  integers, with a folded line marked by a sentinel value `invalid` and
  every line after the hidden span moved up by subtracting the number of
  rows erased. The subtraction also reaches the sentinel of a line that an
  earlier fold hid, which then no longer reads as hidden. The model's
  `ViewFolding.HideTable` keeps such an entry Hidden.
 */
module HideAsWritten {
  import opened DocView
  import opened ViewFolding

  const TwoTo63: int := 0x8000_0000_0000_0000
  const TwoTo64: int := 0x1_0000_0000_0000_0000

  predicate IsInt64(x: int) {
    -TwoTo63 <= x < TwoTo63
  }

  /** 64-bit two's-complement subtraction of a non-negative amount, wrapping below the minimum. */
  function Sub64(x: int, e: int): (r: int)
    requires IsInt64(x) && 0 <= e < TwoTo63
    ensures IsInt64(r)
    ensures r == x - e || r == x - e + TwoTo64
  {
    if x - e < -TwoTo63 then x - e + TwoTo64 else x - e
  }

  /** The integer table the source keeps for a table of slots. */
  function Encode(table: seq<Slot>, invalid: int): (r: seq<int>)
    ensures |r| == |table|
    ensures forall i :: 0 <= i < |table| && table[i].At? ==> r[i] == table[i].index
    ensures forall i :: 0 <= i < |table| && table[i] == Hidden ==> r[i] == invalid
  {
    seq(|table|, i requires 0 <= i < |table| => if table[i].At? then table[i].index else invalid)
  }

  /** The hide step on the integer table: the span becomes the sentinel, every later entry loses `erased`. */
  function HideTableAsWritten(table: seq<int>, from: int, to: int, erased: int, invalid: int): (r: seq<int>)
    requires forall i :: 0 <= i < |table| ==> IsInt64(table[i])
    requires 0 <= erased < TwoTo63
    ensures |r| == |table|
    ensures forall i :: 0 <= i < |table| && i < from && i <= to ==> r[i] == table[i]
    ensures forall i :: 0 <= i < |table| && from <= i <= to ==> r[i] == invalid
    ensures forall i :: 0 <= i < |table| && to < i ==> r[i] == Sub64(table[i], erased)
  {
    seq(|table|, i requires 0 <= i < |table| =>
      if to < i then Sub64(table[i], erased) else if from <= i then invalid else table[i])
  }

  /** isLineVisible on the integer table. */
  function IsLineVisibleAsWritten(table: seq<int>, invalid: int, line: nat): (r: bool)
    requires line < |table|
    ensures r <==> table[line] != invalid
  {
    table[line] != invalid
  }

  /** Slots whose row indices fit the source's 64-bit entries, and a sentinel that does too. */
  predicate Encodable(table: seq<Slot>, invalid: int) {
    && IsInt64(invalid)
    && forall i :: 0 <= i < |table| && table[i].At? ==> 0 <= table[i].index < TwoTo63
  }

  /**
    On every entry except a line after the span that was already hidden,
    the source's integer table agrees with the model's table of slots.
   */
  lemma AsWrittenAgreesElsewhere(table: seq<Slot>, from: int, to: int, erased: int, invalid: int, i: nat)
    requires Encodable(table, invalid) && 0 <= erased < TwoTo63 && from <= to
    requires i < |table| && !(to < i && table[i] == Hidden)
    ensures HideTableAsWritten(Encode(table, invalid), from, to, erased, invalid)[i]
         == Encode(HideTable(table, from, to, erased), invalid)[i]
  {
  }

  /**
    A line after the span that an earlier fold hid reads as visible once
    the source's subtraction has moved its sentinel, while the model's
    table keeps it Hidden.
   */
  lemma AsWrittenShowsHiddenLine(table: seq<Slot>, from: int, to: int, erased: int, invalid: int, i: nat)
    requires Encodable(table, invalid) && 0 < erased < TwoTo63
    requires to < i < |table| && table[i] == Hidden
    ensures IsLineVisibleAsWritten(HideTableAsWritten(Encode(table, invalid), from, to, erased, invalid), invalid, i)
    ensures HideTable(table, from, to, erased)[i] == Hidden
  {
  }

  /**
    Folding line 0 of a three-line view whose line 2 is already folded, one
    row per line: line 2's entry becomes invalid - 1 (the sentinel here
    being -1), so the source reports it visible.
   */
  lemma FoldAboveFoldShowsIt()
    ensures HideTableAsWritten([0, 1, -1], 0, 0, 1, -1) == [-1, 0, -2]
    ensures IsLineVisibleAsWritten([-1, 0, -2], -1, 2)
    ensures HideTable([At(0), At(1), Hidden], 0, 0, 1) == [Hidden, At(0), Hidden]
  {
    assert Encode([At(0), At(1), Hidden], -1) == [0, 1, -1];
  }
}
