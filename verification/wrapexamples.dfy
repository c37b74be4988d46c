/**
  Word wrapping on small lines in a font whose every glyph is one unit
  wide, with a width of three units and no indentation kept.
 */
module WrapExamples {
  import opened Common
  import opened LineWrap
  import opened WrapRows

  /** Every glyph is one unit wide. */
  const Unit := Metrics(map[], 1)

  /** The scan of text under Word wrapping at width 3, with or without the double charge. */
  function WordParams(doubleCharge: bool): WrapParams {
    WrapParams(Unit, 3, Word, 0, 4, doubleCharge)
  }

  /**
    "ab cd" overflows at the "c" and breaks after the space: the second row
    is "cd", whichever charge follows the word break.
   */
  lemma WordBreakAfterSpace()
    ensures ComputeLineBreaks("ab cd", Some(Unit), 3, Word, false, 4).wraps == [0, 3]
    ensures ComputeLineBreaksAsWritten("ab cd", Some(Unit), 3, Word, false, 4).wraps == [0, 3]
  {
    var s := "ab cd";
    var p := WordParams(false);
    var q := WordParams(true);
    var st0 := ScanState([0], 0, 0, 0);
    var st3 := ScanState([0], 3, 3, 2);
    assert Step(p, s, 2, Step(p, s, 1, Step(p, s, 0, st0))) == st3;
    assert Step(q, s, 2, Step(q, s, 1, Step(q, s, 0, st0))) == st3;
    assert Step(p, s, 4, Step(p, s, 3, st3)) == ScanState([0, 3], 2, 3, 0);
    assert Step(q, s, 4, Step(q, s, 3, st3)) == ScanState([0, 3], 3, 3, 0);
  }

  /**
    In "ab cde" the word break opens the row "cde", three units wide, which
    fits; the source's arithmetic charges the "c" twice and breaks again
    before the "e".
   */
  lemma DoubleChargeBreaksFittingWord()
    ensures RowWidth(Unit, "ab cde", 4, 3, 6) == 3
    ensures ComputeLineBreaks("ab cde", Some(Unit), 3, Word, false, 4).wraps == [0, 3]
    ensures ComputeLineBreaksAsWritten("ab cde", Some(Unit), 3, Word, false, 4).wraps == [0, 3, 5]
  {
    var s := "ab cde";
    var p := WordParams(false);
    var q := WordParams(true);
    var st0 := ScanState([0], 0, 0, 0);
    var st3 := ScanState([0], 3, 3, 2);
    assert Step(p, s, 2, Step(p, s, 1, Step(p, s, 0, st0))) == st3;
    assert Step(q, s, 2, Step(q, s, 1, Step(q, s, 0, st0))) == st3;
    assert Step(p, s, 5, Step(p, s, 4, Step(p, s, 3, st3))) == ScanState([0, 3], 3, 3, 0);
    assert Step(q, s, 5, Step(q, s, 4, Step(q, s, 3, st3))) == ScanState([0, 3, 5], 1, 3, 0);
    assert s[3..6] == "cde";
    assert "cde"[..2] == "cd" && "cd"[..1] == "c" && "c"[..0] == "";
    assert TextWidth(Unit, "c", 4) == 1;
    assert TextWidth(Unit, "cd", 4) == 2;
  }

  /**
    The source's breaks for "ab cde" are not the ones the word-wrap rule
    places for any choice of overflowing columns: the rule, charging a
    continuation row its text and padding, allows only the corrected result.
   */
  lemma AsWrittenBreaksBreakTheRule()
    ensures forall over :: !RowsExplained(WordParams(false), "ab cde", [0, 3, 5], over)
  {
    DoubleChargeBreaksFittingWord();
    var fixedOver := ComputeLineBreaksFollowsRule("ab cde", Unit, 3, Word, false, 4);
    forall over | RowsExplained(WordParams(false), "ab cde", [0, 3, 5], over)
      ensures false
    {
      RuleDeterminesBreaks(WordParams(false), "ab cde", [0, 3, 5], over, [0, 3], fixedOver);
    }
  }
}
