/**
  The wrap-point calculator of the text editor view: given the text of one
  logical line, the font metrics, a maximum width and a wrap policy, it
  returns the columns at which the line is split into visual rows, plus the
  indentation padding that continuation rows keep.

  Widths are natural numbers: a font is abstracted to a table of
  per-character advances, kerning and the monospace fast path are not modelled.
 */
module LineWrap {
  import opened Common

  datatype LineWrapMode = NoWrap | Word | Letter

  datatype LineWrapType = Viewport | LineBreakingColumn

  // ---------------------------------------------------------------------
  // Configuration tokens
  // ---------------------------------------------------------------------

  /** ASCII lower-casing of one character. */
  function LowerChar(c: char): (r: char)
    ensures 'A' <= c <= 'Z' ==> r as int == c as int + 32
    ensures !('A' <= c <= 'Z') ==> r == c
  {
    if 'A' <= c <= 'Z' then (c as int + 32) as char else c
  }

  function ToLower(s: string): (r: string)
    ensures |r| == |s|
    ensures forall i :: 0 <= i < |s| ==> r[i] == LowerChar(s[i])
  {
    if |s| == 0 then [] else [LowerChar(s[0])] + ToLower(s[1..])
  }

  /** Parses a wrap mode token, ignoring case; anything unknown means no wrapping. */
  function ToLineWrapMode(token: string): (m: LineWrapMode)
    ensures m == Word <==> ToLower(token) == "word"
    ensures m == Letter <==> ToLower(token) == "letter"
    ensures m == NoWrap <==> ToLower(token) != "word" && ToLower(token) != "letter"
  {
    var t := ToLower(token);
    if t == "word" then Word
    else if t == "letter" then Letter
    else NoWrap
  }

  function FromLineWrapMode(m: LineWrapMode): (token: string)
  {
    match m
    case Letter => "letter"
    case Word => "word"
    case NoWrap => "nowrap"
  }

  /** Parses a wrap boundary token, ignoring case; anything unknown means the viewport. */
  function ToLineWrapType(token: string): (t: LineWrapType)
    ensures t == LineBreakingColumn <==> ToLower(token) == "line_breaking_column"
  {
    if ToLower(token) == "line_breaking_column" then LineBreakingColumn else Viewport
  }

  function FromLineWrapType(t: LineWrapType): (token: string)
  {
    match t
    case LineBreakingColumn => "line_breaking_column"
    case Viewport => "viewport"
  }

  /** A token that is already lower case is its own lower-case form. */
  lemma {:induction false} LowerCaseFixed(s: string)
    requires forall i :: 0 <= i < |s| ==> !('A' <= s[i] <= 'Z')
    ensures ToLower(s) == s
  {
    if |s| > 0 {
      LowerCaseFixed(s[1..]);
    }
  }

  /** Printing a mode and parsing it back gives the same mode, and likewise for wrap types. */
  lemma WrapTokensRoundTrip(m: LineWrapMode, t: LineWrapType)
    ensures ToLineWrapMode(FromLineWrapMode(m)) == m
    ensures ToLineWrapType(FromLineWrapType(t)) == t
  {
    LowerCaseFixed(FromLineWrapMode(m));
    LowerCaseFixed(FromLineWrapType(t));
  }

  // ---------------------------------------------------------------------
  // Widths
  // ---------------------------------------------------------------------

  /** Font metrics: a table of glyph advances, and the advance of any glyph not in it. */
  datatype Metrics = Metrics(glyphs: map<char, nat>, fallback: nat) {
    function Advance(c: char): nat {
      if c in glyphs then glyphs[c] else fallback
    }
  }

  /** A tab is as wide as tabWidth spaces, a carriage return has no width. */
  function CharWidth(m: Metrics, c: char, tabWidth: nat): nat
  {
    if c == '\t' then m.Advance(' ') * tabWidth
    else if c == '\r' then 0
    else m.Advance(c)
  }

  /** The width of a whole string: the sum of its characters' widths. */
  function TextWidth(m: Metrics, s: string, tabWidth: nat): nat
  {
    if |s| == 0 then 0 else TextWidth(m, s[..|s| - 1], tabWidth) + CharWidth(m, s[|s| - 1], tabWidth)
  }

  /** The width of s[a..b]. */
  function RowWidth(m: Metrics, s: string, tabWidth: nat, a: nat, b: nat): nat
    requires a <= b <= |s|
  {
    TextWidth(m, s[a..b], tabWidth)
  }

  lemma RowWidthStep(m: Metrics, s: string, tabWidth: nat, a: nat, b: nat)
    requires a <= b < |s|
    ensures RowWidth(m, s, tabWidth, a, b + 1) == RowWidth(m, s, tabWidth, a, b) + CharWidth(m, s[b], tabWidth)
  {
    assert s[a..b + 1][..b - a] == s[a..b];
  }

  lemma RowWidthEmpty(m: Metrics, s: string, tabWidth: nat, a: nat)
    requires a <= |s|
    ensures RowWidth(m, s, tabWidth, a, a) == 0
  {
  }

  /** Characters counted as indentation when measuring the leading padding. */
  predicate IsIndentChar(c: char) {
    c == ' ' || c == '\t' || c == '\n' || c == '\U{B}' || c == '\U{C}' || c == '\r'
  }

  /** The index of the first character that is not indentation, or |s| when there is none. */
  function IndentLength(s: string): (n: nat)
    ensures n <= |s|
    ensures forall i :: 0 <= i < n ==> IsIndentChar(s[i])
    ensures n < |s| ==> !IsIndentChar(s[n])
  {
    if |s| == 0 || !IsIndentChar(s[0]) then 0 else 1 + IndentLength(s[1..])
  }

  /**
    The indentation padding of a line: the width of its leading whitespace
    run, and zero when the line holds nothing but whitespace (or when there
    is no font to measure with).
   */
  function ComputeOffsets(font: Option<Metrics>, s: string, tabWidth: nat): (pad: nat)
    ensures font.None? ==> pad == 0
    ensures IndentLength(s) == |s| ==> pad == 0
    ensures font.Some? && IndentLength(s) < |s| ==> pad == TextWidth(font.value, s[..IndentLength(s)], tabWidth)
  {
    match font
    case None => 0
    case Some(m) =>
      var n := IndentLength(s);
      if n < |s| then TextWidth(m, s[..n], tabWidth) else 0
  }

  // ---------------------------------------------------------------------
  // Line breaks
  // ---------------------------------------------------------------------

  /** The result of the calculator: the start column of each visual row, and the padding. */
  datatype WrapInfo = WrapInfo(wraps: seq<nat>, paddingStart: nat)

  /** Characters after which a word-wrapped line may be broken. */
  predicate IsBreakOpportunity(c: char) {
    c == ' ' || c == '.' || c == '-' || c == ','
  }

  /**
    The fixed parameters of one scan over a line. doubleCharge selects the
    source's arithmetic after a word break, which counts the overflowing
    character's width twice; without it the new row is charged its text
    and padding only.
   */
  datatype WrapParams = WrapParams(metrics: Metrics, maxWidth: nat, mode: LineWrapMode, pad: nat, tabWidth: nat,
                                   doubleCharge: bool)

  /**
    The scan's running state: breaks found so far, the accumulated width of
    the current row, and the column and accumulated width of the last break
    opportunity. A remembered column of 0 means "no opportunity".
   */
  datatype ScanState = ScanState(wraps: seq<nat>, xoffset: int, lastWidth: int, lastSpace: nat)

  /** Breaks start at 0, are non-decreasing, and strictly increase from the second one on. */
  ghost predicate WellOrderedBreaks(wraps: seq<nat>) {
    && |wraps| >= 1
    && wraps[0] == 0
    && (forall i, j :: 0 <= i < j < |wraps| ==> wraps[i] <= wraps[j])
    && (forall i, j :: 1 <= i < j < |wraps| ==> wraps[i] < wraps[j])
  }

  /** The invariant the scan keeps before looking at column idx of s. */
  ghost predicate ScanInv(s: string, idx: nat, st: ScanState) {
    && idx <= |s|
    && WellOrderedBreaks(st.wraps)
    && (forall k :: 0 <= k < |st.wraps| ==> st.wraps[k] <= idx)
    && (forall k :: 0 <= k < |st.wraps| ==> st.wraps[k] < |s|)
    && (|st.wraps| >= 2 ==> Last(st.wraps) < idx)
    && st.lastSpace <= idx
    && (idx > 0 ==> st.lastSpace < idx)
    && (st.lastSpace != 0 ==> Last(st.wraps) <= st.lastSpace)
  }

  /** One step of the scan: account for character s[idx]. */
  function Step(p: WrapParams, s: string, idx: nat, st: ScanState): ScanState
    requires idx < |s|
  {
    var c := s[idx];
    var w := CharWidth(p.metrics, c, p.tabWidth);
    var x := st.xoffset + w;
    if x > p.maxWidth then
      if p.mode == Word && st.lastSpace != 0 then
        ScanState(st.wraps + [st.lastSpace + 1], (if p.doubleCharge then w else 0) + p.pad + (x - st.lastWidth), st.lastWidth, 0)
      else
        ScanState(st.wraps + [idx], w + p.pad, st.lastWidth, 0)
    else if IsBreakOpportunity(c) then
      ScanState(st.wraps, x, x, idx)
    else
      st.(xoffset := x)
  }

  lemma AppendBreak(wraps: seq<nat>, x: nat)
    requires WellOrderedBreaks(wraps)
    requires Last(wraps) <= x
    requires |wraps| >= 2 ==> Last(wraps) < x
    ensures WellOrderedBreaks(wraps + [x])
  {
    var w := wraps + [x];
    forall i, j | 0 <= i < j < |w| ensures w[i] <= w[j] {
      if j == |w| - 1 {
        assert wraps[i] <= Last(wraps);
      }
    }
    forall i, j | 1 <= i < j < |w| ensures w[i] < w[j] {
      if j == |w| - 1 {
        assert wraps[i] <= Last(wraps);
      }
    }
  }

  lemma StepKeepsInv(p: WrapParams, s: string, idx: nat, st: ScanState)
    requires idx < |s|
    requires ScanInv(s, idx, st)
    ensures ScanInv(s, idx + 1, Step(p, s, idx, st))
  {
    var st' := Step(p, s, idx, st);
    if |st'.wraps| > |st.wraps| {
      var x := Last(st'.wraps);
      assert st'.wraps == st.wraps + [x];
      assert x <= idx;
      AppendBreak(st.wraps, x);
    } else {
      assert st'.wraps == st.wraps;
    }
  }

  /** Scans s from column idx to the end and returns all breaks. */
  function Scan(p: WrapParams, s: string, idx: nat, st: ScanState): (wraps: seq<nat>)
    requires ScanInv(s, idx, st)
    ensures WellOrderedBreaks(wraps)
    ensures forall k :: 0 <= k < |wraps| ==> wraps[k] < |s|
    ensures |st.wraps| <= |wraps| && wraps[..|st.wraps|] == st.wraps
    decreases |s| - idx
  {
    if idx == |s| then st.wraps
    else
      StepKeepsInv(p, s, idx, st);
      Scan(p, s, idx + 1, Step(p, s, idx, st))
  }

  /**
    Computes where a line is broken into visual rows. Returns the single
    break [0] and no padding when the text is empty, there is no font or
    wrapping is off; otherwise the padding is measured only when the
    indentation is kept.
   */
  function ComputeLineBreaks(s: string, font: Option<Metrics>, maxWidth: nat, mode: LineWrapMode,
                             keepIndentation: bool, tabWidth: nat): (r: WrapInfo)
    ensures WellOrderedBreaks(r.wraps)
    ensures |s| == 0 || font.None? || mode == NoWrap ==> r == WrapInfo([0], 0)
    ensures |s| > 0 ==> forall k :: 0 <= k < |r.wraps| ==> r.wraps[k] < |s|
    ensures !keepIndentation ==> r.paddingStart == 0
    ensures keepIndentation && |s| > 0 && font.Some? && mode != NoWrap ==>
              r.paddingStart == ComputeOffsets(font, s, tabWidth)
  {
    LineBreaks(s, font, maxWidth, mode, keepIndentation, tabWidth, false)
  }

  /**
    The calculator with the source's arithmetic after a word break (see
    WrapParams); the view's layout uses this one. It differs from
    ComputeLineBreaks only in Word mode (AsWrittenDiffersOnlyInWordMode).
   */
  function ComputeLineBreaksAsWritten(s: string, font: Option<Metrics>, maxWidth: nat, mode: LineWrapMode,
                                      keepIndentation: bool, tabWidth: nat): (r: WrapInfo)
    ensures WellOrderedBreaks(r.wraps)
    ensures |s| == 0 || font.None? || mode == NoWrap ==> r == WrapInfo([0], 0)
    ensures |s| > 0 ==> forall k :: 0 <= k < |r.wraps| ==> r.wraps[k] < |s|
    ensures !keepIndentation ==> r.paddingStart == 0
    ensures keepIndentation && |s| > 0 && font.Some? && mode != NoWrap ==>
              r.paddingStart == ComputeOffsets(font, s, tabWidth)
  {
    LineBreaks(s, font, maxWidth, mode, keepIndentation, tabWidth, true)
  }

  /** Outside Word mode the scan never takes the word-break branch, so the charge variant is irrelevant. */
  lemma {:induction false} ScanChargeOnlyInWordMode(p: WrapParams, s: string, idx: nat, st: ScanState)
    requires p.mode != Word && ScanInv(s, idx, st)
    ensures Scan(p, s, idx, st) == Scan(p.(doubleCharge := false), s, idx, st)
    decreases |s| - idx
  {
    if idx < |s| {
      var st' := Step(p, s, idx, st);
      assert st' == Step(p.(doubleCharge := false), s, idx, st);
      StepKeepsInv(p, s, idx, st);
      ScanChargeOnlyInWordMode(p, s, idx + 1, st');
    }
  }

  /** The source's calculator and the corrected one agree in every mode but Word. */
  lemma AsWrittenDiffersOnlyInWordMode(s: string, font: Option<Metrics>, maxWidth: nat, mode: LineWrapMode,
                                       keepIndentation: bool, tabWidth: nat)
    requires mode != Word
    ensures ComputeLineBreaksAsWritten(s, font, maxWidth, mode, keepIndentation, tabWidth)
         == ComputeLineBreaks(s, font, maxWidth, mode, keepIndentation, tabWidth)
  {
    if |s| > 0 && font.Some? && mode != NoWrap {
      var pad := if keepIndentation then ComputeOffsets(font, s, tabWidth) else 0;
      ScanChargeOnlyInWordMode(WrapParams(font.value, maxWidth, mode, pad, tabWidth, true), s, 0, ScanState([0], 0, 0, 0));
    }
  }

  /** The scan behind both calculators; doubleCharge as in WrapParams. */
  function LineBreaks(s: string, font: Option<Metrics>, maxWidth: nat, mode: LineWrapMode,
                      keepIndentation: bool, tabWidth: nat, doubleCharge: bool): (r: WrapInfo)
    ensures WellOrderedBreaks(r.wraps)
    ensures |s| == 0 || font.None? || mode == NoWrap ==> r == WrapInfo([0], 0)
    ensures |s| > 0 ==> forall k :: 0 <= k < |r.wraps| ==> r.wraps[k] < |s|
    ensures !keepIndentation ==> r.paddingStart == 0
    ensures keepIndentation && |s| > 0 && font.Some? && mode != NoWrap ==>
              r.paddingStart == ComputeOffsets(font, s, tabWidth)
  {
    if |s| == 0 || font.None? || mode == NoWrap then WrapInfo([0], 0)
    else
      var pad := if keepIndentation then ComputeOffsets(font, s, tabWidth) else 0;
      var p := WrapParams(font.value, maxWidth, mode, pad, tabWidth, doubleCharge);
      WrapInfo(Scan(p, s, 0, ScanState([0], 0, 0, 0)), pad)
  }

  // ---------------------------------------------------------------------
  // Letter mode: rows are filled greedily
  // ---------------------------------------------------------------------

  /** Continuation rows carry the indentation padding, the first row does not. */
  function RowPad(p: WrapParams, k: nat): nat {
    if k == 0 then 0 else p.pad
  }

  /**
    The first column whose overflow is checked in row k starting at b: in
    the first row every column is checked, in later rows the first
    character is placed unconditionally.
   */
  function FirstChecked(k: nat, b: nat): nat {
    if k == 0 then 0 else b + 1
  }

  /** Row k spans [b, e): it fits, unless it holds only its unconditionally placed character. */
  ghost predicate RowFits(p: WrapParams, s: string, k: nat, b: nat, e: nat)
    requires b <= e <= |s|
  {
    e == FirstChecked(k, b) || RowPad(p, k) + RowWidth(p.metrics, s, p.tabWidth, b, e) <= p.maxWidth
  }

  /** Row k spans [b, e) and adding the character at e would overflow. */
  ghost predicate RowFull(p: WrapParams, s: string, k: nat, b: nat, e: nat)
    requires b <= e < |s|
  {
    RowPad(p, k) + RowWidth(p.metrics, s, p.tabWidth, b, e + 1) > p.maxWidth
  }

  /** Every row fits, every row but the last is full: the rows are greedy. */
  ghost predicate GreedyRows(p: WrapParams, s: string, wraps: seq<nat>)
  {
    && WellOrderedBreaks(wraps)
    && (forall k :: 0 <= k < |wraps| ==> wraps[k] < |s|)
    && (forall k :: 0 <= k < |wraps| - 1 ==>
          RowFits(p, s, k, wraps[k], wraps[k + 1]) && RowFull(p, s, k, wraps[k], wraps[k + 1]))
    && RowFits(p, s, |wraps| - 1, Last(wraps), |s|)
  }

  /** The invariant of a Letter-mode scan: completed rows are greedy, the current one fits. */
  ghost predicate LetterInv(p: WrapParams, s: string, idx: nat, st: ScanState)
  {
    && ScanInv(s, idx, st)
    && Last(st.wraps) <= idx
    && st.xoffset == RowPad(p, |st.wraps| - 1) + RowWidth(p.metrics, s, p.tabWidth, Last(st.wraps), idx)
    && RowFits(p, s, |st.wraps| - 1, Last(st.wraps), idx)
    && (forall k :: 0 <= k < |st.wraps| - 1 ==>
          RowFits(p, s, k, st.wraps[k], st.wraps[k + 1]) && RowFull(p, s, k, st.wraps[k], st.wraps[k + 1]))
  }

  lemma LetterStepKeepsInv(p: WrapParams, s: string, idx: nat, st: ScanState)
    requires p.mode == Letter
    requires idx < |s|
    requires LetterInv(p, s, idx, st)
    ensures LetterInv(p, s, idx + 1, Step(p, s, idx, st))
  {
    var st' := Step(p, s, idx, st);
    StepKeepsInv(p, s, idx, st);
    var w := CharWidth(p.metrics, s[idx], p.tabWidth);
    RowWidthStep(p.metrics, s, p.tabWidth, Last(st.wraps), idx);
    if st.xoffset + w > p.maxWidth {
      assert st'.wraps == st.wraps + [idx];
      RowWidthStep(p.metrics, s, p.tabWidth, idx, idx);
      assert RowFull(p, s, |st.wraps| - 1, Last(st.wraps), idx);
      forall k | 0 <= k < |st'.wraps| - 1
        ensures RowFits(p, s, k, st'.wraps[k], st'.wraps[k + 1]) && RowFull(p, s, k, st'.wraps[k], st'.wraps[k + 1])
      {
        if k < |st.wraps| - 1 {
          assert st'.wraps[k] == st.wraps[k] && st'.wraps[k + 1] == st.wraps[k + 1];
        } else {
          assert st'.wraps[k] == Last(st.wraps) && st'.wraps[k + 1] == idx;
        }
      }
    } else {
      assert st'.wraps == st.wraps;
    }
  }

  lemma {:induction false} LetterScanGreedy(p: WrapParams, s: string, idx: nat, st: ScanState)
    requires p.mode == Letter
    requires LetterInv(p, s, idx, st)
    ensures GreedyRows(p, s, Scan(p, s, idx, st))
    decreases |s| - idx
  {
    if idx < |s| {
      LetterStepKeepsInv(p, s, idx, st);
      LetterScanGreedy(p, s, idx + 1, Step(p, s, idx, st));
    }
  }

  /**
    In Letter mode each row is as long as it can be: every row fits within
    maxWidth (a continuation row counting its padding) unless it holds a
    single character, and every row but the last would overflow with the
    next character. The source's calculator gives the same breaks there.
   */
  lemma LetterWrapIsGreedy(s: string, m: Metrics, maxWidth: nat, keepIndentation: bool, tabWidth: nat)
    requires |s| > 0
    ensures var r := ComputeLineBreaks(s, Some(m), maxWidth, Letter, keepIndentation, tabWidth);
            GreedyRows(WrapParams(m, maxWidth, Letter, r.paddingStart, tabWidth, false), s, r.wraps)
    ensures ComputeLineBreaksAsWritten(s, Some(m), maxWidth, Letter, keepIndentation, tabWidth)
         == ComputeLineBreaks(s, Some(m), maxWidth, Letter, keepIndentation, tabWidth)
  {
    var pad := if keepIndentation then ComputeOffsets(Some(m), s, tabWidth) else 0;
    var p := WrapParams(m, maxWidth, Letter, pad, tabWidth, false);
    RowWidthEmpty(m, s, tabWidth, 0);
    LetterScanGreedy(p, s, 0, ScanState([0], 0, 0, 0));
    AsWrittenDiffersOnlyInWordMode(s, Some(m), maxWidth, Letter, keepIndentation, tabWidth);
  }

  // ---------------------------------------------------------------------
  // Word mode falls back to Letter mode without break opportunities
  // ---------------------------------------------------------------------

  lemma {:induction false} WordScanIsLetterScan(p: WrapParams, s: string, idx: nat, st: ScanState)
    requires p.mode == Word
    requires ScanInv(s, idx, st)
    requires st.lastSpace == 0
    requires forall i :: idx <= i < |s| && i > 0 ==> !IsBreakOpportunity(s[i])
    ensures Scan(p, s, idx, st) == Scan(p.(mode := Letter), s, idx, st)
    decreases |s| - idx
  {
    if idx < |s| {
      assert Step(p, s, idx, st) == Step(p.(mode := Letter), s, idx, st);
      StepKeepsInv(p, s, idx, st);
      WordScanIsLetterScan(p, s, idx + 1, Step(p, s, idx, st));
    }
  }

  /**
    A word break needs a remembered break opportunity after column 0, so a
    line without spaces, dots, dashes or commas (after its first character)
    wraps in Word mode exactly as in Letter mode, with either calculator.
   */
  lemma WordWithoutOpportunitiesIsLetter(s: string, m: Metrics, maxWidth: nat, keepIndentation: bool, tabWidth: nat)
    requires forall i :: 0 < i < |s| ==> !IsBreakOpportunity(s[i])
    ensures ComputeLineBreaks(s, Some(m), maxWidth, Word, keepIndentation, tabWidth)
         == ComputeLineBreaks(s, Some(m), maxWidth, Letter, keepIndentation, tabWidth)
    ensures ComputeLineBreaksAsWritten(s, Some(m), maxWidth, Word, keepIndentation, tabWidth)
         == ComputeLineBreaksAsWritten(s, Some(m), maxWidth, Letter, keepIndentation, tabWidth)
  {
    if |s| > 0 {
      var pad := if keepIndentation then ComputeOffsets(Some(m), s, tabWidth) else 0;
      WordScanIsLetterScan(WrapParams(m, maxWidth, Word, pad, tabWidth, false), s, 0, ScanState([0], 0, 0, 0));
      WordScanIsLetterScan(WrapParams(m, maxWidth, Word, pad, tabWidth, true), s, 0, ScanState([0], 0, 0, 0));
    }
  }
}
