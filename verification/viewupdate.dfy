/**
  Bringing the view cache up to date after an edit that turned lines
  from .. to of the document into lines from .. to+n. The rows of the old
  lines are cut out, the rows after them move n lines down together with
  the declared and folded regions that start at or after the edit, the
  new lines' rows and paddings are inserted, the line table is resized to
  the new line count, and a scan over the rows from the edit on records
  the row each line starts at.

  UpdateCacheAsWritten scans as the source does: every row at column 0
  records its line, and the lines after the last row are never visited.
  UpdateCache records only the first row of a line and hides the lines
  after the last row; UpdateCacheIsRebuild proves that it leaves the
  cache a full rebuild would build.
 */
module ViewUpdate {
  import opened Common
  import opened LineWrap
  import opened Folding
  import opened DocView
  import opened ViewFolding

  // ---------------------------------------------------------------------
  // The edit
  // ---------------------------------------------------------------------

  /** The lines of a document after lines from .. to were turned into lines from .. to+n (a text change always leaves line from in place): all others are unchanged. */
  ghost predicate EditedLines(before: seq<string>, after: seq<string>, from: nat, to: nat, n: int) {
    && from <= to < |before|
    && from <= to + n
    && |after| == |before| + n
    && (forall i :: 0 <= i < from ==> after[i] == before[i])
    && (forall i :: to < i < |before| ==> after[i + n] == before[i])
  }

  /** The same for line shapes: lines before the edit keep their shape, lines after it keep theirs n lines further on. */
  ghost predicate EditIsLocal(sh: seq<LineShape>, sh2: seq<LineShape>, from: nat, to: nat, n: int) {
    && from <= to < |sh|
    && from <= to + n
    && |sh2| == |sh| + n
    && (forall i :: 0 <= i < from ==> sh2[i] == sh[i])
    && (forall i :: to < i < |sh| ==> sh2[i + n] == sh[i])
  }

  /** Rows moved n lines down (up when n is negative), columns unchanged. */
  function ShiftRows(rows: seq<Pos>, n: int): (r: seq<Pos>)
    ensures |r| == |rows|
    ensures forall k :: 0 <= k < |rows| ==> r[k] == Pos(rows[k].line + n, rows[k].column)
  {
    seq(|rows|, k requires 0 <= k < |rows| => Pos(rows[k].line + n, rows[k].column))
  }

  lemma ShiftRowsZero(rows: seq<Pos>)
    ensures ShiftRows(rows, 0) == rows
  {
  }

  lemma ShiftAppend(a: seq<Pos>, b: seq<Pos>, n: int)
    ensures ShiftRows(a + b, n) == ShiftRows(a, n) + ShiftRows(b, n)
  {
  }

  /** The rows of a line moved n lines down are the rows of a line n lines further on with the same shape. */
  lemma ShiftLineRows(sh: seq<LineShape>, sh2: seq<LineShape>, l: nat, l2: nat, n: int)
    requires l < |sh| && l2 < |sh2| && l2 == l + n && sh2[l2] == sh[l]
    ensures ShiftRows(LineRows(sh, l), n) == LineRows(sh2, l2)
  {
  }

  /** Moving the rows of one more line. */
  lemma ShiftStep(a: seq<Pos>, b: seq<Pos>, a2: seq<Pos>, b2: seq<Pos>, n: int)
    requires ShiftRows(a, n) == a2 && ShiftRows(b, n) == b2
    ensures ShiftRows(a + b, n) == a2 + b2
  {
    ShiftAppend(a, b, n);
  }

  lemma RowsBetweenLast(sh: seq<LineShape>, lo: nat, l: nat, hi: nat)
    requires lo <= l && hi == l + 1 && hi <= |sh|
    ensures RowsBetween(sh, lo, hi) == RowsBetween(sh, lo, l) + LineRows(sh, l)
  {
  }

  /** The rows of lines lo .. hi-1 moved n lines down are the rows of the same shapes n lines further on. */
  lemma {:induction false} ShiftedRowsBetween(sh: seq<LineShape>, sh2: seq<LineShape>, lo: nat, hi: nat, lo2: nat, hi2: nat, n: int)
    requires lo <= hi <= |sh| && lo2 == lo + n && hi2 == hi + n && hi2 <= |sh2|
    requires forall i :: lo <= i < hi ==> sh2[i + n] == sh[i]
    ensures ShiftRows(RowsBetween(sh, lo, hi), n) == RowsBetween(sh2, lo2, hi2)
    decreases hi - lo
  {
    if lo < hi {
      var l: nat := hi - 1;
      var l2: nat := hi2 - 1;
      ShiftedRowsBetween(sh, sh2, lo, l, lo2, l2, n);
      assert sh2[l2] == sh[l];
      ShiftLineRows(sh, sh2, l, l2, n);
      RowsBetweenLast(sh, lo, l, hi);
      RowsBetweenLast(sh2, lo2, l2, hi2);
      ShiftStep(RowsBetween(sh, lo, l), LineRows(sh, l), RowsBetween(sh2, lo2, l2), LineRows(sh2, l2), n);
    }
  }

  // ---------------------------------------------------------------------
  // Cutting out the old lines and inserting the new ones
  // ---------------------------------------------------------------------

  /** The padding the update records for a new line: its indentation width when folded, else the padding of its breaks. */
  function EditedPad(lay: Layout, i: nat): (pad: nat)
    requires i < LineCount(lay)
    ensures !Shapes(lay)[i].folded ==> pad == Shapes(lay)[i].pad
  {
    ShapesAt(lay, i);
    if IsFolded(lay.folded, i) then ComputeOffsets(lay.font, lay.doc.lines[i], lay.config.tabWidth)
    else LineInfo(lay, i).paddingStart
  }

  /** The paddings of new lines from .. last, in order. */
  function EditedPads(lay: Layout, from: nat, last: int): (r: seq<nat>)
    requires last < LineCount(lay)
    ensures |r| == if last < from then 0 else last - from + 1
    ensures forall j :: 0 <= j < |r| ==> r[j] == EditedPad(lay, from + j)
    decreases last - from
  {
    if last < from then [] else EditedPads(lay, from, last - 1) + [EditedPad(lay, last)]
  }

  /** The rows of new lines from .. last: one per break of each line the layout does not fold. */
  function EditedRows(lay: Layout, from: nat, last: int): (r: seq<Pos>)
    requires last < LineCount(lay)
    ensures from <= last + 1 ==> r == RowsBetween(Shapes(lay), from, last + 1)
  {
    if last < from then [] else RowsBetween(Shapes(lay), from, last + 1)
  }

  /** The table with the new lines from .. last that the layout folds marked Hidden, where the table has an entry for them. */
  function HideFoldedLines(table: seq<Slot>, lay: Layout, from: nat, last: int): (r: seq<Slot>)
    ensures |r| == |table|
    ensures forall i :: 0 <= i < |table| && !(from <= i <= last) ==> r[i] == table[i]
  {
    seq(|table|, i requires 0 <= i < |table| => if from <= i <= last && IsFolded(lay.folded, i) then Hidden else table[i])
  }

  /** The table resized to count entries: cut, or padded with entries for row 0, the value a resize gives new integers. */
  function Resize(table: seq<Slot>, count: nat): (r: seq<Slot>)
    ensures |r| == count
    ensures forall i :: 0 <= i < count && i < |table| ==> r[i] == table[i]
    ensures forall i :: |table| <= i < count ==> r[i] == At(0)
  {
    if count <= |table| then table[..count] else table + seq(count - |table|, _ => At(0))
  }

  /**
    What the source needs to update after an edit of lines from .. to
    into from .. to+n: the first and last edited lines have table entries
    naming rows, their paddings exist, and the new document has the new
    lines. In one-to-one mode nothing is looked up.
   */
  predicate CanUpdate(v: View, doc: Doc, from: int, to: int, n: int) {
    !IsOneToOne(v) ==>
      && 0 <= from <= to < |v.table| && to < |v.offsets|
      && v.table[from].At? && v.table[to].At?
      && 0 <= v.table[from].index <= v.table[to].index < |v.rows|
      && to + n < |doc.lines|
  }

  /** The first row of the edited lines. */
  function EditStart(v: View, from: int, to: int): (lo: nat)
    requires !IsOneToOne(v) && 0 <= from < |v.table| && v.table[from].At? && v.table[from].index >= 0
  {
    v.table[from].index
  }

  /** One past the last row of the edited lines: the end of the run of rows that starts at line to's entry. */
  function EditEnd(v: View, to: int): (hi: nat)
    requires 0 <= to < |v.table| && v.table[to].At? && 0 <= v.table[to].index < |v.rows|
    ensures v.table[to].index < hi <= |v.rows|
  {
    RunEnd(v.rows, v.table[to].index) + 1
  }

  /** The folded list after the edit: regions at or after the edit move n lines when n is not zero. */
  function EditedFolds(v: View, from: int, n: int): seq<TextRange> {
    if n != 0 then ShiftFoldingRegions(v.declared, v.folded, from, n).1 else v.folded
  }

  /**
    Every step of the update but the table scan: the old lines' rows and
    paddings are cut out, the rows after them and the regions at or after
    the edit move n lines, the new lines' rows and paddings are inserted,
    the new lines the folds hide are marked Hidden and the table is
    resized to the new line count.
   */
  function Spliced(v: View, doc: Doc, from: int, to: int, n: int): (r: View)
    requires CanUpdate(v, doc, from, to, n) && !IsOneToOne(v)
    ensures |r.table| == |doc.lines|
    ensures EditStart(v, from, to) <= |r.rows|
    ensures r.doc == Some(doc) && r.folded == EditedFolds(v, from, n)
    ensures r == v.(doc := r.doc, declared := r.declared, folded := r.folded, rows := r.rows, offsets := r.offsets, table := r.table)
    ensures r.declared.Keys == v.declared.Keys
    ensures r.rows == SpliceRows(v.rows, EditStart(v, from, to), EditEnd(v, to), EditedRows(LayoutOf(r), from, to + n), n)
  {
    var lo := EditStart(v, from, to);
    var hi := EditEnd(v, to);
    var shifted := if n != 0 then ShiftFoldingRegions(v.declared, v.folded, from, n) else (v.declared, v.folded);
    var lay := LayoutOf(v.(doc := Some(doc), folded := shifted.1));
    v.(doc := Some(doc),
       declared := shifted.0,
       folded := shifted.1,
       rows := SpliceRows(v.rows, lo, hi, EditedRows(lay, from, to + n), n),
       offsets := SpliceOffsets(v.offsets, from, to + 1, EditedPads(lay, from, to + n)),
       table := Resize(HideFoldedLines(v.table, lay, from, to + n), |doc.lines|))
  }

  /**
    Erases rows lo .. hi-1, moves the rows after them n lines (when n is
    not zero) and inserts the new rows where the erased ones were.
   */
  function SpliceRows(rows: seq<Pos>, lo: nat, hi: nat, added: seq<Pos>, n: int): (r: seq<Pos>)
    requires lo <= hi <= |rows|
    ensures r == rows[..lo] + added + ShiftRows(rows[hi..], n)
  {
    var kept := rows[..lo] + (if n != 0 then ShiftRows(rows[hi..], n) else rows[hi..]);
    ShiftRowsZero(rows[hi..]);
    InsertAt(rows[..lo], added, ShiftRows(rows[hi..], n));
    kept[..lo] + added + kept[lo..]
  }

  /** Erases the paddings of lines from .. to-1 and inserts the new lines' paddings in their place. */
  function SpliceOffsets(offsets: seq<nat>, from: nat, to: nat, added: seq<nat>): (r: seq<nat>)
    requires from <= to <= |offsets|
    ensures r == offsets[..from] + added + offsets[to..]
  {
    var kept := offsets[..from] + offsets[to..];
    InsertAt(offsets[..from], added, offsets[to..]);
    kept[..from] + added + kept[from..]
  }

  // ---------------------------------------------------------------------
  // Recomputing the line table
  // ---------------------------------------------------------------------

  /** The state of the table scan: the table so far and the line of the row that recorded last. */
  datatype TableScan = TableScan(table: seq<Slot>, prev: int)

  /** Marks the lines lo .. hi-1 that the table has Hidden. */
  function HideRange(table: seq<Slot>, lo: int, hi: int): (r: seq<Slot>)
    ensures |r| == |table|
    ensures forall i :: 0 <= i < |table| ==> r[i] == (if lo <= i < hi then Hidden else table[i])
  {
    seq(|table|, i requires 0 <= i < |table| => if lo <= i < hi then Hidden else table[i])
  }

  /** Sets line l's entry when the table has one (the source writes out of bounds otherwise). */
  function SetSlot(table: seq<Slot>, l: int, s: Slot): (r: seq<Slot>)
    ensures |r| == |table|
    ensures forall i :: 0 <= i < |table| ==> r[i] == (if i == l then s else table[i])
  {
    if 0 <= l < |table| then table[l := s] else table
  }

  /**
    Accounts for the row at visible index vi: a row at column 0 records vi
    for its line and hides the lines skipped since the line recorded last.
    With firstOnly (the corrected scan) only the first row of a line does.
   */
  function Record(st: TableScan, row: Pos, vi: nat, firstOnly: bool): (r: TableScan)
    ensures |r.table| == |st.table|
  {
    if row.column == 0 && !(firstOnly && row.line == st.prev) then
      TableScan(SetSlot(HideRange(st.table, st.prev + 1, row.line), row.line, At(vi)), row.line)
    else st
  }

  /** Runs Record over the rows in order, the first at visible index base. */
  function ScanRows(st: TableScan, rows: seq<Pos>, base: nat, firstOnly: bool): (r: TableScan)
    ensures |r.table| == |st.table|
    decreases |rows|
  {
    if |rows| == 0 then st else ScanRows(Record(st, rows[0], base, firstOnly), rows[1..], base + 1, firstOnly)
  }

  /**
    The update as the source performs it. In one-to-one mode only the
    document changes. Otherwise the scan starts at the first edited row,
    with that row's line as the line recorded last (the source reads that
    row even when none is left; the scan then does nothing), and every
    row at column 0 records its line.
   */
  function UpdateCacheAsWritten(v: View, doc: Doc, from: int, to: int, n: int): (r: View)
    requires CanUpdate(v, doc, from, to, n)
    ensures r.doc == Some(doc)
    ensures IsOneToOne(v) ==> r == v.(doc := Some(doc))
    ensures !IsOneToOne(v) ==> |r.table| == |doc.lines|
  {
    if IsOneToOne(v) then v.(doc := Some(doc))
    else
      var s := Spliced(v, doc, from, to, n);
      var lo := EditStart(v, from, to);
      var first := if lo < |s.rows| then s.rows[lo].line else from - 1;
      s.(table := ScanRows(TableScan(s.table, first), s.rows[lo..], lo, false).table)
  }

  /**
    The update with the table scan corrected: the scan starts before line
    from, records only the first row of each line, and the lines after
    the last line it recorded are hidden.
   */
  function UpdateCache(v: View, doc: Doc, from: int, to: int, n: int): (r: View)
    requires CanUpdate(v, doc, from, to, n)
    ensures r.doc == Some(doc)
    ensures IsOneToOne(v) ==> r == v.(doc := Some(doc))
    ensures !IsOneToOne(v) ==> |r.table| == |doc.lines|
    ensures r.font == v.font && r.maxWidth == v.maxWidth && r.config == v.config
    ensures r.declared.Keys == v.declared.Keys
  {
    if IsOneToOne(v) then v.(doc := Some(doc))
    else
      var s := Spliced(v, doc, from, to, n);
      var lo := EditStart(v, from, to);
      s.(table := Rescan(s.table, s.rows[lo..], from, lo, |doc.lines|))
  }

  /** The corrected scan of rows from row base on, which start at line from, followed by hiding the lines after the last one recorded. */
  function Rescan(table: seq<Slot>, rows: seq<Pos>, from: int, base: nat, count: int): (r: seq<Slot>)
    ensures |r| == |table|
  {
    var st := ScanRows(TableScan(table, from - 1), rows, base, true);
    HideRange(st.table, st.prev + 1, count)
  }

  // ---------------------------------------------------------------------
  // The corrected scan fills the table
  // ---------------------------------------------------------------------

  lemma {:induction false} ScanAppend(st: TableScan, a: seq<Pos>, b: seq<Pos>, base: nat, firstOnly: bool)
    ensures ScanRows(st, a + b, base, firstOnly) == ScanRows(ScanRows(st, a, base, firstOnly), b, base + |a|, firstOnly)
    decreases |a|
  {
    if |a| == 0 {
      assert a + b == b;
    } else {
      assert (a + b)[0] == a[0];
      assert (a + b)[1..] == a[1..] + b;
      ScanAppend(Record(st, a[0], base, firstOnly), a[1..], b, base + 1, firstOnly);
    }
  }

  /** In the corrected scan, further rows of the line recorded last change nothing. */
  lemma {:induction false} ScanSameLine(st: TableScan, rows: seq<Pos>, base: nat)
    requires forall k :: 0 <= k < |rows| ==> rows[k].line == st.prev
    ensures ScanRows(st, rows, base, true) == st
    decreases |rows|
  {
    if |rows| > 0 {
      assert rows[0].line == st.prev;
      ScanSameLine(st, rows[1..], base + 1);
    }
  }

  /** The corrected scan over the rows of a line l after an earlier line: l is recorded at its first row and the lines between are hidden. */
  lemma ScanLine(st: TableScan, l: int, w: seq<nat>, base: nat)
    requires st.prev < l && |w| >= 1 && w[0] == 0
    ensures ScanRows(st, RowsOf(l, w), base, true) ==
            TableScan(SetSlot(HideRange(st.table, st.prev + 1, l), l, At(base)), l)
  {
    var rows := RowsOf(l, w);
    var st1 := Record(st, rows[0], base, true);
    assert ScanRows(st, rows, base, true) == ScanRows(st1, rows[1..], base + 1, true);
    ScanSameLine(st1, rows[1..], base + 1);
  }

  /** The last line in lo .. hi-1 that has rows, or lo - 1 when none has. */
  function LastShown(sh: seq<LineShape>, lo: nat, hi: nat): (p: int)
    requires lo <= hi <= |sh|
    ensures lo - 1 <= p < hi
    ensures p >= lo ==> !sh[p].folded
    ensures forall j :: p < j < hi ==> sh[j].folded
    decreases hi - lo
  {
    if lo == hi then lo - 1
    else if !sh[hi - 1].folded then hi - 1
    else LastShown(sh, lo, hi - 1)
  }

  /** The table holds the expected entries for lines from .. p and t0's entries elsewhere. */
  ghost predicate ScannedUpTo(t: seq<Slot>, t0: seq<Slot>, sh: seq<LineShape>, from: nat, p: int) {
    && |t| == |t0| == |sh|
    && forall j :: 0 <= j < |t| ==> t[j] == (if from <= j <= p then ExpectedSlot(sh, j) else t0[j])
  }

  /** Recording the next line with rows, after hiding the folded lines before it, extends the expected entries to it. */
  lemma {:induction false} ScannedStep(t: seq<Slot>, t0: seq<Slot>, sh: seq<LineShape>, from: nat, p: int, l: nat)
    requires ScannedUpTo(t, t0, sh, from, p)
    requires from - 1 <= p < l < |sh| && !sh[l].folded
    requires forall j :: p < j < l ==> sh[j].folded
    ensures ScannedUpTo(SetSlot(HideRange(t, p + 1, l), l, At(|RowsBetween(sh, 0, l)|)), t0, sh, from, l)
  {
  }

  /** The corrected scan over the rows of lines from .. m-1 records the expected entries up to the last of them with rows. */
  lemma {:induction false} ScanLines(sh: seq<LineShape>, t0: seq<Slot>, from: nat, m: nat)
    requires ShapesOk(sh) && from <= m <= |sh| && |t0| == |sh|
    ensures var st := ScanRows(TableScan(t0, from - 1), RowsBetween(sh, from, m), |RowsBetween(sh, 0, from)|, true);
            st.prev == LastShown(sh, from, m) && ScannedUpTo(st.table, t0, sh, from, st.prev)
    decreases m - from
  {
    if m > from {
      var l: nat := m - 1;
      var init := TableScan(t0, from - 1);
      var base := |RowsBetween(sh, 0, from)|;
      ScanLines(sh, t0, from, l);
      var st := ScanRows(init, RowsBetween(sh, from, l), base, true);
      ScanOneMoreLine(sh, init, from, l, m, base);
      ScanNextLine(sh, t0, from, l, m, st, |RowsBetween(sh, 0, l)|);
    }
  }

  /** Scanning the rows of lines from .. l is scanning those of from .. l-1, then those of line l. */
  lemma {:induction false} ScanOneMoreLine(sh: seq<LineShape>, init: TableScan, from: nat, l: nat, m: nat, base: nat)
    requires from <= l && m == l + 1 && m <= |sh| && base == |RowsBetween(sh, 0, from)|
    ensures ScanRows(init, RowsBetween(sh, from, m), base, true) ==
            ScanRows(ScanRows(init, RowsBetween(sh, from, l), base, true), LineRows(sh, l), |RowsBetween(sh, 0, l)|, true)
  {
    RowsBetweenLast(sh, from, l, m);
    ScanAppend(init, RowsBetween(sh, from, l), LineRows(sh, l), base, true);
    RowsBetweenSplit(sh, 0, from, l);
  }

  /** The corrected scan over the rows of line l, after the lines from .. l-1 are scanned. */
  lemma {:induction false} ScanNextLine(sh: seq<LineShape>, t0: seq<Slot>, from: nat, l: nat, m: nat, st: TableScan, base: nat)
    requires ShapesOk(sh) && from <= l && m == l + 1 && m <= |sh|
    requires st.prev == LastShown(sh, from, l) && ScannedUpTo(st.table, t0, sh, from, st.prev)
    requires base == |RowsBetween(sh, 0, l)|
    ensures var st2 := ScanRows(st, LineRows(sh, l), base, true);
            st2.prev == LastShown(sh, from, m) && ScannedUpTo(st2.table, t0, sh, from, st2.prev)
  {
    if !sh[l].folded {
      assert ShapeOk(sh[l]);
      ScanLine(st, l, sh[l].wraps, base);
      ScannedStep(st.table, t0, sh, from, st.prev, l);
    }
  }

  /**
    The corrected scan over the rows of lines from on, followed by hiding
    the lines after the last one recorded, gives every line from on its
    expected entry and keeps the entries before from.
   */
  lemma {:induction false} ScanTable(sh: seq<LineShape>, t0: seq<Slot>, from: nat)
    requires ShapesOk(sh) && from <= |sh| && |t0| == |sh|
    ensures var t := Rescan(t0, RowsBetween(sh, from, |sh|), from, |RowsBetween(sh, 0, from)|, |sh|);
            && |t| == |sh|
            && (forall j :: 0 <= j < from ==> t[j] == t0[j])
            && (forall j :: from <= j < |sh| ==> t[j] == ExpectedSlot(sh, j))
  {
    ScanLines(sh, t0, from, |sh|);
  }

  // ---------------------------------------------------------------------
  // The corrected update leaves the cache a rebuild would build
  // ---------------------------------------------------------------------

  /** With no folded region touching the edited lines, the folds after the edit hide what they hid, none of the new lines, and the later lines n lines further on. */
  lemma FoldsAfterEdit(v: View, from: int, to: int, n: int)
    requires NoFoldTouches(v.folded, from, to) && from <= to && from <= to + n
    ensures var f := EditedFolds(v, from, n);
            && (forall i :: i < from ==> IsFolded(f, i) == IsFolded(v.folded, i))
            && (forall i :: from <= i <= to + n ==> !IsFolded(f, i))
            && (forall i :: i > to + n ==> IsFolded(f, i) == IsFolded(v.folded, i - n))
  {
    var f := EditedFolds(v, from, n);
    if n != 0 {
      assert f == ShiftFoldingRegions(map[], v.folded, from, n).1;
      forall i ensures (i < from ==> IsFolded(f, i) == IsFolded(v.folded, i))
                    && (from <= i <= to + n ==> !IsFolded(f, i))
                    && (i > to + n ==> IsFolded(f, i) == IsFolded(v.folded, i - n)) {
        ShiftedFoldedLines(v.folded, from, to, n, i);
      }
    }
  }

  /** A line's shape depends only on its text and on whether it is folded. */
  lemma SameLineSameShape(lay: Layout, lay2: Layout, i: nat, i2: nat)
    requires lay2.font == lay.font && lay2.maxWidth == lay.maxWidth && lay2.config == lay.config
    requires i < LineCount(lay) && i2 < LineCount(lay2)
    requires lay2.doc.lines[i2] == lay.doc.lines[i] && IsFolded(lay2.folded, i2) == IsFolded(lay.folded, i)
    ensures Shapes(lay2)[i2] == Shapes(lay)[i]
  {
    ShapesAt(lay, i);
    ShapesAt(lay2, i2);
    assert LineInfo(lay2, i2) == LineInfo(lay, i);
  }

  /** An edit of lines from .. to that no fold touches changes only their shapes; the new lines are not folded. */
  lemma ShapesAfterEdit(lay: Layout, lay2: Layout, from: nat, to: nat, n: int)
    requires lay2.font == lay.font && lay2.maxWidth == lay.maxWidth && lay2.config == lay.config
    requires EditedLines(lay.doc.lines, lay2.doc.lines, from, to, n)
    requires forall i :: i < from ==> IsFolded(lay2.folded, i) == IsFolded(lay.folded, i)
    requires forall i :: i > to + n ==> IsFolded(lay2.folded, i) == IsFolded(lay.folded, i - n)
    ensures EditIsLocal(Shapes(lay), Shapes(lay2), from, to, n)
  {
    forall i | 0 <= i < from ensures Shapes(lay2)[i] == Shapes(lay)[i] {
      SameLineSameShape(lay, lay2, i, i);
    }
    forall i | to < i < LineCount(lay) ensures Shapes(lay2)[i + n] == Shapes(lay)[i] {
      assert IsFolded(lay2.folded, i + n) == IsFolded(lay.folded, i);
      SameLineSameShape(lay, lay2, i, i + n);
    }
  }

  /** The new lines of an edit that no fold touches are not folded. */
  lemma EditedLinesShown(lay2: Layout, from: nat, last: int)
    requires last < LineCount(lay2)
    requires forall i :: from <= i <= last ==> !IsFolded(lay2.folded, i)
    ensures forall i :: from <= i <= last ==> !Shapes(lay2)[i].folded
  {
    forall i | from <= i <= last ensures !Shapes(lay2)[i].folded {
      ShapesAt(lay2, i);
    }
  }

  /** Inserting m at position |a| of a + c. */
  lemma InsertAt<T>(a: seq<T>, m: seq<T>, c: seq<T>)
    ensures (a + c)[..|a|] + m + (a + c)[|a|..] == a + m + c
  {
    assert (a + c)[..|a|] == a;
    assert (a + c)[|a|..] == c;
  }

  /** The rows after the edit: those before it, the new lines' rows and the later rows moved n lines are all the rows of the new shapes. */
  lemma {:induction false} RowsAfterEdit(sh: seq<LineShape>, sh2: seq<LineShape>, rows: seq<Pos>, from: nat, to: nat, n: int, m: nat, lo: nat, hi: nat)
    requires EditIsLocal(sh, sh2, from, to, n) && m == to + n + 1
    requires rows == RowsBetween(sh, 0, |sh|)
    requires lo == |RowsBetween(sh, 0, from)| && hi == |RowsBetween(sh, 0, to + 1)|
    ensures lo <= hi <= |rows| && m <= |sh2|
    ensures lo == |RowsBetween(sh2, 0, from)|
    ensures rows[..lo] + RowsBetween(sh2, from, m) + ShiftRows(rows[hi..], n) == RowsBetween(sh2, 0, |sh2|)
  {
    ThreeParts(sh, from, to + 1);
    RowsBetweenSame(sh, sh2, 0, from);
    SplicedRowList(sh, sh2, rows, from, to, n, m, lo, hi);
  }

  /** The equation of RowsAfterEdit, with the bounds it needs given. */
  lemma {:induction false} SplicedRowList(sh: seq<LineShape>, sh2: seq<LineShape>, rows: seq<Pos>, from: nat, to: nat, n: int, m: nat, lo: nat, hi: nat)
    requires EditIsLocal(sh, sh2, from, to, n) && m == to + n + 1
    requires rows == RowsBetween(sh, 0, from) + RowsBetween(sh, from, to + 1) + RowsBetween(sh, to + 1, |sh|)
    requires RowsBetween(sh, 0, from) == RowsBetween(sh2, 0, from)
    requires lo == |RowsBetween(sh, 0, from)| && hi == lo + |RowsBetween(sh, from, to + 1)|
    ensures lo <= hi <= |rows| && m <= |sh2|
    ensures rows[..lo] + RowsBetween(sh2, from, m) + ShiftRows(rows[hi..], n) == RowsBetween(sh2, 0, |sh2|)
  {
    ThreeParts(sh2, from, m);
    ShiftedTail(sh, sh2, from, to, n, m);
    SpliceParts(rows, RowsBetween(sh, 0, from), RowsBetween(sh, from, to + 1), RowsBetween(sh, to + 1, |sh|),
                RowsBetween(sh2, 0, |sh2|), RowsBetween(sh2, from, m), RowsBetween(sh2, m, |sh2|), n, lo, hi);
  }

  /** The lines after an edit keep their rows, moved by the number of lines the edit added. */
  lemma {:induction false} ShiftedTail(sh: seq<LineShape>, sh2: seq<LineShape>, from: nat, to: nat, n: int, m: nat)
    requires EditIsLocal(sh, sh2, from, to, n) && m == to + n + 1
    ensures m <= |sh2|
    ensures ShiftRows(RowsBetween(sh, to + 1, |sh|), n) == RowsBetween(sh2, m, |sh2|)
  {
    var hi2: nat := |sh2|;
    assert hi2 == |sh| + n;
    var lo: nat := to + 1;
    ShiftedRowsBetween(sh, sh2, lo, |sh|, m, hi2, n);
  }

  /** Cutting the middle part out of a + m + c, inserting m2 and moving c gives a + m2 + c2. */
  lemma {:induction false} SpliceParts(rows: seq<Pos>, a: seq<Pos>, m: seq<Pos>, c: seq<Pos>, all2: seq<Pos>, m2: seq<Pos>, c2: seq<Pos>, n: int, lo: nat, hi: nat)
    requires rows == a + m + c && ShiftRows(c, n) == c2 && all2 == a + m2 + c2
    requires lo == |a| && hi == |a| + |m|
    ensures lo <= hi <= |rows|
    ensures rows[..lo] + m2 + ShiftRows(rows[hi..], n) == all2
  {
    OuterParts(rows, a, m, c);
  }

  /** The rows of all lines, split at lines a and b. */
  lemma {:induction false} ThreeParts(sh: seq<LineShape>, a: nat, b: nat)
    requires a <= b <= |sh|
    ensures RowsBetween(sh, 0, |sh|) == RowsBetween(sh, 0, a) + RowsBetween(sh, a, b) + RowsBetween(sh, b, |sh|)
    ensures RowsBetween(sh, 0, b) == RowsBetween(sh, 0, a) + RowsBetween(sh, a, b)
  {
    RowsBetweenSplit(sh, 0, a, b);
    RowsBetweenSplit(sh, 0, b, |sh|);
  }

  lemma OuterParts<T>(all: seq<T>, a: seq<T>, m: seq<T>, c: seq<T>)
    requires all == a + m + c
    ensures all[..|a|] == a && all[|a| + |m|..] == c
  {
  }

  /** The paddings after the edit: those before it, the new lines' paddings and the later ones match the new shapes. */
  lemma {:induction false} PadsAfterEdit(sh: seq<LineShape>, sh2: seq<LineShape>, offsets: seq<nat>, pads: seq<nat>, from: nat, to: nat, n: int)
    requires EditIsLocal(sh, sh2, from, to, n)
    requires |offsets| == |sh| && forall i :: 0 <= i < |sh| && !sh[i].folded ==> offsets[i] == sh[i].pad
    requires |pads| == to + n + 1 - from
    requires forall j :: 0 <= j < |pads| && !sh2[from + j].folded ==> pads[j] == sh2[from + j].pad
    ensures var o := offsets[..from] + pads + offsets[to + 1..];
            |o| == |sh2| && forall i :: 0 <= i < |sh2| && !sh2[i].folded ==> o[i] == sh2[i].pad
  {
    var o := offsets[..from] + pads + offsets[to + 1..];
    forall i | 0 <= i < |sh2| && !sh2[i].folded ensures o[i] == sh2[i].pad {
      if i < from {
        assert o[i] == offsets[i];
      } else if i <= to + n {
        assert o[i] == pads[i - from];
        assert sh2[from + (i - from)] == sh2[i];
      } else {
        assert o[i] == offsets[i - n];
        assert sh2[i - n + n] == sh[i - n];
      }
    }
  }

  /** Entries before the edit are the same for the old and the new shapes. */
  lemma ExpectedBeforeEdit(sh: seq<LineShape>, sh2: seq<LineShape>, from: nat, j: nat)
    requires j < from <= |sh| && from <= |sh2|
    requires forall i :: 0 <= i < from ==> sh2[i] == sh[i]
    ensures ExpectedSlot(sh2, j) == ExpectedSlot(sh, j)
  {
    RowsBetweenSame(sh, sh2, 0, j);
  }

  /** The first and last edited lines of an edit no fold touches are visible, and their rows are where the shapes put them. */
  lemma EditBounds(v: View, doc: Doc, from: nat, to: nat, n: int)
    requires Consistent(v) && !IsOneToOne(v)
    requires EditedLines(v.doc.value.lines, doc.lines, from, to, n)
    requires NoFoldTouches(v.folded, from, to)
    ensures CanUpdate(v, doc, from, to, n)
    ensures var sh := Shapes(LayoutOf(v));
            && EditStart(v, from, to) == |RowsBetween(sh, 0, from)|
            && EditEnd(v, to) == |RowsBetween(sh, 0, to + 1)|
  {
    var lay := LayoutOf(v);
    var sh := Shapes(lay);
    ShapesAreOk(lay);
    assert !IsFolded(v.folded, from) && !IsFolded(v.folded, to);
    UnfoldedShape(lay, from);
    UnfoldedShape(lay, to);
    BlockFacts(sh, v.rows, to);
    RowsBetweenGrows(sh, 0, from, to);
    assert RowsBetween(sh, 0, to + 1) == RowsBetween(sh, 0, to) + RowsOf(to, sh[to].wraps);
  }

  /** A splice whose inserted rows and moved tail complete a known row list yields that list. */
  lemma SpliceGives(rows: seq<Pos>, lo: nat, hi: nat, added: seq<Pos>, n: int, whole: seq<Pos>)
    requires lo <= hi <= |rows|
    requires rows[..lo] + added + ShiftRows(rows[hi..], n) == whole
    ensures SpliceRows(rows, lo, hi, added, n) == whole
  {
  }

  /** The splice's paddings are built on the layout of the view it returns. */
  lemma SplicedOffsets(v: View, doc: Doc, from: nat, to: nat, n: int)
    requires CanUpdate(v, doc, from, to, n) && !IsOneToOne(v)
    requires from <= to && to + n < |doc.lines|
    ensures to + 1 <= |v.offsets|
    ensures var s := Spliced(v, doc, from, to, n);
            s.offsets == v.offsets[..from] + EditedPads(LayoutOf(s), from, to + n) + v.offsets[to + 1..]
  {
    var s := Spliced(v, doc, from, to, n);
    assert LayoutOf(v.(doc := Some(doc), folded := s.folded)) == LayoutOf(s);
  }

  lemma EditedRowsAre(lay: Layout, from: nat, last: int, m: nat)
    requires m == last + 1 && from <= m <= LineCount(lay)
    ensures EditedRows(lay, from, last) == RowsBetween(Shapes(lay), from, m)
  {
  }

  /** After a local edit the new shapes differ from the old ones only on the edited lines. */
  lemma SplicedShapes(v: View, doc: Doc, from: nat, to: nat, n: int)
    requires Consistent(v) && !IsOneToOne(v)
    requires EditedLines(v.doc.value.lines, doc.lines, from, to, n)
    requires NoFoldTouches(v.folded, from, to)
    ensures CanUpdate(v, doc, from, to, n)
    ensures EditIsLocal(Shapes(LayoutOf(v)), Shapes(LayoutOf(Spliced(v, doc, from, to, n))), from, to, n)
  {
    EditBounds(v, doc, from, to, n);
    var s := Spliced(v, doc, from, to, n);
    FoldsAfterEdit(v, from, to, n);
    ShapesAfterEdit(LayoutOf(v), LayoutOf(s), from, to, n);
  }

  /** Splicing the block the new shapes call for over the edited rows gives the rows of the new shapes. */
  lemma SpliceOverEdit(sh: seq<LineShape>, sh2: seq<LineShape>, rows: seq<Pos>, added: seq<Pos>, spliced: seq<Pos>, from: nat, to: nat, n: int, lo: nat, hi: nat)
    requires EditIsLocal(sh, sh2, from, to, n)
    requires rows == RowsBetween(sh, 0, |sh|)
    requires lo == |RowsBetween(sh, 0, from)| && hi == |RowsBetween(sh, 0, to + 1)|
    requires lo <= hi <= |rows| && to + n < |sh2|
    requires added == RowsBetween(sh2, from, to + n + 1)
    requires spliced == SpliceRows(rows, lo, hi, added, n)
    ensures spliced == RowsBetween(sh2, 0, |sh2|)
    ensures lo == |RowsBetween(sh2, 0, from)|
  {
    RowsAfterEdit(sh, sh2, rows, from, to, n, to + n + 1, lo, hi);
    SpliceGives(rows, lo, hi, added, n, RowsBetween(sh2, 0, |sh2|));
  }

  /** The rows the splice leaves are the ones the new shapes call for. */
  lemma SplicedRows(v: View, doc: Doc, from: nat, to: nat, n: int)
    requires Consistent(v) && !IsOneToOne(v)
    requires EditedLines(v.doc.value.lines, doc.lines, from, to, n)
    requires NoFoldTouches(v.folded, from, to)
    ensures CanUpdate(v, doc, from, to, n)
    ensures var sh2 := Shapes(LayoutOf(Spliced(v, doc, from, to, n)));
            && Spliced(v, doc, from, to, n).rows == RowsBetween(sh2, 0, |sh2|)
            && EditStart(v, from, to) == |RowsBetween(sh2, 0, from)|
  {
    EditBounds(v, doc, from, to, n);
    SplicedShapes(v, doc, from, to, n);
    var s := Spliced(v, doc, from, to, n);
    RowsOfSplice(Shapes(LayoutOf(v)), LayoutOf(s), v.rows, s.rows, from, to, n, EditStart(v, from, to), EditEnd(v, to));
  }

  /** The same, for any row list spliced from the edited lines' rows of a layout whose shapes differ from the old ones only on the edit. */
  lemma RowsOfSplice(sh: seq<LineShape>, lay2: Layout, rows: seq<Pos>, spliced: seq<Pos>, from: nat, to: nat, n: int, lo: nat, hi: nat)
    requires EditIsLocal(sh, Shapes(lay2), from, to, n)
    requires rows == RowsBetween(sh, 0, |sh|)
    requires lo == |RowsBetween(sh, 0, from)| && hi == |RowsBetween(sh, 0, to + 1)|
    requires lo <= hi <= |rows| && to + n < LineCount(lay2)
    requires spliced == SpliceRows(rows, lo, hi, EditedRows(lay2, from, to + n), n)
    ensures spliced == RowsBetween(Shapes(lay2), 0, |Shapes(lay2)|)
    ensures lo == |RowsBetween(Shapes(lay2), 0, from)|
  {
    EditedRowsAre(lay2, from, to + n, to + n + 1);
    SpliceOverEdit(sh, Shapes(lay2), rows, EditedRows(lay2, from, to + n), spliced, from, to, n, lo, hi);
  }

  /** The paddings the splice leaves are the ones the new shapes call for on every shown line. */
  lemma SplicedPads(v: View, doc: Doc, from: nat, to: nat, n: int)
    requires Consistent(v) && !IsOneToOne(v)
    requires EditedLines(v.doc.value.lines, doc.lines, from, to, n)
    requires NoFoldTouches(v.folded, from, to)
    ensures CanUpdate(v, doc, from, to, n)
    ensures var s := Spliced(v, doc, from, to, n);
            var sh2 := Shapes(LayoutOf(s));
            && |s.offsets| == |sh2|
            && forall i :: 0 <= i < |sh2| && !sh2[i].folded ==> s.offsets[i] == sh2[i].pad
  {
    EditBounds(v, doc, from, to, n);
    SplicedShapes(v, doc, from, to, n);
    SplicedOffsets(v, doc, from, to, n);
    var s := Spliced(v, doc, from, to, n);
    var lay2 := LayoutOf(s);
    PadsAfterEdit(Shapes(LayoutOf(v)), Shapes(lay2), v.offsets, EditedPads(lay2, from, to + n), from, to, n);
  }

  /** The rows and paddings the splice leaves are the ones the new shapes call for. */
  lemma SplicedRowsAndPads(v: View, doc: Doc, from: nat, to: nat, n: int)
    requires Consistent(v) && !IsOneToOne(v)
    requires EditedLines(v.doc.value.lines, doc.lines, from, to, n)
    requires NoFoldTouches(v.folded, from, to)
    ensures CanUpdate(v, doc, from, to, n)
    ensures var s := Spliced(v, doc, from, to, n);
            var sh2 := Shapes(LayoutOf(s));
            && EditIsLocal(Shapes(LayoutOf(v)), sh2, from, to, n)
            && s.rows == RowsBetween(sh2, 0, |sh2|)
            && EditStart(v, from, to) == |RowsBetween(sh2, 0, from)|
            && |s.offsets| == |sh2|
            && forall i :: 0 <= i < |sh2| && !sh2[i].folded ==> s.offsets[i] == sh2[i].pad
  {
    SplicedShapes(v, doc, from, to, n);
    SplicedRows(v, doc, from, to, n);
    SplicedPads(v, doc, from, to, n);
  }

  /** The table the splice leaves keeps the entries before the edit. */
  lemma SplicedTableBefore(v: View, doc: Doc, from: nat, to: nat, n: int)
    requires CanUpdate(v, doc, from, to, n) && !IsOneToOne(v) && from <= |doc.lines|
    ensures forall j :: 0 <= j < from ==> Spliced(v, doc, from, to, n).table[j] == v.table[j]
  {
  }

  /** Scanning the rows from line from on, in a row list that matches the shapes, fills the table from line from on. */
  lemma ScanMatchingRows(sh: seq<LineShape>, rows: seq<Pos>, t0: seq<Slot>, from: nat, lo: nat)
    requires ShapesOk(sh) && from <= |sh| && |t0| == |sh|
    requires rows == RowsBetween(sh, 0, |sh|) && lo == |RowsBetween(sh, 0, from)|
    ensures lo <= |rows|
    ensures var t := Rescan(t0, rows[lo..], from, lo, |sh|);
            && |t| == |sh|
            && (forall j :: 0 <= j < from ==> t[j] == t0[j])
            && (forall j :: from <= j < |sh| ==> t[j] == ExpectedSlot(sh, j))
  {
    RowsBetweenSplit(sh, 0, from, |sh|);
    assert rows[lo..] == RowsBetween(sh, from, |sh|);
    ScanTable(sh, t0, from);
  }

  /** The entries the splice keeps, those of the lines before the edit, are the ones the new shapes call for. */
  lemma SplicedTableExpected(v: View, doc: Doc, from: nat, to: nat, n: int)
    requires Consistent(v) && !IsOneToOne(v)
    requires EditedLines(v.doc.value.lines, doc.lines, from, to, n)
    requires NoFoldTouches(v.folded, from, to)
    ensures CanUpdate(v, doc, from, to, n)
    ensures var s := Spliced(v, doc, from, to, n);
            var sh2 := Shapes(LayoutOf(s));
            forall j :: 0 <= j < from ==> s.table[j] == ExpectedSlot(sh2, j)
  {
    SplicedShapes(v, doc, from, to, n);
    SplicedTableBefore(v, doc, from, to, n);
    var s := Spliced(v, doc, from, to, n);
    var sh := Shapes(LayoutOf(v));
    var sh2 := Shapes(LayoutOf(s));
    forall j | 0 <= j < from ensures s.table[j] == ExpectedSlot(sh2, j) {
      ExpectedBeforeEdit(sh, sh2, from, j);
    }
  }

  /** The table after the corrected scan holds the entries the new shapes call for. */
  lemma UpdatedTable(v: View, doc: Doc, from: nat, to: nat, n: int)
    requires Consistent(v) && !IsOneToOne(v)
    requires EditedLines(v.doc.value.lines, doc.lines, from, to, n)
    requires NoFoldTouches(v.folded, from, to)
    ensures CanUpdate(v, doc, from, to, n)
    ensures var u := UpdateCache(v, doc, from, to, n);
            var sh2 := Shapes(LayoutOf(Spliced(v, doc, from, to, n)));
            |u.table| == |sh2| && forall j :: 0 <= j < |sh2| ==> u.table[j] == ExpectedSlot(sh2, j)
  {
    SplicedRows(v, doc, from, to, n);
    SplicedTableExpected(v, doc, from, to, n);
    var s := Spliced(v, doc, from, to, n);
    var sh2 := Shapes(LayoutOf(s));
    var lo := EditStart(v, from, to);
    assert |sh2| == |doc.lines|;
    ShapesAreOk(LayoutOf(s));
    ScanMatchingRows(sh2, s.rows, s.table, from, lo);
  }

  /**
    After an edit of lines from .. to into from .. to+n that no folded
    region touches, the corrected update leaves a consistent cache: the
    rows, paddings and line table the new document, settings and shifted
    folds call for, which are the rows and table a rebuild produces.
   */
  lemma UpdateCacheIsRebuild(v: View, doc: Doc, from: nat, to: nat, n: int)
    requires Consistent(v) && !IsOneToOne(v)
    requires EditedLines(v.doc.value.lines, doc.lines, from, to, n)
    requires NoFoldTouches(v.folded, from, to)
    ensures CanUpdate(v, doc, from, to, n)
    ensures var u := UpdateCache(v, doc, from, to, n);
            && Consistent(u)
            && (Ready(u) ==> u.rows == Rebuild(u).rows && u.table == Rebuild(u).table)
  {
    SplicedRowsAndPads(v, doc, from, to, n);
    UpdatedTable(v, doc, from, to, n);
    var s := Spliced(v, doc, from, to, n);
    var u := UpdateCache(v, doc, from, to, n);
    var sh2 := Shapes(LayoutOf(s));
    assert LayoutOf(u) == LayoutOf(s);
    MatchesFromParts(sh2, u.rows, u.offsets, u.table);
    if Ready(u) {
      var b := Rebuild(u);
      assert LayoutOf(b) == LayoutOf(u);
      MatchingCachesAgree(sh2, u.rows, u.offsets, u.table, b.rows, b.offsets, b.table);
    }
  }
}
