/**
  Two small views on which the line-table scan of the update, as the
  source performs it, leaves a cache that no longer matches the layout,
  while the corrected update gives the table a rebuild would.
 */
module UpdateCounterexamples {
  import opened Common
  import opened LineWrap
  import opened Folding
  import opened DocView
  import opened ViewUpdate

  const WideGlyph := Metrics(map['a' := 2], 1)

  /** One line whose only glyph is wider than the view, wrapped by letters. */
  const WideGlyphView := View(Some(Doc(["a\n"], false)), Some(WideGlyph), 1, Config(Letter, Viewport, 4, false),
                              [], [], [], map[], [], false)

  /** Letter wrapping breaks a line whose first glyph does not fit before that glyph too: two rows at column 0. */
  lemma WideGlyphBreaks()
    ensures ComputeLineBreaksAsWritten("a", Some(WideGlyph), 1, Letter, false, 4).wraps == [0, 0]
  {
    var p := WrapParams(WideGlyph, 1, Letter, 0, 4, true);
    var st := Step(p, "a", 0, ScanState([0], 0, 0, 0));
    assert st.wraps == [0, 0];
  }

  /** The cache a rebuild gives that view: two rows at column 0 of line 0. */
  const WideGlyphCache := WideGlyphView.(rows := [Pos(0, 0), Pos(0, 0)], offsets := [0], table := [At(0)])

  lemma WideGlyphShapes()
    ensures Shapes(LayoutOf(WideGlyphView)) == [LineShape(false, [0, 0], 0)]
  {
    var lay := LayoutOf(WideGlyphView);
    WideGlyphBreaks();
    assert LineText(lay.doc, 0) == "a";
    ShapesAt(lay, 0);
  }

  lemma WideGlyphRebuild()
    ensures Rebuild(WideGlyphView) == WideGlyphCache
  {
    WideGlyphShapes();
    var sh := Shapes(LayoutOf(WideGlyphView));
    assert RowsBetween(sh, 0, 1) == [Pos(0, 0), Pos(0, 0)];
  }

  lemma WideGlyphUpdateAsWritten()
    ensures var v := WideGlyphCache;
            var doc := v.doc.value;
            && CanUpdate(v, doc, 0, 0, 0)
            && UpdateCacheAsWritten(v, doc, 0, 0, 0).table == [At(1)]
  {
    var v := WideGlyphCache;
    var doc := v.doc.value;
    WideGlyphShapes();
    var s := Spliced(v, doc, 0, 0, 0);
    assert LayoutOf(s) == LayoutOf(WideGlyphView);
    assert s.rows == [Pos(0, 0), Pos(0, 0)];
    assert s.table == [At(0)];
  }

  /**
    Refreshing the rebuilt cache of that view after an edit that changes
    nothing: the update as written records line 0 at its second row, so
    the cache no longer matches the layout; the corrected update keeps
    row 0.
   */
  lemma WideGlyphUpdateIsStale()
    ensures var v := Rebuild(WideGlyphView);
            var doc := v.doc.value;
            && Consistent(v) && !IsOneToOne(v)
            && EditedLines(doc.lines, doc.lines, 0, 0, 0) && NoFoldTouches(v.folded, 0, 0)
            && CanUpdate(v, doc, 0, 0, 0)
            && UpdateCacheAsWritten(v, doc, 0, 0, 0).table == [At(1)]
            && !Consistent(UpdateCacheAsWritten(v, doc, 0, 0, 0))
            && UpdateCache(v, doc, 0, 0, 0).table == [At(0)]
  {
    WideGlyphRebuild();
    WideGlyphUpdateAsWritten();
    WideGlyphShapes();
    var v := WideGlyphCache;
    var doc := v.doc.value;
    var u := UpdateCacheAsWritten(v, doc, 0, 0, 0);
    assert LayoutOf(u) == LayoutOf(WideGlyphView);
    assert ExpectedSlot(Shapes(LayoutOf(u)), 0) == At(0);
    UpdateCacheIsRebuild(v, doc, 0, 0, 0);
    var c := UpdateCache(v, doc, 0, 0, 0);
    assert LayoutOf(c) == LayoutOf(WideGlyphView);
  }

  const LastLine := TextRange(Pos(1, 0), Pos(1, 1))

  /** Two lines without wrapping, the second folded. */
  const FoldedTailView := View(Some(Doc(["a\n", "b\n"], false)), None, 1, Config(NoWrap, Viewport, 4, false),
                               [], [], [], map[1 := LastLine], [LastLine], false)

  /** The cache a rebuild gives that view: one row, line 1 hidden. */
  const FoldedTailCache := FoldedTailView.(rows := [Pos(0, 0)], offsets := [0, 0], table := [At(0), Hidden])

  /** The document after a line is inserted above line 0. */
  const InsertedAbove := Doc(["x\n", "a\n", "b\n"], false)

  lemma FoldedTailShapes()
    ensures Shapes(LayoutOf(FoldedTailView)) == [LineShape(false, [0], 0), LineShape(true, [0], 0)]
  {
    var lay := LayoutOf(FoldedTailView);
    ShapesAt(lay, 0);
    ShapesAt(lay, 1);
  }

  lemma FoldedTailRebuild()
    ensures Rebuild(FoldedTailView) == FoldedTailCache
  {
    FoldedTailShapes();
    var sh := Shapes(LayoutOf(FoldedTailView));
    assert RowsBetween(sh, 0, 2) == [Pos(0, 0)];
  }

  /** The layout after the insertion: the fold has moved to line 2. */
  lemma InsertedAboveShapes(s: View)
    requires s.doc == Some(InsertedAbove) && s.font == None && s.config == FoldedTailView.config
    requires s.folded == [TextRange(Pos(2, 0), Pos(2, 1))]
    ensures Shapes(LayoutOf(s)) == [LineShape(false, [0], 0), LineShape(false, [0], 0), LineShape(true, [0], 0)]
  {
    var lay := LayoutOf(s);
    ShapesAt(lay, 0);
    ShapesAt(lay, 1);
    ShapesAt(lay, 2);
  }

  lemma FoldedTailUpdateAsWritten()
    ensures var v := FoldedTailCache;
            && CanUpdate(v, InsertedAbove, 0, 0, 1)
            && UpdateCacheAsWritten(v, InsertedAbove, 0, 0, 1).table == [At(0), At(1), At(0)]
  {
    var v := FoldedTailCache;
    var s := Spliced(v, InsertedAbove, 0, 0, 1);
    assert s.folded == [TextRange(Pos(2, 0), Pos(2, 1))];
    InsertedAboveShapes(s);
    assert RowsBetween(Shapes(LayoutOf(s)), 0, 2) == [Pos(0, 0), Pos(1, 0)];
    assert s.rows == [Pos(0, 0), Pos(1, 0)];
    assert s.table == [At(0), Hidden, At(0)];
    var st0 := TableScan(s.table, 0);
    var st1 := Record(st0, Pos(0, 0), 0, false);
    assert st1.table == [At(0), Hidden, At(0)];
    var st2 := Record(st1, Pos(1, 0), 1, false);
    assert st2.table == [At(0), At(1), At(0)];
    assert s.rows[0..] == [Pos(0, 0)] + [Pos(1, 0)];
    assert ScanRows(st1, [Pos(1, 0)], 1, false) == st2;
  }

  /**
    Inserting a line above the rebuilt cache of that view: the update as
    written leaves line 2, now the folded one, at row 0 instead of Hidden,
    so the cache no longer matches the layout; the corrected update hides it.
   */
  lemma FoldedTailUpdateIsStale()
    ensures var v := Rebuild(FoldedTailView);
            && Consistent(v) && !IsOneToOne(v)
            && EditedLines(v.doc.value.lines, InsertedAbove.lines, 0, 0, 1) && NoFoldTouches(v.folded, 0, 0)
            && CanUpdate(v, InsertedAbove, 0, 0, 1)
            && UpdateCacheAsWritten(v, InsertedAbove, 0, 0, 1).table == [At(0), At(1), At(0)]
            && !Consistent(UpdateCacheAsWritten(v, InsertedAbove, 0, 0, 1))
            && UpdateCache(v, InsertedAbove, 0, 0, 1).table == [At(0), At(1), Hidden]
  {
    FoldedTailRebuild();
    FoldedTailUpdateAsWritten();
    var v := FoldedTailCache;
    var u := UpdateCacheAsWritten(v, InsertedAbove, 0, 0, 1);
    InsertedAboveShapes(u);
    assert ExpectedSlot(Shapes(LayoutOf(u)), 2) == Hidden;
    FoldedTailUpdateFixed();
  }

  /** The corrected update of the same edit gives the table of the new layout. */
  lemma FoldedTailUpdateFixed()
    ensures CanUpdate(FoldedTailCache, InsertedAbove, 0, 0, 1)
    ensures UpdateCache(FoldedTailCache, InsertedAbove, 0, 0, 1).table == [At(0), At(1), Hidden]
  {
    FoldedTailCacheEditable();
    var v := FoldedTailCache;
    UpdateCacheIsRebuild(v, InsertedAbove, 0, 0, 1);
    var c := UpdateCache(v, InsertedAbove, 0, 0, 1);
    InsertedAboveShapes(c);
    var sh := Shapes(LayoutOf(c));
    InsertedAboveSlots(sh);
    assert c.table == [ExpectedSlot(sh, 0), ExpectedSlot(sh, 1), ExpectedSlot(sh, 2)];
  }

  /** The rebuilt cache of that view meets what the corrected update asks of an insertion above line 0. */
  lemma FoldedTailCacheEditable()
    ensures var v := FoldedTailCache;
            && Consistent(v) && !IsOneToOne(v)
            && EditedLines(v.doc.value.lines, InsertedAbove.lines, 0, 0, 1) && NoFoldTouches(v.folded, 0, 0)
  {
    FoldedTailRebuild();
  }

  /** The table entries the layout after the insertion calls for. */
  lemma InsertedAboveSlots(sh: seq<LineShape>)
    requires sh == [LineShape(false, [0], 0), LineShape(false, [0], 0), LineShape(true, [0], 0)]
    ensures ExpectedSlot(sh, 0) == At(0) && ExpectedSlot(sh, 1) == At(1) && ExpectedSlot(sh, 2) == Hidden
  {
    assert RowsBetween(sh, 0, 1) == [Pos(0, 0)];
  }
}
