/** How the pieces meet: the export loop feeds the loader's phrase list to
    make_grid for every card, and the overlay page wraps the text of every drawn
    cell with a cap of six lines. */
module Card {
  import opened Phrases
  import opened Grid
  import opened Text
  import opened Wrap

  /** A card built from a phrase file never repeats a phrase. */
  lemma CardDistinct(rows: seq<Row>, chosen: seq<string>, centerMode: string, freeText: string)
    requires IsSample(chosen, Dedup(Kept(rows)))
    ensures IsBoard(Layout(chosen, centerMode, freeText))
    ensures DistinctCells(Layout(chosen, centerMode, freeText))
  {
    SampleDistinct(chosen, Dedup(Kept(rows)));
    LayoutDistinct(chosen, centerMode, freeText);
  }

  /** Every non-centre cell of such a card holds the stripped first column of
      some record of the file. */
  lemma CardFromRows(rows: seq<Row>, chosen: seq<string>, centerMode: string, freeText: string)
    requires IsSample(chosen, Dedup(Kept(rows)))
    ensures var g := Layout(chosen, centerMode, freeText);
      forall r, c :: 0 <= r < 5 && 0 <= c < 5 && !IsCenter(r, c) ==>
        g[r][c].Some? && FromRows(rows, g[r][c].value)
  {
    var items := Dedup(Kept(rows));
    LayoutFromItems(items, chosen, centerMode, freeText);
    forall x | x in items ensures FromRows(rows, x) {
      KeptMembers(rows, x);
    }
  }

  /** The overlay wraps every drawn cell text with the cap of six lines: a cell
      gets [""] when its text has no words, and otherwise between one and six
      lines, the last of which fits or is a single character. */
  lemma CellLines(text: string, width: string -> nat, maxWidth: nat)
    ensures Split(text) == [] ==> Wrapped(text, width, maxWidth, CellMaxLines) == [""]
    ensures Split(text) != [] ==>
      var r := Wrapped(text, width, maxWidth, CellMaxLines);
      1 <= |r| <= 6 && (width(r[|r| - 1]) <= maxWidth || |r[|r| - 1]| <= 1)
  {
    WrappedCount(text, width, maxWidth, CellMaxLines);
    if Split(text) != [] {
      WrappedLastFits(text, width, maxWidth, CellMaxLines);
    }
  }
}
