/** The 5x5 bingo grid (make_grid) and the rule that decides which of its cells
    the overlay page draws (make_overlay_page_pdf). */
module Grid {
  import opened Seqs

  datatype Option<T> = None | Some(value: T)

  /** A grid cell: a phrase, or None for "leave the template alone". */
  type Cell = Option<string>

  /** Rows top to bottom, each row's cells left to right. */
  type Board = seq<seq<Cell>>

  datatype Error = InsufficientItems(needed: nat, got: nat)

  datatype Result<T> = Ok(value: T) | Err(error: Error)

  /** Phrases a card needs: every cell but the reserved centre. */
  const Needed: nat := 24

  predicate IsCenter(r: int, c: int) {
    r == 2 && c == 2
  }

  predicate IsBoard(g: Board) {
    |g| == 5 && forall r :: 0 <= r < 5 ==> |g[r]| == 5
  }

  /** How many non-centre cells precede (r, c) in row-major order, which is the
      position in the sample of the phrase that fills (r, c). */
  function SampleIndex(r: nat, c: nat): nat {
    if 5 * r + c <= 12 then 5 * r + c else 5 * r + c - 1
  }

  /** The centre cell: the placeholder text in "free" mode, None in any other. */
  function CenterCell(centerMode: string, freeText: string): Cell {
    if centerMode == "free" then Some(freeText) else None
  }

  /** `chosen` is what rng.sample(items, 24) may return: 24 entries drawn without
      replacement from the positions of `items`. */
  predicate IsSample(chosen: seq<string>, items: seq<string>) {
    |chosen| == Needed && multiset(chosen) <= multiset(items)
  }

  /** The grid make_grid builds from the sample. */
  function Layout(chosen: seq<string>, centerMode: string, freeText: string): Board
    requires |chosen| == Needed
  {
    seq(5, r requires 0 <= r < 5 => seq(5, c requires 0 <= c < 5 =>
      if IsCenter(r, c) then CenterCell(centerMode, freeText) else Some(chosen[SampleIndex(r, c)])))
  }

  /** The cells read row by row, skipping the centre. */
  function NonCenterCells(g: Board): (cells: seq<Cell>)
    requires IsBoard(g)
    ensures |cells| == Needed
  {
    seq(Needed, k requires 0 <= k < Needed =>
      var p := if k < 12 then k else k + 1;
      g[p / 5][p % 5])
  }

  /** make_grid: fails exactly when fewer than 24 items are available; otherwise
      fills the grid row by row from the sample, skipping the centre. */
  method MakeGrid(items: seq<string>, chosen: seq<string>, centerMode: string, freeText: string)
    returns (res: Result<Board>)
    requires |items| >= Needed ==> IsSample(chosen, items)
    ensures res.Err? <==> |items| < Needed
    ensures res.Err? ==> res.error == InsufficientItems(Needed, |items|)
    ensures res.Ok? ==> res.value == Layout(chosen, centerMode, freeText)
  {
    var needed := Needed;
    if |items| < needed {
      return Err(InsufficientItems(needed, |items|));
    }
    var grid: Board := seq(5, _ => seq(5, _ => None));
    var idx := 0;
    for r := 0 to 5
      invariant IsBoard(grid)
      invariant idx == SampleIndex(r, 0)
      invariant forall i, j :: 0 <= i < r && 0 <= j < 5 ==>
        grid[i][j] == Layout(chosen, centerMode, freeText)[i][j]
    {
      for c := 0 to 5
        invariant IsBoard(grid)
        invariant idx == SampleIndex(r, c)
        invariant forall i, j :: 0 <= i < r && 0 <= j < 5 ==>
          grid[i][j] == Layout(chosen, centerMode, freeText)[i][j]
        invariant forall j :: 0 <= j < c ==> grid[r][j] == Layout(chosen, centerMode, freeText)[r][j]
      {
        if r == 2 && c == 2 {
          grid := grid[r := grid[r][c := if centerMode == "free" then Some(freeText) else None]];
        } else {
          grid := grid[r := grid[r][c := Some(chosen[idx])]];
          idx := idx + 1;
        }
      }
    }
    ghost var want := Layout(chosen, centerMode, freeText);
    assert forall i :: 0 <= i < 5 ==> grid[i] == want[i];
    return Ok(grid);
  }

  /** The grid is 5x5 and its centre holds the placeholder exactly in "free" mode. */
  lemma LayoutShape(chosen: seq<string>, centerMode: string, freeText: string)
    requires |chosen| == Needed
    ensures var g := Layout(chosen, centerMode, freeText);
      IsBoard(g) && (centerMode == "free" ==> g[2][2] == Some(freeText))
      && (centerMode != "free" ==> g[2][2] == None)
  {
  }

  lemma SampleIndexOf(p: nat)
    requires p < 25 && p != 12
    ensures !IsCenter(p / 5, p % 5)
    ensures SampleIndex(p / 5, p % 5) == if p < 12 then p else p - 1
  {
  }

  /** Read row by row with the centre skipped, the grid is the sample itself:
      every sampled phrase is used once, in sample order, and no other cell is None. */
  lemma {:induction false} LayoutReadsSample(chosen: seq<string>, centerMode: string, freeText: string)
    requires |chosen| == Needed
    ensures IsBoard(Layout(chosen, centerMode, freeText))
    ensures NonCenterCells(Layout(chosen, centerMode, freeText)) == seq(Needed, k requires 0 <= k < Needed => Some(chosen[k]))
  {
    var g := Layout(chosen, centerMode, freeText);
    var cells := NonCenterCells(g);
    forall k | 0 <= k < Needed
      ensures cells[k] == Some(chosen[k])
    {
      var p := if k < 12 then k else k + 1;
      SampleIndexOf(p);
    }
  }

  /** No two different non-centre cells of the 5x5 grid g hold the same value. */
  predicate DistinctCells(g: Board)
    requires IsBoard(g)
  {
    forall r1, c1, r2, c2 ::
      0 <= r1 < 5 && 0 <= c1 < 5 && 0 <= r2 < 5 && 0 <= c2 < 5
      && !IsCenter(r1, c1) && !IsCenter(r2, c2) && (r1, c1) != (r2, c2)
      ==> g[r1][c1] != g[r2][c2]
  }

  /** A sample without repeats gives a card without repeats: two different
      non-centre cells never hold the same phrase. */
  lemma {:induction false} LayoutDistinct(chosen: seq<string>, centerMode: string, freeText: string)
    requires |chosen| == Needed
    requires Distinct(chosen)
    ensures DistinctCells(Layout(chosen, centerMode, freeText))
  {
    var g := Layout(chosen, centerMode, freeText);
    forall r1, c1, r2, c2 |
      0 <= r1 < 5 && 0 <= c1 < 5 && 0 <= r2 < 5 && 0 <= c2 < 5
      && !IsCenter(r1, c1) && !IsCenter(r2, c2) && (r1, c1) != (r2, c2)
      ensures g[r1][c1] != g[r2][c2]
    {
      var i, j := SampleIndex(r1, c1), SampleIndex(r2, c2);
      assert i != j;
      if i < j {
        assert chosen[i] != chosen[j];
      } else {
        assert chosen[j] != chosen[i];
      }
    }
  }

  /** Every non-centre cell holds a phrase of the item list. */
  lemma LayoutFromItems(items: seq<string>, chosen: seq<string>, centerMode: string, freeText: string)
    requires IsSample(chosen, items)
    ensures var g := Layout(chosen, centerMode, freeText);
      forall r, c :: 0 <= r < 5 && 0 <= c < 5 && !IsCenter(r, c) ==> g[r][c].Some? && g[r][c].value in items
  {
    forall x | x in chosen ensures x in items {
      assert x in multiset(chosen);
    }
  }

  /** A phrase occurs at most once in a list without repeats. */
  lemma {:induction false} CountInDistinct(items: seq<string>, x: string)
    requires Distinct(items)
    ensures multiset(items)[x] <= 1
    decreases |items|
  {
    if items != [] {
      var init, last := items[..|items| - 1], items[|items| - 1];
      assert items == init + [last];
      CountInDistinct(init, x);
      if last == x {
        assert x !in init by {
          forall i | 0 <= i < |init| ensures init[i] != x { assert init[i] == items[i]; }
        }
      }
    }
  }

  /** Sampling positions without replacement from a list without repeats (the
      de-duplicated phrase list) yields 24 different phrases. */
  lemma SampleDistinct(chosen: seq<string>, items: seq<string>)
    requires IsSample(chosen, items)
    requires Distinct(items)
    ensures Distinct(chosen)
  {
    forall i, j | 0 <= i < j < |chosen| ensures chosen[i] != chosen[j] {
      if chosen[i] == chosen[j] {
        var x := chosen[i];
        assert chosen == chosen[..i] + [x] + chosen[i + 1..j] + [x] + chosen[j + 1..];
        assert multiset(chosen)[x] >= 2;
        CountInDistinct(items, x);
        assert false;
      }
    }
  }

  /** A cell of the grid that the overlay page writes text into. */
  datatype Placement = Placement(row: nat, col: nat, text: string)

  /** The draw rule of the overlay page: the centre is skipped in "keep" mode, and
      so is every cell that holds None. */
  predicate Drawn(g: Board, centerMode: string, r: nat, c: nat)
    requires IsBoard(g) && r < 5 && c < 5
  {
    !(IsCenter(r, c) && centerMode == "keep") && g[r][c].Some?
  }

  /** The placements of the first k cells in row-major order. */
  function DrawnUpTo(g: Board, centerMode: string, k: nat): seq<Placement>
    requires IsBoard(g) && k <= 25
  {
    if k == 0 then []
    else
      var r, c := (k - 1) / 5, (k - 1) % 5;
      DrawnUpTo(g, centerMode, k - 1)
      + (if Drawn(g, centerMode, r, c) then [Placement(r, c, g[r][c].value)] else [])
  }

  /** The placements up to cell (r, c) inclusive. */
  lemma DrawnUpToNext(g: Board, centerMode: string, r: nat, c: nat)
    requires IsBoard(g) && r < 5 && c < 5
    ensures Drawn(g, centerMode, r, c) ==>
      DrawnUpTo(g, centerMode, 5 * r + c + 1) == DrawnUpTo(g, centerMode, 5 * r + c) + [Placement(r, c, g[r][c].value)]
    ensures !Drawn(g, centerMode, r, c) ==>
      DrawnUpTo(g, centerMode, 5 * r + c + 1) == DrawnUpTo(g, centerMode, 5 * r + c)
  {
    assert (5 * r + c) / 5 == r && (5 * r + c) % 5 == c;
    assert DrawnUpTo(g, centerMode, 5 * r + c) + [] == DrawnUpTo(g, centerMode, 5 * r + c);
  }

  /** No placement is the centre cell unless the mode is "free". */
  predicate CenterOnlyIfFree(ps: seq<Placement>, centerMode: string) {
    forall i :: 0 <= i < |ps| && IsCenter(ps[i].row, ps[i].col) ==> centerMode == "free"
  }

  function Texts(ps: seq<Placement>): (ts: seq<string>)
  {
    if ps == [] then [] else Texts(ps[..|ps| - 1]) + [ps[|ps| - 1].text]
  }

  /** The cell loop of make_overlay_page_pdf, without the drawing: the cells it
      writes text into, in the order it visits them. */
  method DrawnCells(g: Board, centerMode: string) returns (cells: seq<Placement>)
    requires IsBoard(g)
    ensures cells == DrawnUpTo(g, centerMode, 25)
  {
    cells := [];
    for r := 0 to 5
      invariant cells == DrawnUpTo(g, centerMode, 5 * r)
    {
      for col := 0 to 5
        invariant cells == DrawnUpTo(g, centerMode, 5 * r + col)
      {
        DrawnUpToNext(g, centerMode, r, col);
        if r == 2 && col == 2 && centerMode == "keep" {
          continue;
        }
        var text := g[r][col];
        if text.None? {
          continue;
        }
        cells := cells + [Placement(r, col, text.value)];
      }
    }
  }

  /** The placements of the first k cells of a card from make_grid, cell by cell. */
  function ExpectedDraws(chosen: seq<string>, centerMode: string, freeText: string, k: nat): seq<Placement>
    requires |chosen| == Needed && k <= 25
  {
    if k == 0 then [] else ExpectedDraws(chosen, centerMode, freeText, k - 1) + DrawnStep(chosen, centerMode, freeText, k - 1)
  }

  lemma {:induction false} DrawnUpToLayout(chosen: seq<string>, centerMode: string, freeText: string, k: nat)
    requires |chosen| == Needed && k <= 25
    ensures IsBoard(Layout(chosen, centerMode, freeText))
    ensures DrawnUpTo(Layout(chosen, centerMode, freeText), centerMode, k) == ExpectedDraws(chosen, centerMode, freeText, k)
    decreases k
  {
    LayoutShape(chosen, centerMode, freeText);
    if k > 0 {
      DrawnUpToLayout(chosen, centerMode, freeText, k - 1);
      DrawnStepOfLayout(chosen, centerMode, freeText, k - 1);
    }
  }

  lemma {:induction false} DrawsBeforeCenter(chosen: seq<string>, centerMode: string, freeText: string, k: nat)
    requires |chosen| == Needed && k <= 12
    ensures Texts(ExpectedDraws(chosen, centerMode, freeText, k)) == chosen[..k]
    decreases k
  {
    if k > 0 {
      DrawsBeforeCenter(chosen, centerMode, freeText, k - 1);
      var p := k - 1;
      var prev := ExpectedDraws(chosen, centerMode, freeText, p);
      var x := Placement(p / 5, p % 5, chosen[p]);
      assert ExpectedDraws(chosen, centerMode, freeText, k) == prev + [x];
      TextsSnoc(prev, x);
      PrefixSnoc(chosen, p);
    }
  }

  lemma {:induction false} DrawsAfterCenter(chosen: seq<string>, centerMode: string, freeText: string, j: nat, k: nat)
    requires |chosen| == Needed && 13 <= j <= k <= 25
    ensures Texts(ExpectedDraws(chosen, centerMode, freeText, k))
      == Texts(ExpectedDraws(chosen, centerMode, freeText, j)) + chosen[j - 1..k - 1]
    decreases k
  {
    if k > j {
      DrawsAfterCenter(chosen, centerMode, freeText, j, k - 1);
      var p := k - 1;
      var prev := ExpectedDraws(chosen, centerMode, freeText, p);
      var x := Placement(p / 5, p % 5, chosen[p - 1]);
      assert ExpectedDraws(chosen, centerMode, freeText, k) == prev + [x];
      TextsSnoc(prev, x);
      var head := Texts(ExpectedDraws(chosen, centerMode, freeText, j));
      SliceSnoc(chosen, j - 1, p);
      calc {
        Texts(ExpectedDraws(chosen, centerMode, freeText, k));
        Texts(prev) + [chosen[p - 1]];
        (head + chosen[j - 1..p - 1]) + [chosen[p - 1]];
        { AppendAssoc(head, chosen[j - 1..p - 1], [chosen[p - 1]]); }
        head + (chosen[j - 1..p - 1] + [chosen[p - 1]]);
        head + chosen[j - 1..k - 1];
      }
    } else {
      assert chosen[j - 1..k - 1] == [];
    }
  }

  lemma DrawsThroughCenter(chosen: seq<string>, centerMode: string, freeText: string)
    requires |chosen| == Needed
    ensures Texts(ExpectedDraws(chosen, centerMode, freeText, 13))
      == chosen[..12] + (if centerMode == "free" then [freeText] else [])
  {
    DrawsBeforeCenter(chosen, centerMode, freeText, 12);
    var prev := ExpectedDraws(chosen, centerMode, freeText, 12);
    if centerMode == "free" {
      TextsSnoc(prev, Placement(2, 2, freeText));
    } else {
      assert ExpectedDraws(chosen, centerMode, freeText, 13) == prev;
    }
  }

  lemma {:induction false} DrawsCenterOnlyWhenFree(chosen: seq<string>, centerMode: string, freeText: string, k: nat)
    requires |chosen| == Needed && k <= 25
    ensures CenterOnlyIfFree(ExpectedDraws(chosen, centerMode, freeText, k), centerMode)
    decreases k
  {
    if k > 0 {
      DrawsCenterOnlyWhenFree(chosen, centerMode, freeText, k - 1);
      var p := k - 1;
      var prev := ExpectedDraws(chosen, centerMode, freeText, p);
      var step := DrawnStep(chosen, centerMode, freeText, p);
      var ps := prev + step;
      assert ExpectedDraws(chosen, centerMode, freeText, k) == ps;
      if p != 12 {
        SampleIndexOf(p);
        assert step == [Placement(p / 5, p % 5, chosen[if p < 12 then p else p - 1])];
      }
      forall i | 0 <= i < |ps| && IsCenter(ps[i].row, ps[i].col)
        ensures centerMode == "free"
      {
        if i < |prev| {
          assert ps[i] == prev[i];
        } else {
          assert ps[i] == step[i - |prev|];
        }
      }
    }
  }

  /** On a card from make_grid the overlay writes the 24 sampled phrases in
      sample order, with the placeholder between the 12th and the 13th exactly in
      "free" mode; the centre is never drawn in any other mode. */
  lemma DrawnOfLayout(chosen: seq<string>, centerMode: string, freeText: string)
    requires |chosen| == Needed
    ensures IsBoard(Layout(chosen, centerMode, freeText))
    ensures centerMode == "free" ==>
      Texts(DrawnUpTo(Layout(chosen, centerMode, freeText), centerMode, 25)) == chosen[..12] + [freeText] + chosen[12..]
    ensures centerMode != "free" ==>
      Texts(DrawnUpTo(Layout(chosen, centerMode, freeText), centerMode, 25)) == chosen
    ensures CenterOnlyIfFree(DrawnUpTo(Layout(chosen, centerMode, freeText), centerMode, 25), centerMode)
  {
    DrawnUpToLayout(chosen, centerMode, freeText, 25);
    ExpectedTexts(chosen, centerMode, freeText);
    DrawsCenterOnlyWhenFree(chosen, centerMode, freeText, 25);
  }

  /** The texts of all 25 expected placements. */
  lemma ExpectedTexts(chosen: seq<string>, centerMode: string, freeText: string)
    requires |chosen| == Needed
    ensures centerMode == "free" ==>
      Texts(ExpectedDraws(chosen, centerMode, freeText, 25)) == chosen[..12] + [freeText] + chosen[12..]
    ensures centerMode != "free" ==>
      Texts(ExpectedDraws(chosen, centerMode, freeText, 25)) == chosen
  {
    DrawsThroughCenter(chosen, centerMode, freeText);
    DrawsAfterCenter(chosen, centerMode, freeText, 13, 25);
    var head := Texts(ExpectedDraws(chosen, centerMode, freeText, 13));
    assert chosen[12..24] == chosen[12..];
    if centerMode != "free" {
      assert head == chosen[..12];
      assert chosen[..12] + chosen[12..] == chosen;
    }
  }



  /** What the overlay draws at row-major position p of a card from make_grid. */
  function DrawnStep(chosen: seq<string>, centerMode: string, freeText: string, p: nat): seq<Placement>
    requires |chosen| == Needed && p < 25
  {
    if p == 12 then (if centerMode == "free" then [Placement(2, 2, freeText)] else [])
    else [Placement(p / 5, p % 5, chosen[if p < 12 then p else p - 1])]
  }

  lemma DrawnStepOfLayout(chosen: seq<string>, centerMode: string, freeText: string, p: nat)
    requires |chosen| == Needed && p < 25
    ensures IsBoard(Layout(chosen, centerMode, freeText))
    ensures DrawnUpTo(Layout(chosen, centerMode, freeText), centerMode, p + 1)
      == DrawnUpTo(Layout(chosen, centerMode, freeText), centerMode, p) + DrawnStep(chosen, centerMode, freeText, p)
  {
    LayoutShape(chosen, centerMode, freeText);
    if p != 12 {
      SampleIndexOf(p);
    }
  }

  lemma TextsSnoc(ps: seq<Placement>, x: Placement)
    ensures Texts(ps + [x]) == Texts(ps) + [x.text]
  {
    assert (ps + [x])[..|ps|] == ps;
  }
}
