/** The phrase-list loader (read_first_column): keep the stripped first column
    of every CSV record that has a non-blank one, then drop later duplicates. */
module Phrases {
  import opened Text
  import opened Seqs

  /** One CSV record, as the columns the CSV reader yields for it. */
  type Row = seq<string>

  /** A phrase fit for the list: not empty and without surrounding whitespace. */
  predicate Clean(x: string) {
    x != "" && Trimmed(x)
  }

  /** Row `row` contributes phrase `x` to the list. */
  predicate Keeps(row: Row, x: string) {
    row != [] && x != "" && Strip(row[0]) == x
  }

  /** What one record adds to the list: its stripped first column, unless the
      record is empty or that column is blank. */
  function Contribution(row: Row): seq<string> {
    if row != [] && Strip(row[0]) != "" then [Strip(row[0])] else []
  }

  /** The rows' contributions in row order. */
  function Kept(rows: seq<Row>): seq<string> {
    if rows == [] then [] else Kept(rows[..|rows| - 1]) + Contribution(rows[|rows| - 1])
  }

  /** Every kept phrase is clean, and the filter keeps at most as many phrases
      as there are rows. */
  lemma {:induction false} KeptClean(rows: seq<Row>)
    ensures forall k :: 0 <= k < |Kept(rows)| ==> Clean(Kept(rows)[k])
    ensures |Kept(rows)| <= |rows|
    decreases |rows|
  {
    if rows != [] {
      var prev, row := rows[..|rows| - 1], rows[|rows| - 1];
      KeptClean(prev);
      if row != [] && Strip(row[0]) != "" {
        StripSpec(row[0]);
      }
    }
  }

  /** Some record of the file contributes phrase x. */
  predicate FromRows(rows: seq<Row>, x: string) {
    exists i :: 0 <= i < |rows| && Keeps(rows[i], x)
  }

  lemma FromRowsSnoc(rows: seq<Row>, x: string)
    requires rows != []
    ensures FromRows(rows, x) <==> FromRows(rows[..|rows| - 1], x) || Keeps(rows[|rows| - 1], x)
  {
    var init := rows[..|rows| - 1];
    if FromRows(rows, x) && !Keeps(rows[|rows| - 1], x) {
      var i :| 0 <= i < |rows| && Keeps(rows[i], x);
      assert init[i] == rows[i];
    }
    if FromRows(init, x) {
      var i :| 0 <= i < |init| && Keeps(init[i], x);
      assert rows[i] == init[i];
    }
  }

  /** A phrase is kept exactly when some row contributes it. */
  lemma {:induction false} KeptMembers(rows: seq<Row>, x: string)
    ensures x in Kept(rows) <==> FromRows(rows, x)
    decreases |rows|
  {
    if rows != [] {
      var init, last := rows[..|rows| - 1], rows[|rows| - 1];
      KeptMembers(init, x);
      FromRowsSnoc(rows, x);
      assert x in Contribution(last) <==> Keeps(last, x);
    }
  }

  /** The filter works row by row: filtering a concatenation filters each part. */
  lemma {:induction false} KeptAppend(a: seq<Row>, b: seq<Row>)
    ensures Kept(a + b) == Kept(a) + Kept(b)
    decreases |b|
  {
    if b == [] {
      assert a + b == a;
    } else {
      var b', row := b[..|b| - 1], b[|b| - 1];
      AppendInit(a, b);
      KeptAppend(a, b');
      AppendAssoc(Kept(a), Kept(b'), Contribution(row));
    }
  }

  /** The filter extended by one more row. */
  lemma KeptSnoc(rows: seq<Row>, i: nat)
    requires i < |rows|
    ensures Kept(rows[..i + 1]) == Kept(rows[..i]) + Contribution(rows[i])
  {
    assert rows[..i + 1][..i] == rows[..i];
  }

  /** Order-preserving de-duplication: an element is appended only if it has not
      been seen before. */
  function Dedup(xs: seq<string>): (r: seq<string>)
    ensures Distinct(r)
    ensures forall x :: x in r <==> x in xs
    ensures |r| <= |xs|
  {
    if xs == [] then []
    else
      var prev := Dedup(xs[..|xs| - 1]);
      var x := xs[|xs| - 1];
      assert forall y :: y in xs <==> y in xs[..|xs| - 1] || y == x by {
        assert xs == xs[..|xs| - 1] + [x];
      }
      if x in prev then prev else prev + [x]
  }

  /** The de-duplication extended by one more element. */
  lemma DedupSnoc(xs: seq<string>, j: nat)
    requires j < |xs|
    ensures Dedup(xs[..j + 1]) == if xs[j] in Dedup(xs[..j]) then Dedup(xs[..j]) else Dedup(xs[..j]) + [xs[j]]
  {
    assert xs[..j + 1][..j] == xs[..j];
  }

  /** Index of the first occurrence of x in xs. */
  function FirstIndex(xs: seq<string>, x: string): (i: nat)
    requires x in xs
    ensures i < |xs| && xs[i] == x && x !in xs[..i]
  {
    if xs[0] == x then 0
    else
      var i := 1 + FirstIndex(xs[1..], x);
      assert xs[..i] == [xs[0]] + xs[1..][..i - 1];
      i
  }

  lemma FirstIndexUnique(xs: seq<string>, x: string, i: nat)
    requires i < |xs| && xs[i] == x && x !in xs[..i]
    ensures FirstIndex(xs, x) == i
  {
    var j := FirstIndex(xs, x);
  }

  lemma FirstIndexPrefix(xs: seq<string>, y: string, x: string)
    requires y in xs
    ensures FirstIndex(xs + [x], y) == FirstIndex(xs, y)
  {
    var i := FirstIndex(xs, y);
    assert (xs + [x])[..i] == xs[..i];
    FirstIndexUnique(xs + [x], y, i);
  }

  /** Each phrase sits at the place of its first occurrence: the output lists the
      distinct phrases sorted by where they first appear, so it is a subsequence
      of the input. */
  lemma {:induction false} DedupFirstOccurrenceOrder(xs: seq<string>)
    ensures forall k, l :: 0 <= k < l < |Dedup(xs)| ==>
      FirstIndex(xs, Dedup(xs)[k]) < FirstIndex(xs, Dedup(xs)[l])
    decreases |xs|
  {
    if xs != [] {
      var init, x := xs[..|xs| - 1], xs[|xs| - 1];
      assert xs == init + [x];
      var prev := Dedup(init);
      DedupFirstOccurrenceOrder(init);
      forall y | y in prev
        ensures FirstIndex(xs, y) == FirstIndex(init, y) < |init|
      {
        FirstIndexPrefix(init, y, x);
        assert init + [x] == xs;
      }
      var r := Dedup(xs);
      if x !in prev {
        assert x !in xs[..|init|];
        FirstIndexUnique(xs, x, |init|);
      }
      forall k, l | 0 <= k < l < |r|
        ensures FirstIndex(xs, r[k]) < FirstIndex(xs, r[l])
      {
        assert r[k] == prev[k] && r[k] in prev;
        if l < |prev| {
          assert r[l] == prev[l] && r[l] in prev;
        } else {
          assert r == prev + [x] && r[l] == x;
        }
      }
    }
  }

  /** A list without duplicates is left as it is. */
  lemma {:induction false} DedupOfDistinct(xs: seq<string>)
    requires Distinct(xs)
    ensures Dedup(xs) == xs
    decreases |xs|
  {
    if xs != [] {
      var init := xs[..|xs| - 1];
      DedupOfDistinct(init);
      assert forall i :: 0 <= i < |init| ==> init[i] == xs[i] != xs[|xs| - 1];
      assert init + [xs[|xs| - 1]] == xs;
    }
  }

  /** read_first_column after the CSV reader: both loops of the source, the row
      filter and the de-duplication with its `seen` set. */
  method ReadFirstColumn(rows: seq<Row>) returns (deduped: seq<string>)
    ensures deduped == Dedup(Kept(rows))
  {
    var items: seq<string> := [];
    var i := 0;
    while i < |rows|
      invariant 0 <= i <= |rows|
      invariant items == Kept(rows[..i])
    {
      var row := rows[i];
      KeptSnoc(rows, i);
      if row != [] {
        var text := Strip(row[0]);
        if text != "" {
          items := items + [text];
        }
      }
      i := i + 1;
    }
    assert rows[..|rows|] == rows;

    var seen: set<string> := {};
    deduped := [];
    var j := 0;
    while j < |items|
      invariant 0 <= j <= |items|
      invariant deduped == Dedup(items[..j])
      invariant forall x :: x in seen <==> x in deduped
    {
      var x := items[j];
      DedupSnoc(items, j);
      if x !in seen {
        seen := seen + {x};
        deduped := deduped + [x];
      }
      j := j + 1;
    }
    assert items[..|items|] == items;
  }
}
