/** Greedy word wrap with ellipsis truncation (wrap_text). The font metric
    stringWidth(text, font, size) is the parameter `width`: font and size are
    fixed for a whole call, so only the text varies. */
module Wrap {
  import opened Text
  import opened Seqs

  /** The line cap the overlay page passes for every cell. */
  const CellMaxLines: int := 6

  /** The ellipsis character that replaces the cut-off end of the last line. */
  const Ellipsis: char := '\U{2026}'

  /** Python's xs[:k]: a prefix of xs that keeps the first k elements when k is
      not negative and drops the last -k elements when it is, so that a bound
      beyond either end gives all of xs or nothing. */
  function Head(xs: seq<string>, k: int): (r: seq<string>)
    ensures r <= xs
    ensures 0 <= k <= |xs| ==> |r| == k
    ensures |xs| <= k ==> r == xs
    ensures k < 0 && -k < |xs| ==> |r| == |xs| - -k
    ensures k < 0 && |xs| <= -k ==> r == []
  {
    if k >= 0 then (if k < |xs| then xs[..k] else xs)
    else if |xs| + k > 0 then xs[..|xs| + k] else []
  }

  /** End (exclusive) of the line that starts with words[start], when
      words[start..j] are already on it: the next word is added while the line
      with it still measures at most maxWidth; the first word that does not
      fit closes the line. */
  function LineEnd(words: seq<string>, width: string -> nat, maxWidth: nat, start: nat, j: nat): (e: nat)
    requires start < j <= |words|
    ensures j <= e <= |words|
    decreases |words| - j
  {
    if j < |words| && width(Unwords(words[start..j + 1])) <= maxWidth then LineEnd(words, width, maxWidth, start, j + 1)
    else j
  }

  /** Greedy filling without a line cap: the words of each line, in order, for
      the words from index `start` on. */
  function Chunks(words: seq<string>, width: string -> nat, maxWidth: nat, start: nat): seq<seq<string>>
    requires start <= |words|
    decreases |words| - start
  {
    if start == |words| then []
    else
      var e := LineEnd(words, width, maxWidth, start, start + 1);
      [words[start..e]] + Chunks(words, width, maxWidth, e)
  }

  function Concat(cs: seq<seq<string>>): seq<string> {
    if cs == [] then [] else cs[0] + Concat(cs[1..])
  }

  /** Each chunk joined with single spaces. */
  function JoinAll(cs: seq<seq<string>>): seq<string> {
    seq(|cs|, k requires 0 <= k < |cs| => Unwords(cs[k]))
  }

  /** The last-line trim: while the line is too wide and longer than one
      character, its last two characters become one ellipsis. */
  function TrimLast(s: string, width: string -> nat, maxWidth: nat): string
    decreases |s|
  {
    if width(s) > maxWidth && |s| > 1 then TrimLast(s[..|s| - 2] + [Ellipsis], width, maxWidth)
    else s
  }

  /** The trimmed line fits unless at most one character is left; the line is
      left alone exactly when it fits or is that short; otherwise it is a
      shorter, non-empty prefix of the line ending in the ellipsis. */
  lemma {:induction false} TrimLastSpec(s: string, width: string -> nat, maxWidth: nat)
    ensures width(TrimLast(s, width, maxWidth)) <= maxWidth || |TrimLast(s, width, maxWidth)| <= 1
    ensures TrimLast(s, width, maxWidth) == s <==> (width(s) <= maxWidth || |s| <= 1)
    ensures s != "" ==> TrimLast(s, width, maxWidth) != ""
    ensures TrimLast(s, width, maxWidth) != s ==>
              var r := TrimLast(s, width, maxWidth);
              1 <= |r| < |s| && r[|r| - 1] == Ellipsis && r[..|r| - 1] == s[..|r| - 1]
    decreases |s|
  {
    if width(s) > maxWidth && |s| > 1 {
      var t := s[..|s| - 2] + [Ellipsis];
      TrimLastSpec(t, width, maxWidth);
      assert t[..|t| - 1] == s[..|s| - 2];
    }
  }

  /** `lines` with its last line trimmed, if it has one. */
  function TrimLastLine(lines: seq<string>, width: string -> nat, maxWidth: nat): seq<string> {
    if lines == [] then []
    else lines[..|lines| - 1] + [TrimLast(lines[|lines| - 1], width, maxWidth)]
  }

  function Min(a: int, b: int): int {
    if a < b then a else b
  }

  /** The first k greedy lines (all of them when there are fewer). */
  function FirstLines(words: seq<string>, width: string -> nat, maxWidth: nat, k: nat): seq<string> {
    var lines := JoinAll(Chunks(words, width, maxWidth, 0));
    lines[..Min(|lines|, k)]
  }

  /** What wrap_text returns: [""] for text without words; otherwise the first
      maxLines greedy lines with the last of them trimmed (none at all when
      maxLines is not positive). */
  function Wrapped(text: string, width: string -> nat, maxWidth: nat, maxLines: int): seq<string> {
    var words := Split(text);
    if words == [] then [""]
    else if maxLines <= 0 then []
    else TrimLastLine(FirstLines(words, width, maxWidth, maxLines), width, maxWidth)
  }

  /** The line that starts with words[start] takes every word that keeps it
      within maxWidth, and stops only at a word that does not fit. */
  lemma {:induction false} LineEndGreedy(words: seq<string>, width: string -> nat, maxWidth: nat, start: nat, j: nat)
    requires start < j <= |words|
    ensures forall k :: j < k <= LineEnd(words, width, maxWidth, start, j) ==> width(Unwords(words[start..k])) <= maxWidth
    ensures LineEnd(words, width, maxWidth, start, j) < |words| ==>
              width(Unwords(words[start..LineEnd(words, width, maxWidth, start, j) + 1])) > maxWidth
    decreases |words| - j
  {
    if j < |words| && width(Unwords(words[start..j + 1])) <= maxWidth {
      LineEndGreedy(words, width, maxWidth, start, j + 1);
    }
  }

  /** No word is lost or reordered: the greedy lines, put back together, are
      the words. */
  lemma {:induction false} ChunksCover(words: seq<string>, width: string -> nat, maxWidth: nat, start: nat)
    requires start <= |words|
    ensures Concat(Chunks(words, width, maxWidth, start)) == words[start..]
    decreases |words| - start
  {
    if start < |words| {
      var e := LineEnd(words, width, maxWidth, start, start + 1);
      ChunksCover(words, width, maxWidth, e);
      var cs := Chunks(words, width, maxWidth, start);
      assert cs[1..] == Chunks(words, width, maxWidth, e);
      assert words[start..] == words[start..e] + words[e..];
    }
  }

  /** Every greedy line holds at least one word, and a line of two or more
      words measures at most maxWidth: only a single word can overflow. */
  lemma {:induction false} ChunksFit(words: seq<string>, width: string -> nat, maxWidth: nat, start: nat)
    requires start <= |words|
    ensures forall k :: 0 <= k < |Chunks(words, width, maxWidth, start)| ==>
              Chunks(words, width, maxWidth, start)[k] != []
              && (|Chunks(words, width, maxWidth, start)[k]| >= 2 ==> width(Unwords(Chunks(words, width, maxWidth, start)[k])) <= maxWidth)
    decreases |words| - start
  {
    if start < |words| {
      var e := LineEnd(words, width, maxWidth, start, start + 1);
      var cs := Chunks(words, width, maxWidth, start);
      var rest := Chunks(words, width, maxWidth, e);
      ChunksFit(words, width, maxWidth, e);
      LineEndGreedy(words, width, maxWidth, start, start + 1);
      forall k | 0 <= k < |cs|
        ensures cs[k] != [] && (|cs[k]| >= 2 ==> width(Unwords(cs[k])) <= maxWidth)
      {
        if k > 0 { assert cs[k] == rest[k - 1]; }
      }
    }
  }

  /** Lines are closed only when forced: the first word of each next line
      would have made the line before it wider than maxWidth. */
  lemma {:induction false} ChunksMaximal(words: seq<string>, width: string -> nat, maxWidth: nat, start: nat)
    requires start <= |words|
    ensures forall k :: 1 <= k < |Chunks(words, width, maxWidth, start)| ==>
              Chunks(words, width, maxWidth, start)[k] != []
              && width(Unwords(Chunks(words, width, maxWidth, start)[k - 1] + [Chunks(words, width, maxWidth, start)[k][0]])) > maxWidth
    decreases |words| - start
  {
    if start < |words| {
      var e := LineEnd(words, width, maxWidth, start, start + 1);
      var cs := Chunks(words, width, maxWidth, start);
      var rest := Chunks(words, width, maxWidth, e);
      ChunksMaximal(words, width, maxWidth, e);
      LineEndGreedy(words, width, maxWidth, start, start + 1);
      forall k | 1 <= k < |cs|
        ensures cs[k] != [] && width(Unwords(cs[k - 1] + [cs[k][0]])) > maxWidth
      {
        if k == 1 {
          var e' := LineEnd(words, width, maxWidth, e, e + 1);
          assert cs[1] == rest[0] == words[e..e'];
          assert cs[0] + [cs[1][0]] == words[start..e + 1];
        } else {
          assert cs[k - 1] == rest[k - 2] && cs[k] == rest[k - 1];
        }
      }
    }
  }

  /** Each greedy line, split again, gives back the words it was made of. */
  lemma {:induction false} ChunksResplit(words: seq<string>, width: string -> nat, maxWidth: nat, start: nat)
    requires AllWords(words) && start <= |words|
    ensures forall k :: 0 <= k < |Chunks(words, width, maxWidth, start)| ==>
              Split(JoinAll(Chunks(words, width, maxWidth, start))[k]) == Chunks(words, width, maxWidth, start)[k]
    decreases |words| - start
  {
    if start < |words| {
      var e := LineEnd(words, width, maxWidth, start, start + 1);
      var cs := Chunks(words, width, maxWidth, start);
      var rest := Chunks(words, width, maxWidth, e);
      ChunksResplit(words, width, maxWidth, e);
      AllWordsSlice(words, start, e);
      SplitUnwords(words[start..e]);
      forall k | 0 <= k < |cs|
        ensures Split(JoinAll(cs)[k]) == cs[k]
      {
        if k > 0 { assert cs[k] == rest[k - 1] && JoinAll(rest)[k - 1] == Unwords(rest[k - 1]); }
      }
    }
  }

  /** wrap_text returns [""] for text without words, nothing when maxLines is
      not positive, and otherwise between one and maxLines lines. */
  lemma WrappedCount(text: string, width: string -> nat, maxWidth: nat, maxLines: int)
    ensures Split(text) == [] ==> Wrapped(text, width, maxWidth, maxLines) == [""]
    ensures Split(text) != [] && maxLines <= 0 ==> Wrapped(text, width, maxWidth, maxLines) == []
    ensures Split(text) != [] && maxLines >= 1 ==> 1 <= |Wrapped(text, width, maxWidth, maxLines)| <= maxLines
  {
    var words := Split(text);
    if words != [] && maxLines >= 1 {
      assert Chunks(words, width, maxWidth, 0) != [];
    }
  }

  /** The greedy lines before the trim: the first n of them joined. */
  lemma TrimmedLines(words: seq<string>, width: string -> nat, maxWidth: nat, n: nat)
    requires words != [] && n >= 1
    ensures var all := Chunks(words, width, maxWidth, 0);
      var r := TrimLastLine(FirstLines(words, width, maxWidth, n), width, maxWidth);
      |r| == Min(|all|, n) && |r| >= 1
      && (forall k :: 0 <= k < |r| - 1 ==> r[k] == Unwords(all[k]))
      && r[|r| - 1] == TrimLast(Unwords(all[|r| - 1]), width, maxWidth)
  {
    var all := Chunks(words, width, maxWidth, 0);
    assert all != [];
    var joined := JoinAll(all);
    var m := Min(|all|, n);
    var lines := joined[..m];
    assert lines == FirstLines(words, width, maxWidth, n);
    var r := lines[..m - 1] + [TrimLast(lines[m - 1], width, maxWidth)];
    assert r == TrimLastLine(lines, width, maxWidth);
    forall k | 0 <= k < m - 1 ensures r[k] == Unwords(all[k]) {
      assert r[k] == lines[k] == joined[k];
    }
    assert lines[m - 1] == joined[m - 1];
  }

  /** A greedy line, split again, gives back its words; it measures at most
      maxWidth unless it is a single word. */
  lemma GreedyLine(words: seq<string>, width: string -> nat, maxWidth: nat, k: nat)
    requires AllWords(words) && k < |Chunks(words, width, maxWidth, 0)|
    ensures var c := Chunks(words, width, maxWidth, 0)[k];
      Split(Unwords(c)) == c && (width(Unwords(c)) <= maxWidth || IsWord(Unwords(c)))
  {
    var all := Chunks(words, width, maxWidth, 0);
    ChunksResplit(words, width, maxWidth, 0);
    ChunksFit(words, width, maxWidth, 0);
    assert JoinAll(all)[k] == Unwords(all[k]);
    if |all[k]| == 1 {
      assert Unwords(all[k]) == all[k][0];
    }
  }

  /** The lines wrap_text returns, for text with words and a positive cap: the
      first maxLines greedy lines, each but the last giving back its words when
      split again and measuring at most maxWidth unless it is a single word, and
      the last one trimmed. */
  lemma WrappedLines(text: string, width: string -> nat, maxWidth: nat, maxLines: int)
    requires Split(text) != [] && maxLines >= 1
    ensures var all, r := Chunks(Split(text), width, maxWidth, 0), Wrapped(text, width, maxWidth, maxLines);
      |r| == Min(|all|, maxLines)
      && (forall k :: 0 <= k < |r| - 1 ==>
            Split(r[k]) == all[k] && (width(r[k]) <= maxWidth || IsWord(r[k])))
      && r[|r| - 1] == TrimLast(Unwords(all[|r| - 1]), width, maxWidth)
  {
    var words := Split(text);
    var r := Wrapped(text, width, maxWidth, maxLines);
    TrimmedLines(words, width, maxWidth, maxLines);
    forall k | 0 <= k < |r| - 1
      ensures Split(r[k]) == Chunks(words, width, maxWidth, 0)[k]
      ensures width(r[k]) <= maxWidth || IsWord(r[k])
    {
      GreedyLine(words, width, maxWidth, k);
    }
  }

  /** After the trim the last line returned fits, or is at most one
      character long. */
  lemma WrappedLastFits(text: string, width: string -> nat, maxWidth: nat, maxLines: int)
    requires Split(text) != [] && maxLines >= 1
    ensures var r := Wrapped(text, width, maxWidth, maxLines);
      r != [] && (width(r[|r| - 1]) <= maxWidth || |r[|r| - 1]| <= 1)
  {
    WrappedCount(text, width, maxWidth, maxLines);
    WrappedLines(text, width, maxWidth, maxLines);
    var r := Wrapped(text, width, maxWidth, maxLines);
    TrimLastSpec(Unwords(Chunks(Split(text), width, maxWidth, 0)[|r| - 1]), width, maxWidth);
  }

  /** The state of wrap_text's word loop before the word at index i: the
      current line holds words[start..i], and the closed lines `done` followed by
      the greedy lines from words[start] on are the greedy lines of all the
      words. */
  ghost predicate Progress(words: seq<string>, width: string -> nat, maxWidth: nat,
                           start: nat, i: nat, current: string, done: seq<seq<string>>)
  {
    AllWords(words)
    && start <= i <= |words| && (start == i ==> i == 0)
    && current == Unwords(words[start..i]) && (current == "" <==> start == i)
    && Chunks(words, width, maxWidth, 0) == done + Chunks(words, width, maxWidth, start)
    && (start < i ==> LineEnd(words, width, maxWidth, start, i) == LineEnd(words, width, maxWidth, start, start + 1))
  }

  lemma ReplaceLast(lines: seq<string>, width: string -> nat, maxWidth: nat, last: string)
    requires lines != [] && last == TrimLast(lines[|lines| - 1], width, maxWidth)
    ensures lines[|lines| - 1 := last] == TrimLastLine(lines, width, maxWidth)
  {
    assert lines[|lines| - 1 := last] == lines[..|lines| - 1] + [last];
  }

  lemma AllWordsSlice(ws: seq<string>, a: nat, b: nat)
    requires AllWords(ws) && a <= b <= |ws|
    ensures AllWords(ws[a..b])
  {
    forall k | 0 <= k < b - a ensures IsWord(ws[a..b][k]) { assert ws[a..b][k] == ws[a + k]; }
  }

  /** The candidate line `test` of the loop: the current line, a space and the
      next word, stripped, is the words joined. */
  lemma CandidateLine(words: seq<string>, start: nat, i: nat)
    requires AllWords(words) && start <= i < |words|
    ensures Strip(Unwords(words[start..i]) + " " + words[i]) == Unwords(words[start..i + 1])
  {
    var w := words[i];
    assert words[start..i + 1] == words[start..i] + [w];
    if start == i {
      assert Unwords(words[start..i]) + " " + w == " " + w;
      StripSpaceWord(w);
    } else {
      var ws := words[start..i];
      AllWordsSlice(words, start, i);
      UnwordsTrimmed(ws);
      UnwordsSnoc(ws, w);
      var line := Unwords(ws) + " " + w;
      assert line[0] == Unwords(ws)[0];
      assert line[|line| - 1] == w[|w| - 1];
      StripSpec(line);
    }
  }

  /** Before the loop: no line closed, nothing on the current one. */
  lemma StartProgress(words: seq<string>, width: string -> nat, maxWidth: nat)
    requires AllWords(words)
    ensures Progress(words, width, maxWidth, 0, 0, "", [])
  {
  }

  /** The next word fits: it joins the current line. */
  lemma FitStep(words: seq<string>, width: string -> nat, maxWidth: nat,
                start: nat, i: nat, current: string, done: seq<seq<string>>)
    requires Progress(words, width, maxWidth, start, i, current, done) && i < |words|
    requires width(Strip(current + " " + words[i])) <= maxWidth
    ensures Progress(words, width, maxWidth, start, i + 1, Strip(current + " " + words[i]), done)
  {
    CandidateLine(words, start, i);
    AllWordsSlice(words, start, i + 1);
    UnwordsTrimmed(words[start..i + 1]);
  }

  /** The next word does not fit: the current line (if any) is closed and the
      word starts the next one. */
  lemma BreakStep(words: seq<string>, width: string -> nat, maxWidth: nat,
                  start: nat, i: nat, current: string, done: seq<seq<string>>)
    requires Progress(words, width, maxWidth, start, i, current, done) && i < |words|
    requires width(Strip(current + " " + words[i])) > maxWidth
    ensures current != "" ==> Progress(words, width, maxWidth, i, i + 1, words[i], done + [words[start..i]])
    ensures current != "" ==> JoinAll(done + [words[start..i]]) == JoinAll(done) + [current]
    ensures current == "" ==> Progress(words, width, maxWidth, i, i + 1, words[i], done)
  {
    CandidateLine(words, start, i);
    SingleSlice(words, i);
    assert IsWord(words[i]);
    if start < i {
      JoinAllSnoc(done, words[start..i]);
      var e := LineEnd(words, width, maxWidth, start, i);
      assert e == i;
      assert Chunks(words, width, maxWidth, start) == [words[start..i]] + Chunks(words, width, maxWidth, i);
      assert Chunks(words, width, maxWidth, 0) == (done + [words[start..i]]) + Chunks(words, width, maxWidth, i);
    }
  }

  /** The words have run out: the current line is the last greedy line. */
  lemma EndStep(words: seq<string>, width: string -> nat, maxWidth: nat,
                start: nat, current: string, done: seq<seq<string>>)
    requires words != [] && Progress(words, width, maxWidth, start, |words|, current, done)
    ensures Chunks(words, width, maxWidth, 0) == done + [words[start..]]
    ensures current == Unwords(words[start..])
  {
    assert words[start..|words|] == words[start..];
    assert LineEnd(words, width, maxWidth, start, |words|) == |words|;
    assert Chunks(words, width, maxWidth, start) == [words[start..]] + Chunks(words, width, maxWidth, |words|);
  }

  /** Leaving the loop at the line cap: the closed lines are the first maxLines
      greedy lines. */
  lemma CappedLines(words: seq<string>, width: string -> nat, maxWidth: nat, start: nat,
                    current: string, done: seq<seq<string>>, lines: seq<string>, maxLines: int)
    requires start < |words| && Progress(words, width, maxWidth, start, start + 1, current, done)
    requires lines == JoinAll(done) && |lines| >= maxLines
    requires maxLines >= 1 ==> |lines| <= maxLines
    requires maxLines < 1 ==> |lines| <= 1
    ensures maxLines >= 1 ==> lines == FirstLines(words, width, maxWidth, maxLines)
  {
    var all := Chunks(words, width, maxWidth, 0);
    if maxLines >= 1 {
      assert |done| == maxLines <= |all|;
      assert all[..|done|] == done;
    }
  }

  /** Leaving the loop with the words used up: the closed lines and the current
      one are all the greedy lines, fewer than the cap. */
  lemma FullLines(words: seq<string>, width: string -> nat, maxWidth: nat, start: nat,
                  current: string, done: seq<seq<string>>, lines: seq<string>, maxLines: int)
    requires words != [] && Progress(words, width, maxWidth, start, |words|, current, done)
    requires lines == JoinAll(done)
    requires maxLines >= 1 ==> |lines| < maxLines
    ensures current != ""
    ensures maxLines >= 1 ==> lines + [current] == FirstLines(words, width, maxWidth, maxLines)
  {
    EndStep(words, width, maxWidth, start, current, done);
    JoinAllSnoc(done, words[start..]);
  }

  /** The lines before the last-line trim determine what wrap_text returns. */
  lemma TrimmedResult(text: string, width: string -> nat, maxWidth: nat, maxLines: int, lines: seq<string>)
    requires Split(text) != []
    requires maxLines >= 1 ==> lines == FirstLines(Split(text), width, maxWidth, maxLines)
    requires maxLines < 1 ==> |lines| <= 1
    ensures Head(TrimLastLine(lines, width, maxWidth), maxLines) == Wrapped(text, width, maxWidth, maxLines)
  {
    var t := TrimLastLine(lines, width, maxWidth);
    assert |t| == |lines|;
    if maxLines >= 1 {
      assert Head(t, maxLines) == t;
    } else {
      assert Head(t, maxLines) == [];
    }
  }

  lemma JoinAllSnoc(cs: seq<seq<string>>, c: seq<string>)
    ensures JoinAll(cs + [c]) == JoinAll(cs) + [Unwords(c)]
  {
  }

  /** The trim loop of wrap_text: while the line is too wide and longer than
      one character, its last two characters become one ellipsis. */
  method EllipsisTrim(line: string, width: string -> nat, maxWidth: nat) returns (last: string)
    ensures last == TrimLast(line, width, maxWidth)
  {
    last := line;
    while width(last) > maxWidth && |last| > 1
      invariant TrimLast(last, width, maxWidth) == TrimLast(line, width, maxWidth)
      decreases |last|
    {
      last := last[..|last| - 2] + [Ellipsis];
    }
  }

  /** The state of wrap_text when its word loop ends. */
  datatype LoopEnd = LoopEnd(current: string, lines: seq<string>)

  /** wrap_text's word loop run from the word at index i with the current line
      `current` and the closed lines `lines`: a word that fits joins the current
      line; one that does not closes the current line (if any) and starts the
      next, and the loop stops once maxLines lines are closed. */
  function Fill(words: seq<string>, width: string -> nat, maxWidth: nat, maxLines: int,
                i: nat, current: string, lines: seq<string>): LoopEnd
    requires i <= |words|
    decreases |words| - i
  {
    if i == |words| then LoopEnd(current, lines)
    else
      var test := Strip(current + " " + words[i]);
      if width(test) <= maxWidth then Fill(words, width, maxWidth, maxLines, i + 1, test, lines)
      else
        var closed := if current != "" then lines + [current] else lines;
        if |closed| >= maxLines then LoopEnd(words[i], closed)
        else Fill(words, width, maxWidth, maxLines, i + 1, words[i], closed)
  }

  /** The lines after the loop: the current line is added when there is room. */
  function Closed(e: LoopEnd, maxLines: int): seq<string> {
    if |e.lines| < maxLines && e.current != "" then e.lines + [e.current] else e.lines
  }

  /** What the loop leaves, with the current line added when there is room, is
      the first maxLines greedy lines; at most one line when maxLines < 1. */
  predicate Completes(words: seq<string>, width: string -> nat, maxWidth: nat, maxLines: int, e: LoopEnd) {
    (maxLines >= 1 ==> Closed(e, maxLines) == FirstLines(words, width, maxWidth, maxLines))
    && (maxLines < 1 ==> |Closed(e, maxLines)| <= 1)
  }

  /** Run from any reachable state, the loop completes the greedy lines. */
  lemma {:induction false} FillGreedy(words: seq<string>, width: string -> nat, maxWidth: nat, maxLines: int,
                                      start: nat, i: nat, current: string, done: seq<seq<string>>)
    requires words != [] && Progress(words, width, maxWidth, start, i, current, done)
    requires maxLines >= 1 ==> |done| < maxLines
    requires maxLines < 1 ==> done == []
    ensures Completes(words, width, maxWidth, maxLines, Fill(words, width, maxWidth, maxLines, i, current, JoinAll(done)))
    decreases |words| - i
  {
    var lines := JoinAll(done);
    if i == |words| {
      FullLines(words, width, maxWidth, start, current, done, lines, maxLines);
      assert Fill(words, width, maxWidth, maxLines, i, current, lines) == LoopEnd(current, lines);
    } else {
      var test := Strip(current + " " + words[i]);
      if width(test) <= maxWidth {
        FitStep(words, width, maxWidth, start, i, current, done);
        FillGreedy(words, width, maxWidth, maxLines, start, i + 1, test, done);
        assert Fill(words, width, maxWidth, maxLines, i, current, lines)
            == Fill(words, width, maxWidth, maxLines, i + 1, test, lines);
      } else {
        BreakStep(words, width, maxWidth, start, i, current, done);
        var done' := if current != "" then done + [words[start..i]] else done;
        var closed := if current != "" then lines + [current] else lines;
        assert JoinAll(done') == closed;
        if |closed| >= maxLines {
          CappedLines(words, width, maxWidth, i, words[i], done', closed, maxLines);
          assert Fill(words, width, maxWidth, maxLines, i, current, lines) == LoopEnd(words[i], closed);
        } else {
          FillGreedy(words, width, maxWidth, maxLines, i, i + 1, words[i], done');
          assert Fill(words, width, maxWidth, maxLines, i, current, lines)
              == Fill(words, width, maxWidth, maxLines, i + 1, words[i], closed);
        }
      }
    }
  }

  /** What the word loop leaves, with the current line added when there is
      room and the last line trimmed, cut to maxLines, is what wrap_text
      returns. */
  lemma WordLoopResult(text: string, width: string -> nat, maxWidth: nat, maxLines: int,
                       current: string, lines: seq<string>)
    requires Split(text) != []
    requires LoopEnd(current, lines) == Fill(Split(text), width, maxWidth, maxLines, 0, "", [])
    ensures Head(TrimLastLine(Closed(LoopEnd(current, lines), maxLines), width, maxWidth), maxLines)
            == Wrapped(text, width, maxWidth, maxLines)
  {
    var words := Split(text);
    StartProgress(words, width, maxWidth);
    FillGreedy(words, width, maxWidth, maxLines, 0, 0, "", []);
    TrimmedResult(text, width, maxWidth, maxLines, Closed(LoopEnd(current, lines), maxLines));
  }

  /** wrap_text. */
  method WrapText(text: string, maxWidth: nat, width: string -> nat, maxLines: int)
    returns (result: seq<string>)
    ensures result == Wrapped(text, width, maxWidth, maxLines)
  {
    var words := Split(text);
    if words == [] {
      return [""];
    }
    var lines: seq<string> := [];
    var current := "";
    var i := 0;
    while i < |words|
      invariant i <= |words|
      invariant Fill(words, width, maxWidth, maxLines, i, current, lines) == Fill(words, width, maxWidth, maxLines, 0, "", [])
    {
      var w := words[i];
      var test := Strip(current + " " + w);
      if width(test) <= maxWidth {
        current := test;
      } else {
        if current != "" {
          lines := lines + [current];
        }
        current := w;
        if |lines| >= maxLines {
          break;
        }
      }
      i := i + 1;
    }
    assert LoopEnd(current, lines) == Fill(words, width, maxWidth, maxLines, 0, "", []);
    WordLoopResult(text, width, maxWidth, maxLines, current, lines);

    if |lines| < maxLines && current != "" {
      lines := lines + [current];
    }

    if lines != [] {
      var last := EllipsisTrim(lines[|lines| - 1], width, maxWidth);
      ReplaceLast(lines, width, maxWidth, last);
      lines := lines[|lines| - 1 := last];
    }

    result := Head(lines, maxLines);
  }
}
