/** Python's string primitives that the bingo generator relies on:
    str.isspace, str.strip and str.split() (no separator), and Unwords, the
    words of a line joined by single spaces, which describes the lines that
    wrap_text builds (Wrap.CandidateLine proves this). */
module Text {

  /** A code point that Python's str.isspace accepts; str.strip() removes these
      at both ends and str.split() separates words on runs of them. */
  predicate IsSpace(c: char) {
    c == ' ' || ('\t' <= c <= '\r') || ('\U{1C}' <= c <= '\U{1F}')
    || c == '\U{85}' || c == '\U{A0}' || c == '\U{1680}'
    || ('\U{2000}' <= c <= '\U{200A}') || c == '\U{2028}' || c == '\U{2029}'
    || c == '\U{202F}' || c == '\U{205F}' || c == '\U{3000}'
  }

  predicate AllSpace(s: string) {
    forall i :: 0 <= i < |s| ==> IsSpace(s[i])
  }

  predicate NoSpace(s: string) {
    forall i :: 0 <= i < |s| ==> !IsSpace(s[i])
  }

  /** A word as str.split() produces it: non-empty, no whitespace inside. */
  predicate IsWord(s: string) {
    s != "" && NoSpace(s)
  }

  /** No surrounding whitespace, i.e. a fixed point of str.strip(). */
  predicate Trimmed(s: string) {
    s == "" || (!IsSpace(s[0]) && !IsSpace(s[|s| - 1]))
  }

  /** str.lstrip(). */
  function StripLeft(s: string): string {
    if s != "" && IsSpace(s[0]) then StripLeft(s[1..]) else s
  }

  /** str.rstrip(). */
  function StripRight(s: string): string {
    if s != "" && IsSpace(s[|s| - 1]) then StripRight(s[..|s| - 1]) else s
  }

  /** str.strip(). */
  function Strip(s: string): string {
    StripRight(StripLeft(s))
  }

  /** str.lstrip() removes the longest all-whitespace prefix: what is left is a
      suffix that does not start with whitespace. */
  lemma {:induction false} StripLeftSpec(s: string)
    ensures |StripLeft(s)| <= |s| && StripLeft(s) == s[|s| - |StripLeft(s)|..]
    ensures AllSpace(s[..|s| - |StripLeft(s)|])
    ensures StripLeft(s) == "" || !IsSpace(StripLeft(s)[0])
    decreases |s|
  {
    if s != "" && IsSpace(s[0]) {
      StripLeftSpec(s[1..]);
      var r := StripLeft(s[1..]);
      assert s[..|s| - |r|] == [s[0]] + s[1..][..|s| - 1 - |r|];
    }
  }

  /** str.rstrip() removes the longest all-whitespace suffix: what is left is a
      prefix that does not end with whitespace. */
  lemma {:induction false} StripRightSpec(s: string)
    ensures |StripRight(s)| <= |s| && StripRight(s) == s[..|StripRight(s)|]
    ensures AllSpace(s[|StripRight(s)|..])
    ensures StripRight(s) == "" || !IsSpace(StripRight(s)[|StripRight(s)| - 1])
    decreases |s|
  {
    if s != "" && IsSpace(s[|s| - 1]) {
      StripRightSpec(s[..|s| - 1]);
      var r := StripRight(s[..|s| - 1]);
      assert s[|r|..] == s[..|s| - 1][|r|..] + [s[|s| - 1]];
    }
  }

  /** str.strip() leaves no surrounding whitespace, is empty exactly for
      all-whitespace input, and leaves a trimmed string unchanged. */
  lemma StripSpec(s: string)
    ensures Trimmed(Strip(s)) && |Strip(s)| <= |s|
    ensures Strip(s) == "" <==> AllSpace(s)
    ensures Trimmed(s) ==> Strip(s) == s
  {
    var l := StripLeft(s);
    StripLeftSpec(s);
    StripRightSpec(l);
    var r := StripRight(l);
    if l != "" {
      assert !IsSpace(s[|s| - |l|]);
    }
    if Trimmed(s) && s != "" {
      assert l == s;
    }
  }

  /** Length of the leading run of non-whitespace characters of s. */
  function WordEnd(s: string): (n: nat)
    ensures n <= |s| && NoSpace(s[..n])
    ensures n < |s| ==> IsSpace(s[n])
  {
    if s == "" || IsSpace(s[0]) then 0
    else
      var n := 1 + WordEnd(s[1..]);
      assert s[..n] == [s[0]] + s[1..][..n - 1];
      n
  }

  /** str.split() with no separator: the maximal runs of non-whitespace. */
  function Split(s: string): (r: seq<string>)
    ensures AllWords(r)
    ensures r == [] <==> AllSpace(s)
    decreases |s|
  {
    var t := StripLeft(s);
    StripLeftSpec(s);
    if t == "" then
      assert s[..|s|] == s;
      []
    else
      assert s[|s| - |t|] == t[0] && !IsSpace(t[0]);
      assert !AllSpace(s);
      var n := WordEnd(t);
      assert n > 0;
      var rest := Split(t[n..]);
      AllWordsCons(t[..n], rest);
      [t[..n]] + rest
  }

  /** The words joined by single spaces. */
  function Unwords(ws: seq<string>): string {
    if ws == [] then ""
    else if |ws| == 1 then ws[0]
    else ws[0] + " " + Unwords(ws[1..])
  }

  predicate AllWords(ws: seq<string>) {
    forall k :: 0 <= k < |ws| ==> IsWord(ws[k])
  }

  lemma AllWordsCons(w: string, ws: seq<string>)
    requires IsWord(w) && AllWords(ws)
    ensures AllWords([w] + ws)
  {
    var r := [w] + ws;
    forall k | 0 <= k < |r| ensures IsWord(r[k]) {
      if k > 0 { assert r[k] == ws[k - 1]; }
    }
  }

  /** Joining words gives a non-empty string without surrounding whitespace. */
  lemma {:induction false} UnwordsTrimmed(ws: seq<string>)
    requires ws != [] && AllWords(ws)
    ensures Unwords(ws) != "" && Trimmed(Unwords(ws))
    ensures Unwords(ws)[0] == ws[0][0]
    ensures Unwords(ws)[|Unwords(ws)| - 1] == ws[|ws| - 1][|ws[|ws| - 1]| - 1]
    decreases |ws|
  {
    if |ws| > 1 {
      UnwordsTrimmed(ws[1..]);
    }
  }

  /** Appending one word to a joined line adds a space and the word. */
  lemma {:induction false} UnwordsSnoc(ws: seq<string>, w: string)
    requires ws != []
    ensures Unwords(ws + [w]) == Unwords(ws) + " " + w
    decreases |ws|
  {
    if |ws| > 1 {
      assert (ws + [w])[1..] == ws[1..] + [w];
      UnwordsSnoc(ws[1..], w);
    }
  }

  /** Leading whitespace does not change what str.split() returns. */
  lemma SplitSkipsSpace(s: string)
    ensures Split(" " + s) == Split(s)
  {
    assert (" " + s)[1..] == s;
  }

  lemma {:induction false} WordEndOfWord(w: string, rest: string)
    requires NoSpace(w)
    requires rest == "" || IsSpace(rest[0])
    ensures WordEnd(w + rest) == |w|
    decreases |w|
  {
    if w != "" {
      assert (w + rest)[1..] == w[1..] + rest;
      WordEndOfWord(w[1..], rest);
    }
  }

  /** Splitting a line of joined words gives back exactly those words. */
  lemma {:induction false} SplitUnwords(ws: seq<string>)
    requires AllWords(ws)
    ensures Split(Unwords(ws)) == ws
    decreases |ws|
  {
    if ws == [] {
    } else if |ws| == 1 {
      var w := ws[0];
      WordEndOfWord(w, "");
      assert w + "" == w;
      assert w[|w|..] == "";
    } else {
      var w, u := ws[0], Unwords(ws[1..]);
      var s := w + " " + u;
      UnwordsTrimmed(ws[1..]);
      assert s == w + (" " + u);
      WordEndOfWord(w, " " + u);
      assert s[..|w|] == w;
      assert s[|w|..] == " " + u;
      SplitSkipsSpace(u);
      SplitUnwords(ws[1..]);
    }
  }

  /** A single space before a word is stripped away. */
  lemma StripSpaceWord(w: string)
    requires IsWord(w)
    ensures Strip(" " + w) == w
  {
    assert (" " + w)[1..] == w;
    assert StripLeft(" " + w) == w;
    assert StripRight(w) == w;
  }
}
