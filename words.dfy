/**
 * Splitting a line into words and joining words back with spaces: the
 * `split` of asg5/cix-client.cpp (the shell of asg1 resolves paths with a
 * `split` of the same contract, in a utility file that is not part of this
 * model), and the joining done by the shell's `echo`.
 */
module Words {
  import opened Outcomes

  /** Length of the longest prefix of s that holds no delimiter. */
  function RunLength(s: string, delims: set<char>): (n: nat)
    ensures n <= |s|
    ensures forall i :: 0 <= i < n ==> s[i] !in delims
    ensures n < |s| ==> s[n] in delims
  {
    if s == [] || s[0] in delims then 0 else 1 + RunLength(s[1..], delims)
  }

  /**
   * The words of s: its maximal runs of characters outside delims, in
   * order. No word is empty, no word holds a delimiter, and together the
   * words hold exactly the characters of s that are not delimiters.
   */
  function Tokens(s: string, delims: set<char>): (r: seq<string>)
    ensures forall k :: 0 <= k < |r| ==> r[k] != [] && NoDelims(r[k], delims)
    ensures Concat(r) == Kept(s, delims)
    decreases |s|
  {
    if s == [] then []
    else if s[0] in delims then Tokens(s[1..], delims)
    else
      var n := RunLength(s, delims);
      KeptRun(s, n, delims);
      ConcatCons(s[..n], Tokens(s[n..], delims));
      [s[..n]] + Tokens(s[n..], delims)
  }

  predicate NoDelims(w: string, delims: set<char>)
  {
    forall i :: 0 <= i < |w| ==> w[i] !in delims
  }

  /** The words run together. */
  function Concat(ws: seq<string>): string
  {
    if ws == [] then "" else ws[0] + Concat(ws[1..])
  }

  /** The characters of s outside delims, in order. */
  function Kept(s: string, delims: set<char>): string
  {
    if s == [] then "" else (if s[0] in delims then "" else [s[0]]) + Kept(s[1..], delims)
  }

  lemma ConcatCons(w: string, ws: seq<string>)
    ensures Concat([w] + ws) == w + Concat(ws)
  {
    assert ([w] + ws)[1..] == ws;
  }

  /** A run without delimiters is kept whole. */
  lemma {:induction false} KeptRun(s: string, n: nat, delims: set<char>)
    requires n <= |s| && forall i :: 0 <= i < n ==> s[i] !in delims
    ensures Kept(s, delims) == s[..n] + Kept(s[n..], delims)
  {
    if n > 0 {
      KeptRun(s[1..], n - 1, delims);
      assert s[1..][n - 1..] == s[n..];
      assert s[..n] == [s[0]] + s[1..][..n - 1];
    } else {
      assert s[n..] == s;
    }
  }

  // ---------------------------------------------------------------------
  // string::find_first_not_of and string::find_first_of, with npos as |s|
  // ---------------------------------------------------------------------

  /** The first position at or after `from` that holds no delimiter; |s| when there is none. */
  function FirstNotOf(s: string, delims: set<char>, from: nat): (p: nat)
    requires from <= |s|
    ensures from <= p <= |s|
    ensures forall i :: from <= i < p ==> s[i] in delims
    ensures p < |s| ==> s[p] !in delims
    decreases |s| - from
  {
    if from == |s| || s[from] !in delims then from else FirstNotOf(s, delims, from + 1)
  }

  /** The first position at or after `from` that holds a delimiter; |s| when there is none. */
  function FirstOf(s: string, delims: set<char>, from: nat): (p: nat)
    requires from <= |s|
    ensures from <= p <= |s|
    ensures forall i :: from <= i < p ==> s[i] !in delims
    ensures p < |s| ==> s[p] in delims
    decreases |s| - from
  {
    if from == |s| || s[from] in delims then from else FirstOf(s, delims, from + 1)
  }

  /**
   * split (cix-client.cpp:246-256): repeatedly skips delimiters and cuts
   * the following run, until only delimiters remain.
   */
  method Split(line: string, delims: set<char>) returns (words: seq<string>)
    ensures words == Tokens(line, delims)
  {
    words := [];
    var end := 0;
    assert line[0..] == line;
    while true
      invariant 0 <= end <= |line|
      invariant words + Tokens(line[end..], delims) == Tokens(line, delims)
      decreases |line| - end
    {
      var start := FirstNotOf(line, delims, end);
      SkipDelims(line, delims, end, start);
      if start == |line| {
        assert line[start..] == [];
        return;
      }
      var stop := FirstOf(line, delims, start);
      TakeRun(line, delims, start, stop);
      words := words + [line[start..stop]];
      end := stop;
    }
  }

  lemma {:induction false} SkipDelims(s: string, delims: set<char>, from: nat, to: nat)
    requires from <= to <= |s| && forall i :: from <= i < to ==> s[i] in delims
    ensures Tokens(s[from..], delims) == Tokens(s[to..], delims)
    decreases |s| - from
  {
    if from < to {
      assert s[from..][1..] == s[from + 1..];
      SkipDelims(s, delims, from + 1, to);
    }
  }

  lemma TakeRun(s: string, delims: set<char>, start: nat, stop: nat)
    requires start < stop <= |s|
    requires forall i :: start <= i < stop ==> s[i] !in delims
    requires stop < |s| ==> s[stop] in delims
    ensures Tokens(s[start..], delims) == [s[start..stop]] + Tokens(s[stop..], delims)
  {
    var t := s[start..];
    RunOf(t, stop - start, delims);
    assert t[..stop - start] == s[start..stop];
    assert t[stop - start..] == s[stop..];
  }

  lemma {:induction false} RunOf(t: string, n: nat, delims: set<char>)
    requires 0 < n <= |t| && forall i :: 0 <= i < n ==> t[i] !in delims
    requires n < |t| ==> t[n] in delims
    ensures RunLength(t, delims) == n
  {
    if n > 1 {
      RunOf(t[1..], n - 1, delims);
    } else if 1 < |t| {
      assert t[1..][0] == t[1];
    }
  }

  // ---------------------------------------------------------------------
  // Joining words with single spaces
  // ---------------------------------------------------------------------

  /** The words with one space between each pair. */
  function Join(ws: seq<string>): string
  {
    if ws == [] then ""
    else if |ws| == 1 then ws[0]
    else Join(ws[..|ws| - 1]) + " " + ws[|ws| - 1]
  }

  /** Tokens of a text with a delimiter in the middle are the tokens of both sides. */
  lemma {:induction false} TokensAround(a: string, d: char, b: string, delims: set<char>)
    requires d in delims
    ensures Tokens(a + [d] + b, delims) == Tokens(a, delims) + Tokens(b, delims)
    decreases |a|
  {
    var s := a + [d] + b;
    if a == [] {
      assert s[1..] == b;
    } else if a[0] in delims {
      assert s[1..] == a[1..] + [d] + b;
      TokensAround(a[1..], d, b, delims);
    } else {
      var n := RunLength(a, delims);
      RunAround(a, d, b, delims);
      if n < |a| {
        assert s[..n] == a[..n];
        assert s[n..] == a[n..] + [d] + b;
        TokensAround(a[n..], d, b, delims);
      } else {
        assert s[..n] == a && a[..n] == a && a[n..] == [];
        assert Tokens(a, delims) == [a];
        assert s[n..] == [d] + b;
        assert ([d] + b)[0] == d && ([d] + b)[1..] == b;
        assert Tokens(s[n..], delims) == Tokens(b, delims);
      }
    }
  }

  lemma {:induction false} RunAround(a: string, d: char, b: string, delims: set<char>)
    requires d in delims
    ensures RunLength(a + [d] + b, delims) == RunLength(a, delims)
    decreases |a|
  {
    if a != [] && a[0] !in delims {
      assert (a + [d] + b)[1..] == a[1..] + [d] + b;
      RunAround(a[1..], d, b, delims);
    }
  }

  lemma TokensOfWord(w: string, delims: set<char>)
    requires w != [] && NoDelims(w, delims)
    ensures Tokens(w, delims) == [w]
  {
    RunOf(w, |w|, delims);
    assert w[..|w|] == w && w[|w|..] == [];
  }

  /**
   * Joining non-empty words that hold no delimiter, with a space that is
   * one, and splitting the result again gives back the same words.
   */
  lemma {:induction false} SplitJoin(ws: seq<string>, delims: set<char>)
    requires ' ' in delims
    requires forall k :: 0 <= k < |ws| ==> ws[k] != [] && NoDelims(ws[k], delims)
    ensures Tokens(Join(ws), delims) == ws
  {
    if |ws| == 1 {
      TokensOfWord(ws[0], delims);
    } else if |ws| > 1 {
      var n := |ws|;
      SplitJoin(ws[..n - 1], delims);
      TokensAround(Join(ws[..n - 1]), ' ', ws[n - 1], delims);
      TokensOfWord(ws[n - 1], delims);
      assert ws == ws[..n - 1] + [ws[n - 1]];
    }
  }

  // ---------------------------------------------------------------------
  // The last word of a path, and string::rfind
  // ---------------------------------------------------------------------

  /** w occurs in s at position q. */
  predicate MatchAt(s: string, w: string, q: int)
  {
    0 <= q && q + |w| <= |s| && s[q..q + |w|] == w
  }

  function LastMatchAtOrBelow(s: string, w: string, q: nat): (r: Option<nat>)
    requires q + |w| <= |s|
    ensures r.Some? ==> r.value <= q && MatchAt(s, w, r.value)
    ensures r.Some? ==> forall j :: r.value < j <= q ==> !MatchAt(s, w, j)
    ensures r.None? ==> forall j :: 0 <= j <= q ==> !MatchAt(s, w, j)
    decreases q
  {
    if s[q..q + |w|] == w then Some(q)
    else if q == 0 then None
    else LastMatchAtOrBelow(s, w, q - 1)
  }

  /** string::rfind: the last position where w occurs in s, if any. */
  function RFind(s: string, w: string): (r: Option<nat>)
    ensures r.Some? ==> MatchAt(s, w, r.value) && forall j :: r.value < j ==> !MatchAt(s, w, j)
    ensures r.None? ==> forall j :: !MatchAt(s, w, j)
  {
    if |w| > |s| then None else LastMatchAtOrBelow(s, w, |s| - |w|)
  }

  lemma {:induction false} NoTokens(t: string, delims: set<char>)
    requires forall i :: 0 <= i < |t| ==> t[i] in delims
    ensures Tokens(t, delims) == []
    decreases |t|
  {
    if t != [] {
      NoTokens(t[1..], delims);
    }
  }

  /**
   * A text that ends in a word followed only by delimiters, with a
   * delimiter (or nothing) before that word, has that word as its last token.
   */
  lemma {:induction false} TokensLastWord(a: string, w: string, t: string, delims: set<char>)
    requires a == [] || a[|a| - 1] in delims
    requires w != [] && NoDelims(w, delims)
    requires forall i :: 0 <= i < |t| ==> t[i] in delims
    ensures Tokens(a + w + t, delims) == Tokens(a, delims) + [w]
  {
    WordThenDelims(w, t, delims);
    if a != [] {
      var a' := a[..|a| - 1];
      var d := a[|a| - 1];
      assert a + w + t == a' + [d] + (w + t);
      TokensAround(a', d, w + t, delims);
      TrailingDelim(a, delims);
    } else {
      assert a + w + t == w + t;
    }
  }

  lemma TrailingDelim(a: string, delims: set<char>)
    requires a != [] && a[|a| - 1] in delims
    ensures Tokens(a, delims) == Tokens(a[..|a| - 1], delims)
  {
    assert a == a[..|a| - 1] + [a[|a| - 1]] + [];
    TokensAround(a[..|a| - 1], a[|a| - 1], [], delims);
  }

  lemma WordThenDelims(w: string, t: string, delims: set<char>)
    requires w != [] && NoDelims(w, delims)
    requires forall i :: 0 <= i < |t| ==> t[i] in delims
    ensures Tokens(w + t, delims) == [w]
  {
    var wt := w + t;
    RunOf(wt, |w|, delims);
    assert wt[..|w|] == w && wt[|w|..] == t;
    NoTokens(t, delims);
  }

  /** Where the last word of s starts and ends. */
  lemma {:induction false} LastWord(s: string, delims: set<char>) returns (p: nat, e: nat)
    requires Tokens(s, delims) != []
    ensures p < e <= |s| && (p == 0 || s[p - 1] in delims) && NoDelims(s[p..e], delims)
    ensures forall i :: e <= i < |s| ==> s[i] in delims
    decreases |s|
  {
    var n := |s|;
    if s[n - 1] in delims {
      var s' := s[..n - 1];
      assert s == s' + [s[n - 1]] + [];
      TokensAround(s', s[n - 1], [], delims);
      p, e := LastWord(s', delims);
      assert s[p..e] == s'[p..e];
    } else {
      p := RunStart(s, delims);
      e := n;
    }
  }

  /** Where the run of non-delimiters that ends s starts. */
  lemma {:induction false} RunStart(s: string, delims: set<char>) returns (p: nat)
    requires s != [] && s[|s| - 1] !in delims
    ensures p < |s| && (p == 0 || s[p - 1] in delims) && NoDelims(s[p..], delims)
    decreases |s|
  {
    var n := |s|;
    if n == 1 || s[n - 2] in delims {
      p := n - 1;
    } else {
      p := RunStart(s[..n - 1], delims);
      assert s[p..] == s[..n - 1][p..] + [s[n - 1]];
    }
  }

  /**
   * The shells cut a path at the rfind of its last word: that finds the
   * start of the last word, the text before it holds all the other words,
   * and it is empty only for a single relative word.
   */
  lemma {:induction false} PathSplit(s: string, delims: set<char>)
    requires Tokens(s, delims) != []
    ensures var ts := Tokens(s, delims);
      RFind(s, ts[|ts| - 1]).Some? &&
      var p := RFind(s, ts[|ts| - 1]).value;
      Tokens(s[..p], delims) == ts[..|ts| - 1] &&
      (p == 0 <==> |ts| == 1 && s[0] !in delims)
  {
    var p, e := LastWord(s, delims);
    var a, w, t := s[..p], s[p..e], s[e..];
    assert s == a + w + t;
    TokensLastWord(a, w, t, delims);
    var ts := Tokens(s, delims);
    assert ts[|ts| - 1] == w && ts[..|ts| - 1] == Tokens(a, delims);
    RFindLastWord(s, delims, p, e);
    if p == 0 {
      assert a == [];
      assert s[0] == w[0];
    } else if s[0] !in delims {
      assert a[0] == s[0];
      LeadingWord(a, delims);
    }
  }

  lemma {:induction false} RFindLastWord(s: string, delims: set<char>, p: nat, e: nat)
    requires p < e <= |s| && NoDelims(s[p..e], delims)
    requires forall i :: e <= i < |s| ==> s[i] in delims
    ensures RFind(s, s[p..e]) == Some(p)
  {
    var w := s[p..e];
    assert MatchAt(s, w, p);
    forall j | p < j
      ensures !MatchAt(s, w, j)
    {
      if j + |w| <= |s| {
        // the window at j reaches past the last word, onto a delimiter
        var i := if j < e then e else j;
        assert s[j..j + |w|][i - j] == s[i] && s[i] in delims;
        assert w[i - j] !in delims;
      }
    }
  }

  lemma LeadingWord(a: string, delims: set<char>)
    requires a != [] && a[0] !in delims
    ensures Tokens(a, delims) != []
  {
  }
}
