/** The tokeniser at the head of `execute` in main.c, its redirect cut, and the command that sudo joins again. */
module Tokenizer {

  // ---------- where tokens end ----------

  /** A space, or the NUL behind the input */
  predicate IsGap(s: string, i: nat) {
    i >= |s| || s[i] == ' '
  }

  /** A token ends just before position i. */
  predicate EndsAt(s: string, i: nat) {
    i > 0 && IsGap(s, i) && !IsGap(s, i - 1)
  }

  /** The position behind the last gap before i */
  function StartOf(s: string, i: nat): (a: nat)
    ensures a <= i
  {
    if i == 0 then 0 else if IsGap(s, i - 1) then i else StartOf(s, i - 1)
  }

  /** The tokens that end before position n */
  function TokensBefore(s: string, n: nat): seq<string>
    requires n <= |s| + 1
  {
    if n == 0 then []
    else TokensBefore(s, n - 1) + (if EndsAt(s, n - 1) then [s[StartOf(s, n - 1)..n - 1]] else [])
  }

  function Tokens(s: string): seq<string> {
    TokensBefore(s, |s| + 1)
  }

  // ---------- tokens are the maximal runs without a space ----------

  predicate SpaceFree(s: string) {
    forall i :: 0 <= i < |s| ==> s[i] != ' '
  }

  predicate Word(t: string) {
    t != "" && SpaceFree(t)
  }

  predicate Words(ts: seq<string>) {
    forall i :: 0 <= i < |ts| ==> Word(ts[i])
  }

  /** s[a..b] has no space, and neither neighbour could be added. */
  ghost predicate MaximalRun(s: string, a: nat, b: nat) {
    a < b <= |s| && SpaceFree(s[a..b]) && (a == 0 || s[a - 1] == ' ') && IsGap(s, b)
  }

  /** A list of runs from left to right */
  ghost predicate InOrder(runs: seq<(nat, nat)>) {
    forall i, j :: 0 <= i < j < |runs| ==> runs[i].1 < runs[j].0
  }

  function RunsBefore(s: string, n: nat): seq<(nat, nat)> {
    if n == 0 then []
    else RunsBefore(s, n - 1) + (if EndsAt(s, n - 1) then [(StartOf(s, n - 1), n - 1)] else [])
  }

  lemma {:induction false} StartOfIs(s: string, i: nat)
    requires i <= |s|
    ensures SpaceFree(s[StartOf(s, i)..i]) && (StartOf(s, i) == 0 || s[StartOf(s, i) - 1] == ' ')
  {
    if i > 0 && !IsGap(s, i - 1) {
      StartOfIs(s, i - 1);
      assert s[StartOf(s, i)..i] == s[StartOf(s, i)..i - 1] + [s[i - 1]];
    }
  }

  lemma {:induction false} StartOfRun(s: string, a: nat, i: nat)
    requires a <= i <= |s| && (a == 0 || s[a - 1] == ' ')
    requires forall k :: a <= k < i ==> s[k] != ' '
    ensures StartOf(s, i) == a
  {
    if i > a {
      StartOfRun(s, a, i - 1);
    }
  }

  lemma EndsAtIffRun(s: string, a: nat, b: nat)
    requires b <= |s|
    ensures EndsAt(s, b) && a == StartOf(s, b) <==> MaximalRun(s, a, b)
  {
    StartOfIs(s, b);
    if MaximalRun(s, a, b) {
      assert forall k :: a <= k < b ==> s[k] == s[a..b][k - a];
      StartOfRun(s, a, b);
    }
    if EndsAt(s, b) && a == StartOf(s, b) {
      assert s[b - 1] != ' ';
    }
  }

  lemma {:induction false} RunsAreMaximal(s: string, n: nat)
    requires n <= |s| + 1
    ensures forall a: nat, b: nat :: (a, b) in RunsBefore(s, n) <==> b < n && MaximalRun(s, a, b)
  {
    if n > 0 {
      RunsAreMaximal(s, n - 1);
      forall a: nat, b: nat
        ensures (a, b) in RunsBefore(s, n) <==> b < n && MaximalRun(s, a, b)
      {
        if b == n - 1 {
          EndsAtIffRun(s, a, b);
        }
      }
    }
  }

  lemma {:induction false} RunsInOrder(s: string, n: nat)
    requires n <= |s| + 1
    ensures InOrder(RunsBefore(s, n))
  {
    if n > 0 {
      RunsInOrder(s, n - 1);
      if EndsAt(s, n - 1) {
        var before := RunsBefore(s, n - 1);
        forall i | 0 <= i < |before|
          ensures before[i].1 < StartOf(s, n - 1)
        {
          var (a, b) := before[i];
          assert (a, b) in before;
          RunsAreMaximal(s, n - 1);
          StartBehindGap(s, b, n - 1);
        }
      }
    }
  }

  lemma {:induction false} StartBehindGap(s: string, b: nat, i: nat)
    requires b < i <= |s| && IsGap(s, b)
    ensures b < StartOf(s, i)
  {
    if b < i - 1 {
      StartBehindGap(s, b, i - 1);
    }
  }

  ghost predicate TextsOf(s: string, runs: seq<(nat, nat)>, ts: seq<string>) {
    |ts| == |runs| && forall i :: 0 <= i < |ts| ==> runs[i].0 <= runs[i].1 <= |s| && ts[i] == s[runs[i].0..runs[i].1]
  }

  lemma {:induction false} TextsOfRuns(s: string, n: nat)
    requires n <= |s| + 1
    ensures TextsOf(s, RunsBefore(s, n), TokensBefore(s, n))
  {
    if n > 0 {
      TextsOfRuns(s, n - 1);
    }
  }

  /** The tokens are the texts of exactly the maximal runs, from left to right. */
  lemma TokensAreTheRuns(s: string)
    ensures exists runs :: InOrder(runs) && TextsOf(s, runs, Tokens(s))
                           && forall a: nat, b: nat :: (a, b) in runs <==> MaximalRun(s, a, b)
  {
    var n := |s| + 1;
    RunsAreMaximal(s, n);
    RunsInOrder(s, n);
    TextsOfRuns(s, n);
  }

  lemma {:induction false} TokensAreWords(s: string, n: nat)
    requires n <= |s| + 1
    ensures Words(TokensBefore(s, n))
  {
    if n > 0 {
      TokensAreWords(s, n - 1);
      StartOfIs(s, n - 1);
    }
  }

  // ---------- the two passes ----------

  /** The count pass */
  method CountTokens(input: string) returns (tokenCount: nat)
    ensures tokenCount == |Tokens(input)|
  {
    tokenCount := 0;
    var inToken := false;
    var i := 0;
    while i <= |input|
      invariant 0 <= i <= |input| + 1
      invariant inToken <==> i > 0 && !IsGap(input, i - 1)
      invariant tokenCount == |TokensBefore(input, i)|
    {
      if IsGap(input, i) {
        if inToken {
          tokenCount, inToken := tokenCount + 1, false;
        }
      } else {
        inToken := true;
      }
      i := i + 1;
    }
  }

  /** Both passes: the split pass writes every element of the array that the count pass sized, and nothing behind it. */
  method Tokenize(input: string) returns (tokens: array<string>)
    ensures fresh(tokens) && tokens[..] == Tokens(input)
  {
    var tokenCount := CountTokens(input);
    tokens := new string[tokenCount];
    var idx, start, i := 0, 0, 0;
    while i <= |input|
      invariant 0 <= i <= |input| + 1 && start == StartOf(input, i)
      invariant idx == |TokensBefore(input, i)| <= tokenCount
      invariant tokens[..idx] == TokensBefore(input, i)
    {
      CountGrows(input, i + 1, |input| + 1);
      if IsGap(input, i) {
        if i > start {
          StartOfIs(input, i);
          assert input[start..i][i - 1 - start] == input[i - 1];
          tokens[idx] := input[start..i];
          idx := idx + 1;
        }
        start := i + 1;
      }
      i := i + 1;
    }
  }

  lemma {:induction false} CountGrows(s: string, m: nat, n: nat)
    requires m <= n <= |s| + 1
    ensures |TokensBefore(s, m)| <= |TokensBefore(s, n)|
  {
    if m < n {
      CountGrows(s, m, n - 1);
    }
  }

  // ---------- the redirect cut ----------

  datatype Redirect = None | Overwrite(file: string) | Append(file: string)

  predicate IsRedirect(tokens: seq<string>, i: nat) {
    i + 1 < |tokens| && (tokens[i] == ">>" || tokens[i] == ">")
  }

  /** The first operator with a file behind it cuts the command; without one it stays whole. */
  method CutRedirect(tokens: array<string>) returns (redirect: Redirect, tokenCount: nat)
    ensures tokenCount <= tokens.Length
    ensures forall i: nat :: i < tokenCount && i + 1 < tokens.Length ==> tokens[i] != ">>" && tokens[i] != ">"
    ensures redirect == None <==> tokenCount == tokens.Length
    ensures redirect != None ==> tokenCount + 1 < tokens.Length && redirect.file == tokens[tokenCount + 1]
    ensures redirect.Append? ==> tokens[tokenCount] == ">>"
    ensures redirect.Overwrite? ==> tokens[tokenCount] == ">"
  {
    redirect, tokenCount := None, tokens.Length;
    var i := 0;
    while i < tokenCount
      invariant 0 <= i <= tokenCount == tokens.Length && redirect == None
      invariant forall j: nat :: j < i && j + 1 < tokens.Length ==> tokens[j] != ">>" && tokens[j] != ">"
    {
      if tokens[i] == ">>" && i + 1 < tokenCount {
        return Append(tokens[i + 1]), i;
      } else if tokens[i] == ">" && i + 1 < tokenCount {
        return Overwrite(tokens[i + 1]), i;
      }
      i := i + 1;
    }
  }

  // ---------- sudo puts the rest of the command together again ----------

  function Join(ts: seq<string>): string {
    if ts == [] then ""
    else if |ts| == 1 then ts[0]
    else Join(ts[..|ts| - 1]) + " " + ts[|ts| - 1]
  }

  method SudoInput(tokens: array<string>, tokenCount: nat) returns (sudoInput: string)
    requires 1 <= tokenCount <= tokens.Length
    ensures sudoInput == Join(tokens[1..tokenCount])
  {
    sudoInput := "";
    var i := 1;
    while i < tokenCount
      invariant 1 <= i <= tokenCount
      invariant sudoInput == Join(tokens[1..i])
    {
      assert tokens[1..i + 1] == tokens[1..i] + [tokens[i]];
      if i > 1 {
        sudoInput := sudoInput + " ";
      }
      sudoInput := sudoInput + tokens[i];
      i := i + 1;
    }
  }

  lemma {:induction false} SamePrefix(s: string, t: string, n: nat)
    requires n <= |s| + 1 <= |t| + 1 && t[..|s|] == s && IsGap(t, |s|)
    ensures TokensBefore(t, n) == TokensBefore(s, n)
  {
    if n > 0 {
      SamePrefix(s, t, n - 1);
      SameStart(s, t, n - 1);
      assert forall i :: 0 <= i < |s| ==> t[i] == t[..|s|][i];
      var a := StartOf(s, n - 1);
      assert s[a..n - 1] == t[a..n - 1];
    }
  }

  lemma {:induction false} SameStart(s: string, t: string, n: nat)
    requires n <= |s| <= |t| && t[..|s|] == s
    ensures StartOf(t, n) == StartOf(s, n)
  {
    if n > 0 {
      assert t[n - 1] == t[..|s|][n - 1];
      SameStart(s, t, n - 1);
    }
  }

  /** No token ends inside a run. */
  lemma {:induction false} NoEnd(s: string, a: nat, n: nat)
    requires a <= n <= |s| && forall k :: a <= k < n ==> s[k] != ' '
    ensures TokensBefore(s, n) == TokensBefore(s, a)
  {
    if n > a {
      NoEnd(s, a, n - 1);
    }
  }

  lemma TokensAppend(s: string, t: string)
    requires Word(t)
    ensures Tokens(s + " " + t) == Tokens(s) + [t]
  {
    var u, a := s + " " + t, |s| + 1;
    SamePrefix(s, u, |s| + 1);
    NoEnd(u, a, |u|);
    StartOfRun(u, a, |u|);
    assert u[a..|u|] == t;
  }

  lemma TokensOne(t: string)
    requires Word(t)
    ensures Tokens(t) == [t]
  {
    NoEnd(t, 0, |t|);
    StartOfRun(t, 0, |t|);
    assert t[0..|t|] == t;
  }

  /** Words joined with single spaces parse back to the same words. */
  lemma {:induction false} JoinThenTokens(ts: seq<string>)
    requires Words(ts)
    ensures Tokens(Join(ts)) == ts
  {
    if |ts| == 1 {
      TokensOne(ts[0]);
    } else if |ts| > 1 {
      var front, last := ts[..|ts| - 1], ts[|ts| - 1];
      JoinThenTokens(front);
      TokensAppend(Join(front), last);
      assert ts == front + [last];
    } else {
      assert TokensBefore("", 1) == TokensBefore("", 0);
    }
  }

  lemma JoinSnoc(ts: seq<string>, t: string)
    ensures Join(ts + [t]) == if ts == [] then t else Join(ts) + " " + t
  {
    assert (ts + [t])[..|ts|] == ts;
  }

  /** Joining never makes a text longer, so the joined command fits where the input did. */
  lemma {:induction false} JoinFits(s: string, n: nat)
    requires n <= |s| + 1
    ensures |Join(TokensBefore(s, n))| <= if n == 0 then 0 else n - 1
    decreases n
  {
    if n > 0 {
      var m := n - 1;
      var before := TokensBefore(s, m);
      JoinFits(s, m);
      if EndsAt(s, m) {
        var a := StartOf(s, m);
        StartOfIs(s, m);
        assert forall k :: a <= k < m ==> s[k] == s[a..m][k - a];
        NoEnd(s, a, m);
        JoinFits(s, a);
        JoinSnoc(before, s[a..m]);
      } else {
        assert TokensBefore(s, n) == before;
      }
    }
  }

  lemma {:induction false} JoinSplit(ts: seq<string>, k: nat)
    requires 0 < k < |ts|
    ensures Join(ts) == Join(ts[..k]) + " " + Join(ts[k..])
    decreases |ts|
  {
    var n := |ts| - 1;
    var front := ts[..n];
    if k < n {
      JoinSplit(front, k);
      assert front[..k] == ts[..k] && front[k..] == ts[k..][..n - k];
    }
  }

  /**
   * The command behind sudo: for every input, it parses to the tokens behind the first up to the redirect cut,
   * holds no redirect of its own, and is at least five characters shorter than an input that starts with the token
   * sudo.
   */
  lemma SudoReparses(input: string, tokenCount: nat)
    requires 2 <= tokenCount <= |Tokens(input)| && Tokens(input)[0] == "sudo"
    requires forall i: nat :: i < tokenCount ==> !IsRedirect(Tokens(input), i)
    ensures var again := Join(Tokens(input)[1..tokenCount]);
            && Tokens(again) == Tokens(input)[1..tokenCount]
            && (forall i: nat :: !IsRedirect(Tokens(again), i))
            && |again| + 5 <= |input|
  {
    var ts := Tokens(input);
    TokensAreWords(input, |input| + 1);
    JoinThenTokens(ts[1..tokenCount]);
    JoinFits(input, |input| + 1);
    if tokenCount < |ts| {
      JoinSplit(ts, tokenCount);
    } else {
      assert ts[..tokenCount] == ts;
    }
    var kept := ts[..tokenCount];
    JoinSplit(kept, 1);
    assert kept[..1] == ["sudo"] && kept[1..] == ts[1..tokenCount];
    assert forall i: nat :: IsRedirect(ts[1..tokenCount], i) ==> IsRedirect(ts, i + 1);
  }
}
