/** Cutting a string at every occurrence of a delimiter, from the left. */
module SplitStr {

  predicate OccursAt(s: string, d: string, i: nat) {
    i + |d| <= |s| && s[i..i + |d|] == d
  }

  /** `std::string::find` from index i on; -1 for `npos`. */
  function FindFrom(s: string, d: string, i: nat): (r: int)
    ensures r == -1 || (i <= r && OccursAt(s, d, r))
    ensures forall k: nat :: i <= k && OccursAt(s, d, k) ==> 0 <= r <= k
    decreases |s| - i
  {
    if OccursAt(s, d, i) then i
    else if i >= |s| then -1
    else FindFrom(s, d, i + 1)
  }

  function Find(s: string, d: string): int {
    FindFrom(s, d, 0)
  }

  function Split(s: string, d: string): (tokens: seq<string>)
    requires d != ""
    ensures |tokens| > 0
    decreases |s|
  {
    var pos := Find(s, d);
    if pos == -1 then [s] else [s[..pos]] + Split(s[pos + |d|..], d)
  }

  /** An empty delimiter would be found for ever; for any other the loop ends. */
  method SplitString(str: string, delimiter: string) returns (tokens: seq<string>)
    requires delimiter != ""
    ensures tokens == Split(str, delimiter)
  {
    var s := str;
    tokens := [];
    var pos := Find(s, delimiter);
    while pos != -1
      invariant pos == Find(s, delimiter)
      invariant tokens + Split(s, delimiter) == Split(str, delimiter)
      decreases |s|
    {
      var token := s[..pos];
      assert tokens + ([token] + Split(s[pos + |delimiter|..], delimiter))
          == tokens + [token] + Split(s[pos + |delimiter|..], delimiter);
      tokens := tokens + [token];
      s := s[pos + |delimiter|..];
      pos := Find(s, delimiter);
    }
    tokens := tokens + [s];
  }

  function Join(tokens: seq<string>, d: string): string
    requires |tokens| > 0
  {
    if |tokens| == 1 then tokens[0] else tokens[0] + d + Join(tokens[1..], d)
  }

  /** An occurrence, character by character. */
  lemma OccursPointwise(s: string, d: string)
    ensures forall k: nat :: OccursAt(s, d, k) <==> k + |d| <= |s| && forall j :: 0 <= j < |d| ==> s[k + j] == d[j]
  {
    forall k: nat
      ensures OccursAt(s, d, k) <==> k + |d| <= |s| && forall j :: 0 <= j < |d| ==> s[k + j] == d[j]
    {
      if k + |d| <= |s| {
        var piece := s[k..k + |d|];
        assert forall j :: 0 <= j < |d| ==> piece[j] == s[k + j];
        assert piece == d <==> forall j :: 0 <= j < |d| ==> piece[j] == d[j];
      }
    }
  }

  lemma BeforeFirst(s: string, d: string)
    ensures Find(s, d) != -1 ==> d == "" || Find(s[..Find(s, d)], d) == -1
  {
    var pos := Find(s, d);
    if pos != -1 && d != "" {
      var front := s[..pos];
      OccursPointwise(s, d);
      OccursPointwise(front, d);
      assert forall k: nat :: OccursAt(front, d, k) ==> OccursAt(s, d, k) && k < pos;
    }
  }

  // ---------- split, then join ----------

  lemma {:induction false} JoinOfSplit(s: string, d: string)
    requires d != ""
    ensures Join(Split(s, d), d) == s
    ensures forall t :: t in Split(s, d) ==> Find(t, d) == -1
    decreases |s|
  {
    hide FindFrom;
    var pos := Find(s, d);
    if pos != -1 {
      var front, rest := s[..pos], s[pos + |d|..];
      JoinOfSplit(rest, d);
      BeforeFirst(s, d);
      assert Split(s, d)[1..] == Split(rest, d);
      assert s == front + d + rest;
    }
  }

  // ---------- join, then split ----------

  /** In each token but the last the delimiter shows up first right behind it; in the last, not at all. */
  ghost predicate Separable(tokens: seq<string>, d: string)
    requires |tokens| > 0
  {
    && (forall i :: 0 <= i < |tokens| - 1 ==> Find(tokens[i] + d, d) == |tokens[i]|)
    && Find(tokens[|tokens| - 1], d) == -1
  }

  lemma FirstOccurrence(t: string, d: string, rest: string)
    requires d != ""
    ensures Find(t + d + rest, d) == |t| <==> Find(t + d, d) == |t|
  {
    var short, long := t + d, t + d + rest;
    assert OccursAt(short, d, |t|) && OccursAt(long, d, |t|);
    forall k: nat | k <= |t|
      ensures OccursAt(short, d, k) <==> OccursAt(long, d, k)
    {
      assert short[k..k + |d|] == long[k..k + |d|];
    }
  }

  /** Joined tokens come apart again exactly when they are separable. */
  lemma {:induction false} SplitOfJoin(tokens: seq<string>, d: string)
    requires |tokens| > 0 && d != ""
    ensures Split(Join(tokens, d), d) == tokens <==> Separable(tokens, d)
  {
    var s := Join(tokens, d);
    if |tokens| == 1 {
      assert Find(s, d) != -1 ==> |Split(s, d)| >= 2;
    } else {
      var t, rest := tokens[0], Join(tokens[1..], d);
      SplitOfJoin(tokens[1..], d);
      FirstOccurrence(t, d, rest);
      SeparableCons(tokens, d);
      var pos := Find(s, d);
      assert pos != -1 by { assert OccursAt(s, d, |t|); }
      if pos == |t| {
        assert s[..pos] == t && s[pos + |d|..] == rest;
        assert [t] + tokens[1..] == tokens;
        assert ([t] + Split(rest, d))[1..] == Split(rest, d);
      } else {
        assert |s[..pos]| != |t|;
        assert Split(s, d)[0] == s[..pos];
      }
    }
  }

  lemma SeparableCons(tokens: seq<string>, d: string)
    requires |tokens| > 1
    ensures Separable(tokens, d) <==> Find(tokens[0] + d, d) == |tokens[0]| && Separable(tokens[1..], d)
  {
    if Find(tokens[0] + d, d) == |tokens[0]| && Separable(tokens[1..], d) {
      forall i | 0 <= i < |tokens| - 1
        ensures Find(tokens[i] + d, d) == |tokens[i]|
      {
        if i > 0 {
          assert tokens[i] == tokens[1..][i - 1];
        }
      }
    }
    if Separable(tokens, d) {
      forall i | 0 <= i < |tokens[1..]| - 1
        ensures Find(tokens[1..][i] + d, d) == |tokens[1..][i]|
      {
        assert tokens[1..][i] == tokens[i + 1];
      }
    }
  }

  /** A character that no token has and the delimiter has once makes any tokens separable. */
  lemma MarkedTokensSeparable(tokens: seq<string>, d: string, j: nat)
    requires |tokens| > 0 && j < |d|
    requires forall k :: 0 <= k < |d| && k != j ==> d[k] != d[j]
    requires forall t :: t in tokens ==> d[j] !in t
    ensures Separable(tokens, d)
  {
    forall t | t in tokens
      ensures Find(t, d) == -1 && Find(t + d, d) == |t|
    {
      OccursPointwise(t, d);
      OccursPointwise(t + d, d);
      assert forall k: nat :: OccursAt(t, d, k) ==> t[k + j] == d[j];
      assert forall k: nat :: OccursAt(t + d, d, k) ==> (t + d)[k + j] == d[j];
      assert OccursAt(t + d, d, |t|);
    }
  }
}
