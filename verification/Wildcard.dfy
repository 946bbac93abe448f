/** The address wildcard matcher: '*' stands for any run of characters, '?' for
    any one character but '.', '#' for the whole of the digit run it starts. */
module Wildcard {

  predicate IsDigit(c: char) { '0' <= c <= '9' }

  /** End of the digit run at `j`. */
  function RunEnd(t: string, j: nat): (e: nat)
    requires j <= |t|
    ensures j <= e <= |t|
    decreases |t| - j
  {
    if j == |t| || !IsDigit(t[j]) then j else RunEnd(t, j + 1)
  }

  /** Where the token `c` tried at `j` ends; `j` itself when it does not match. */
  function TokenEnd(c: char, t: string, j: nat): (e: nat)
    requires j < |t|
    ensures j <= e <= |t|
  {
    if c == '?' then (if t[j] == '.' then j else j + 1)
    else if c == '#' then RunEnd(t, j)
    else if t[j] == c then j + 1
    else j
  }

  /** The relation the matcher is meant to decide: the pattern from `i` describes
      the text from `j`. */
  ghost predicate MatchesAt(p: string, i: nat, t: string, j: nat)
    requires i <= |p| && j <= |t|
    decreases |p| - i
  {
    if i == |p| then j == |t|
    else if p[i] == '*' then var n := i + 1; exists k | j <= k <= |t| :: MatchesAt(p, n, t, k)
    else j < |t| && TokenEnd(p[i], t, j) > j && MatchesAt(p, i + 1, t, TokenEnd(p[i], t, j))
  }

  ghost predicate Matches(p: string, t: string) { MatchesAt(p, 0, t, 0) }

  /** What the matcher does decide: the same relation, except that at the end of
      the text it asks for the pattern to be used up but for one star. */
  ghost predicate AcceptsAt(p: string, i: nat, t: string, j: nat)
    requires i <= |p| && j <= |t|
    decreases |p| - i
  {
    if i == |p| then j == |t|
    else if j == |t| then p[i] == '*' && i + 1 == |p|
    else if p[i] == '*' then var n := i + 1; exists k | j <= k <= |t| :: AcceptsAt(p, n, t, k)
    else TokenEnd(p[i], t, j) > j && AcceptsAt(p, i + 1, t, TokenEnd(p[i], t, j))
  }

  ghost predicate Accepts(p: string, t: string) { AcceptsAt(p, 0, t, 0) }

  predicate EndsInTwoStars(p: string) {
    |p| >= 2 && p[|p| - 1] == '*' && p[|p| - 2] == '*'
  }

  /** A digit run followed at once by something that needs another digit: no
      text can have it, since the run is maximal. */
  predicate ClashingRun(p: string) {
    exists i :: 0 <= i < |p| - 1 && ClashAt(p, i)
  }

  predicate ClashAt(p: string, i: nat)
    requires i + 1 < |p|
  {
    p[i] == '#' && (p[i + 1] == '#' || IsDigit(p[i + 1]))
  }

  // ---- the two relations --------------------------------------------------------

  lemma {:induction false} MatchesAtTextEnd(p: string, i: nat, t: string)
    requires i <= |p|
    ensures MatchesAt(p, i, t, |t|) <==> forall k :: i <= k < |p| ==> p[k] == '*'
    decreases |p| - i
  {
    if i < |p| {
      MatchesAtTextEnd(p, i + 1, t);
    }
  }

  /** Unless the pattern closes with two stars the matcher's relation is the
      intended one, adjacent stars elsewhere included. */
  lemma {:induction false} AcceptsIsMatches(p: string, i: nat, t: string, j: nat)
    requires i <= |p| && j <= |t|
    requires !EndsInTwoStars(p)
    ensures AcceptsAt(p, i, t, j) <==> MatchesAt(p, i, t, j)
    decreases |p| - i
  {
    if i == |p| {
    } else if j == |t| {
      MatchesAtTextEnd(p, i, t);
    } else if p[i] == '*' {
      var n := i + 1;
      forall k | j <= k <= |t|
        ensures AcceptsAt(p, n, t, k) <==> MatchesAt(p, n, t, k)
      {
        AcceptsIsMatches(p, i + 1, t, k);
      }
    } else {
      AcceptsIsMatches(p, i + 1, t, TokenEnd(p[i], t, j));
    }
  }

  /** A text the pattern describes, one character to a token. */
  function Sample(p: string): (t: string)
    ensures |t| == |p|
  {
    seq(|p|, i requires 0 <= i < |p| => if p[i] == '*' || p[i] == '?' then 'x' else if p[i] == '#' then '0' else p[i])
  }

  lemma {:induction false} SampleMatches(p: string, i: nat)
    requires i <= |p| && !ClashingRun(p)
    ensures MatchesAt(p, i, Sample(p), i)
    decreases |p| - i
  {
    var t := Sample(p);
    if i < |p| {
      SampleMatches(p, i + 1);
      if p[i] == '#' {
        assert i + 1 < |p| ==> !ClashAt(p, i);
        assert RunEnd(t, i + 1) == i + 1;
      }
    }
  }

  lemma {:induction false} RunEnds(t: string, j: nat)
    requires j <= |t|
    ensures RunEnd(t, j) < |t| ==> !IsDigit(t[RunEnd(t, j)])
    decreases |t| - j
  {
    if j < |t| && IsDigit(t[j]) {
      RunEnds(t, j + 1);
    }
  }

  lemma {:induction false} ClashMatchesNothing(p: string, i: nat, c: nat, t: string, j: nat)
    requires i <= c < |p| - 1 && ClashAt(p, c) && j <= |t|
    ensures !MatchesAt(p, i, t, j)
    decreases |p| - i
  {
    if p[i] == '*' {
      var n := i + 1;
      forall k | j <= k <= |t|
        ensures !MatchesAt(p, n, t, k)
      {
        ClashMatchesNothing(p, i + 1, c, t, k);
      }
    } else if j < |t| && TokenEnd(p[i], t, j) > j {
      var e := TokenEnd(p[i], t, j);
      if i == c {
        RunEnds(t, j);
        assert e < |t| ==> TokenEnd(p[i + 1], t, e) == e;
      } else {
        ClashMatchesNothing(p, i + 1, c, t, e);
      }
    }
  }

  lemma {:induction false} CutRun(t: string, j: nat, k: nat)
    requires j <= |t| && RunEnd(t, j) <= k <= |t|
    ensures RunEnd(t[..k], j) == RunEnd(t, j)
    decreases |t| - j
  {
    if j < |t| && IsDigit(t[j]) {
      CutRun(t, j + 1, k);
    }
  }

  /** A text accepted by a pattern closing with two stars can be cut short. */
  lemma {:induction false} CanBeCut(p: string, i: nat, t: string, j: nat) returns (k: nat)
    requires EndsInTwoStars(p) && i + 2 <= |p| && j <= |t|
    requires AcceptsAt(p, i, t, j)
    ensures j <= k < |t| && MatchesAt(p, i, t[..k], j)
    decreases |p| - i
  {
    if i + 2 == |p| {
      k := j;
      MatchesAtTextEnd(p, i, t[..k]);
    } else if p[i] == '*' {
      var n := i + 1;
      var m :| j <= m <= |t| && AcceptsAt(p, n, t, m);
      k := CanBeCut(p, n, t, m);
    } else {
      k := CanBeCut(p, i + 1, t, TokenEnd(p[i], t, j));
      if p[i] == '#' {
        CutRun(t, j, k);
      }
      assert TokenEnd(p[i], t[..k], j) == TokenEnd(p[i], t, j);
    }
  }

  /** Hence such a pattern that describes any text describes one it refuses. */
  lemma {:induction false} RefusesSomeMatch(p: string, t: string) returns (r: string)
    requires EndsInTwoStars(p) && Matches(p, t)
    ensures Matches(p, r) && !Accepts(p, r)
    decreases |t|
  {
    if Accepts(p, t) {
      var k := CanBeCut(p, 0, t, 0);
      r := RefusesSomeMatch(p, t[..k]);
    } else {
      r := t;
    }
  }

  /** Exactly which patterns the matcher decides, over all texts. */
  lemma DecidesExactlyWhen(p: string)
    ensures (forall t :: Accepts(p, t) <==> Matches(p, t)) <==> !EndsInTwoStars(p) || ClashingRun(p)
  {
    if !EndsInTwoStars(p) {
      forall t
        ensures Accepts(p, t) <==> Matches(p, t)
      {
        AcceptsIsMatches(p, 0, t, 0);
      }
    } else if ClashingRun(p) {
      var c :| 0 <= c < |p| - 1 && ClashAt(p, c);
      forall t
        ensures Accepts(p, t) <==> Matches(p, t)
      {
        ClashMatchesNothing(p, 0, c, t, 0);
        if Accepts(p, t) {
          var k := CanBeCut(p, 0, t, 0);
          ClashMatchesNothing(p, 0, c, t[..k], 0);
        }
      }
    } else {
      SampleMatches(p, 0);
      var r := RefusesSomeMatch(p, Sample(p));
    }
  }

  // ---- why the last star is enough ---------------------------------------------------

  /** The pattern from `i` is accepted somewhere at or after `from`. */
  ghost predicate Later(p: string, i: nat, t: string, from: nat)
    requires i <= |p|
  {
    exists h :: from <= h <= |t| && AcceptsAt(p, i, t, h)
  }

  lemma {:induction false} RunMonotone(t: string, a: nat, b: nat)
    requires a <= b <= |t| && RunEnd(t, b) > b
    ensures RunEnd(t, a) <= RunEnd(t, b)
    decreases b - a
  {
    if a < b && RunEnd(t, a) > a {
      RunMonotone(t, a + 1, b);
    }
  }

  /** A token tried further right ends further right. */
  lemma TokenMonotone(c: char, t: string, a: nat, b: nat)
    requires a <= b < |t| && TokenEnd(c, t, a) > a && TokenEnd(c, t, b) > b
    ensures TokenEnd(c, t, a) <= TokenEnd(c, t, b)
  {
    if c == '#' {
      RunMonotone(t, a, b);
    }
  }

  /** An attempt begun at (`wild`, `hub`) and now at (`i`, `j`) has kept its
      answer, and has passed no later match by. */
  ghost predicate Tracks(p: string, t: string, wild: nat, hub: nat, i: nat, j: nat) {
    && wild <= i <= |p| && hub <= j <= |t|
    && AcceptsAt(p, wild, t, hub) == AcceptsAt(p, i, t, j)
    && (Later(p, wild, t, hub) ==> Later(p, i, t, j))
  }

  lemma TokenStep(p: string, t: string, wild: nat, hub: nat, i: nat, j: nat)
    requires Tracks(p, t, wild, hub, i, j)
    requires i < |p| && p[i] != '*' && j < |t| && TokenEnd(p[i], t, j) > j
    ensures Tracks(p, t, wild, hub, i + 1, TokenEnd(p[i], t, j))
  {
    if Later(p, i, t, j) {
      var h :| j <= h <= |t| && AcceptsAt(p, i, t, h);
      TokenMonotone(p[i], t, j, h);
      assert AcceptsAt(p, i + 1, t, TokenEnd(p[i], t, h));
    }
  }

  lemma StarUnfolds(p: string, i: nat, t: string, j: nat)
    requires i < |p| && p[i] == '*' && j < |t|
    ensures AcceptsAt(p, i, t, j) == Later(p, i + 1, t, j)
  {
  }

  /** Reaching another star settles the search so far: what follows it can be
      looked for from here on. */
  lemma StarStep(p: string, t: string, wild: nat, hub: nat, i: nat, j: nat)
    requires Tracks(p, t, wild, hub, i, j)
    requires i < |p| && p[i] == '*' && j < |t|
    ensures AcceptsAt(p, wild, t, hub) == Later(p, i + 1, t, j)
    ensures Later(p, wild, t, hub) == Later(p, i + 1, t, j)
  {
    StarUnfolds(p, i, t, j);
    if Later(p, i, t, j) {
      var h :| j <= h <= |t| && AcceptsAt(p, i, t, h);
      assert Later(p, i + 1, t, j) by {
        if h == |t| {
          assert AcceptsAt(p, i + 1, t, h);
        } else {
          StarUnfolds(p, i, t, h);
        }
      }
    }
  }

  // ---- the matcher -----------------------------------------------------------------

  datatype Stop = TextUsedUp | AtStar | Stuck

  /** The digit loop: steps while the next character is a digit. */
  method LastDigit(t: string, start: nat) returns (s: nat)
    requires start < |t| && IsDigit(t[start])
    ensures start <= s < |t| && s + 1 == RunEnd(t, start)
  {
    s := start;
    while s + 1 < |t| && IsDigit(t[s + 1])
      invariant start <= s < |t| && IsDigit(t[s])
      invariant RunEnd(t, s) == RunEnd(t, start)
    {
      s := s + 1;
    }
    assert RunEnd(t, s) == RunEnd(t, s + 1) == s + 1;
  }

  /** The `switch` on the pattern character; at the pattern's end it finds the
      terminator, which no text character equals. */
  method Token(p: string, t: string, i: nat, j: nat) returns (next: nat, ok: bool)
    requires i <= |p| && j < |t| && (i < |p| ==> p[i] != '*')
    ensures ok <==> i < |p| && TokenEnd(p[i], t, j) > j
    ensures ok ==> next == TokenEnd(p[i], t, j)
  {
    next := j;
    if i == |p| {
      return next, false;
    }
    match p[i] {
      case '?' =>
        if t[j] == '.' {
          return next, false;
        }
      case '#' =>
        if !IsDigit(t[j]) {
          return next, false;
        }
        next := LastDigit(t, j);
      case _ =>
        if t[j] != p[i] {
          return next, false;
        }
    }
    return next + 1, true;
  }

  /** One pass of the `for` loop, from the last star's text position and the
      pattern after it. */
  method Attempt(p: string, t: string, wild: nat, hub: nat) returns (i: nat, j: nat, stop: Stop)
    requires wild <= |p| && hub <= |t|
    ensures Tracks(p, t, wild, hub, i, j)
    ensures stop.TextUsedUp? <==> j == |t|
    ensures stop.AtStar? ==> i < |p| && p[i] == '*'
    ensures stop.Stuck? ==> !AcceptsAt(p, i, t, j)
  {
    i, j := wild, hub;
    while j < |t|
      invariant Tracks(p, t, wild, hub, i, j)
    {
      if i < |p| && p[i] == '*' {
        return i, j, AtStar;
      }
      var next, ok := Token(p, t, i, j);
      if !ok {
        return i, j, Stuck;
      }
      TokenStep(p, t, wild, hub, i, j);
      i, j := i + 1, next;
    }
    stop := TextUsedUp;
  }

  /** The matcher, with its `goto Top` as the loop. Only the last star is ever
      retried, and an attempt that uses the text up ends the search. */
  method IsMapped(p: string, t: string) returns (mapped: bool)
    ensures mapped <==> Accepts(p, t)
    ensures !EndsInTwoStars(p) ==> (mapped <==> Matches(p, t))
  {
    if !EndsInTwoStars(p) {
      AcceptsIsMatches(p, 0, t, 0);
    }
    var star, wild, hub := false, 0, 0;
    while true
      invariant wild <= |p| && hub <= |t|
      invariant Accepts(p, t) == if star then Later(p, wild, t, hub) else AcceptsAt(p, wild, t, hub)
      decreases |p| - wild, |t| - hub
    {
      var i, j, stop := Attempt(p, t, wild, hub);
      if stop.AtStar? {
        StarStep(p, t, wild, hub, i, j);
        star, hub, wild := true, j, i + 1;
        if wild == |p| {
          assert AcceptsAt(p, wild, t, |t|);
          return true;
        }
      } else if stop.Stuck? {
        if !star {
          return false;
        }
        hub := hub + 1;
      } else {
        if i < |p| && p[i] == '*' {
          i := i + 1;
        }
        return i == |p|;
      }
    }
  }
}
