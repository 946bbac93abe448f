/** The two caches trimmed by age: login nonces and relay signatures. Here are
    their contents as functions of everything noted; the policy object updates
    its vectors in place and is proved to hold exactly these. */
module ReplayCache {
  import opened Bytes

  datatype Mark = Mark(key: Octets, t: int)

  predicate YoungAt(m: Mark, now: int, keep: int) { -keep <= now - m.t <= keep }

  /** The entries within `keep` seconds of `now`, in their order. */
  function Young(c: seq<Mark>, now: int, keep: int): (r: seq<Mark>)
    ensures |r| <= |c|
  {
    if c == [] then []
    else
      var front := Young(c[..|c| - 1], now, keep);
      if YoungAt(c[|c| - 1], now, keep) then front + [c[|c| - 1]] else front
  }

  function KeepLast<T>(c: seq<T>, n: nat): (r: seq<T>)
    ensures |r| == if |c| <= n then |c| else n
  {
    if |c| <= n then c else c[|c| - n..]
  }

  predicate Holds(c: seq<Mark>, key: Octets) { exists i :: 0 <= i < |c| && c[i].key == key }

  /** Nonces are dropped by age under a window, by count without one. */
  function NoteNonce(c: seq<Mark>, m: Mark, window: nat, cap: nat): seq<Mark>
    requires cap > 0
  {
    (if window > 0 then Young(c, m.t, 2 * window) else KeepLast(c, cap - 1)) + [m]
  }

  /** Relay signatures are dropped by age under a window, and by count always. */
  function NoteRelay(c: seq<Mark>, m: Mark, window: nat, cap: nat): seq<Mark>
    requires cap > 0
  {
    KeepLast(if window > 0 then Young(c, m.t, 2 * window) else c, cap - 1) + [m]
  }

  // ---- the loops --------------------------------------------------------------------

  /** The compaction loop: entries kept are moved down over those dropped, and the
      vector is cut to the number kept. */
  method TrimByAge(c: seq<Mark>, now: int, keep: int) returns (v: seq<Mark>)
    ensures v == Young(c, now, keep)
  {
    v := c;
    var w := 0;
    for i := 0 to |c|
      invariant |v| == |c| && w <= i
      invariant v[..w] == Young(c[..i], now, keep)
      invariant v[i..] == c[i..]
    {
      assert c[..i + 1][..i] == c[..i];
      assert v[i] == c[i];
      ghost var was := v;
      var age := now - v[i].t;
      if age < 0 {
        age := -age;
      }
      if age <= keep {
        if w != i {
          v := v[w := v[i]];
        }
        w := w + 1;
      }
      assert v[i + 1..] == was[i + 1..] == was[i..][1..];
    }
    assert c[..|c|] == c;
    v := v[..w];
  }

  /** The scan that says whether a key has been seen. */
  method Seen(c: seq<Mark>, key: Octets) returns (b: bool)
    ensures b <==> Holds(c, key)
  {
    for i := 0 to |c|
      invariant !Holds(c[..i], key)
    {
      if c[i].key == key {
        return true;
      }
    }
    assert c[..|c|] == c;
    return false;
  }

  // ---- contents after a history of notes --------------------------------------------

  function NonceCache(h: seq<Mark>, window: nat, cap: nat): seq<Mark>
    requires cap > 0
  {
    if h == [] then [] else NoteNonce(NonceCache(h[..|h| - 1], window, cap), h[|h| - 1], window, cap)
  }

  function RelayCache(h: seq<Mark>, window: nat, cap: nat): seq<Mark>
    requires cap > 0
  {
    if h == [] then [] else NoteRelay(RelayCache(h[..|h| - 1], window, cap), h[|h| - 1], window, cap)
  }

  ghost predicate ClockForward(h: seq<Mark>) {
    forall i, j :: 0 <= i <= j < |h| ==> h[i].t <= h[j].t
  }

  /** First index within `keep` of `now`. */
  ghost function FirstYoung(h: seq<Mark>, now: int, keep: int): (k: nat)
    ensures k <= |h|
    ensures forall i :: 0 <= i < k ==> !YoungAt(h[i], now, keep)
    ensures k < |h| ==> YoungAt(h[k], now, keep)
    decreases |h|
  {
    if h == [] then 0
    else
      var k := FirstYoung(h[..|h| - 1], now, keep);
      if k < |h| - 1 then k else if YoungAt(h[|h| - 1], now, keep) then |h| - 1 else |h|
  }

  lemma {:induction false} YoungSplit(h: seq<Mark>, now: int, keep: int, k: nat)
    requires k <= |h|
    requires forall i :: 0 <= i < |h| ==> (YoungAt(h[i], now, keep) <==> k <= i)
    ensures Young(h, now, keep) == h[k..]
  {
    if h != [] {
      var g, m := h[..|h| - 1], h[|h| - 1];
      YoungSplit(g, now, keep, if k <= |g| then k else |g|);
      assert YoungAt(m, now, keep) <==> k <= |g|;
      assert k <= |g| ==> h[k..] == g[k..] + [m];
    }
  }

  /** With a clock that never goes back, age trimming only ever drops a front. */
  lemma YoungIsSuffix(h: seq<Mark>, now: int, keep: int)
    requires ClockForward(h) && keep >= 0 && (h != [] ==> h[|h| - 1].t <= now)
    ensures Young(h, now, keep) == h[FirstYoung(h, now, keep)..]
  {
    var k := FirstYoung(h, now, keep);
    forall i | k <= i < |h|
      ensures YoungAt(h[i], now, keep)
    {
      assert h[k].t <= h[i].t <= h[|h| - 1].t;
    }
    YoungSplit(h, now, keep, k);
  }

  lemma FirstYoungUnique(h: seq<Mark>, now: int, keep: int, k: nat)
    requires k <= |h| && forall i :: 0 <= i < k ==> !YoungAt(h[i], now, keep)
    requires k < |h| ==> YoungAt(h[k], now, keep)
    ensures FirstYoung(h, now, keep) == k
  {
  }

  lemma LaterIsOlder(h: seq<Mark>, now: int, after: int, keep: int)
    requires ClockForward(h) && keep >= 0 && now <= after && (h != [] ==> h[|h| - 1].t <= now)
    ensures FirstYoung(h, now, keep) <= FirstYoung(h, after, keep)
  {
    forall i | 0 <= i < FirstYoung(h, now, keep)
      ensures !YoungAt(h[i], after, keep)
    {
      assert h[i].t <= h[|h| - 1].t;
    }
  }

  lemma FirstYoungOfSuffix(h: seq<Mark>, a: nat, now: int, keep: int)
    requires ClockForward(h) && keep >= 0 && a <= |h| && (h != [] ==> h[|h| - 1].t <= now)
    ensures FirstYoung(h[a..], now, keep) + a == if FirstYoung(h, now, keep) <= a then a else FirstYoung(h, now, keep)
  {
    var k := FirstYoung(h, now, keep);
    if k <= a {
      if a < |h| {
        assert h[k].t <= h[a].t <= h[|h| - 1].t;
        assert h[a..][0] == h[a];
      }
      FirstYoungUnique(h[a..], now, keep, 0);
    } else {
      forall i | 0 <= i < k - a
        ensures !YoungAt(h[a..][i], now, keep)
      {
        assert h[a..][i] == h[a + i];
      }
      FirstYoungUnique(h[a..], now, keep, k - a);
    }
  }

  /** What is left of a suffix after age trimming is a suffix still. */
  lemma YoungOfSuffix(h: seq<Mark>, a: nat, now: int, keep: int)
    requires ClockForward(h) && keep >= 0 && a <= |h| && (h != [] ==> h[|h| - 1].t <= now)
    ensures Young(h[a..], now, keep)
            == h[if FirstYoung(h, now, keep) <= a then a else FirstYoung(h, now, keep)..]
  {
    FirstYoungOfSuffix(h, a, now, keep);
    if a < |h| {
      assert h[a..][|h[a..]| - 1] == h[|h| - 1];
    }
    YoungIsSuffix(h[a..], now, keep);
  }

  function Max(a: nat, b: nat): nat { if a <= b then b else a }

  /** How much of the history count alone, and age alone, leaves out. */
  function ByCount(n: nat, cap: nat): nat { if n <= cap then 0 else n - cap }

  ghost function ByAge(h: seq<Mark>, window: nat): (k: nat)
    ensures k <= |h|
  {
    if h == [] || window == 0 then 0 else FirstYoung(h, h[|h| - 1].t, 2 * window)
  }

  /** Where each cache begins in the history. */
  ghost function NonceFrom(h: seq<Mark>, window: nat, cap: nat): nat {
    if window > 0 then ByAge(h, window) else ByCount(|h|, cap)
  }

  ghost function RelayFrom(h: seq<Mark>, window: nat, cap: nat): nat {
    Max(ByAge(h, window), ByCount(|h|, cap))
  }

  /** One age trim of a suffix of `g` that began no later than it should, then
      the new note `m`. */
  lemma TrimStep(g: seq<Mark>, m: Mark, a: nat, keep: int)
    requires ClockForward(g + [m]) && keep >= 0 && a <= |g|
    ensures FirstYoung(g + [m], m.t, keep) == FirstYoung(g, m.t, keep)
    ensures Young(g[a..], m.t, keep)
            == g[if FirstYoung(g, m.t, keep) <= a then a else FirstYoung(g, m.t, keep)..]
  {
    var h := g + [m];
    forall i, j | 0 <= i <= j < |g|
      ensures g[i].t <= g[j].t <= m.t
    {
      assert h[i].t <= h[j].t <= h[|g|].t;
    }
    YoungOfSuffix(g, a, m.t, keep);
    var k := FirstYoung(g, m.t, keep);
    assert forall i :: 0 <= i < |g| ==> h[i] == g[i];
    FirstYoungUnique(h, m.t, keep, k);
  }

  lemma FrontForward(g: seq<Mark>, m: Mark, keep: int)
    requires g != [] && ClockForward(g + [m]) && keep >= 0
    ensures FirstYoung(g, g[|g| - 1].t, keep) <= FirstYoung(g, m.t, keep)
  {
    var h := g + [m];
    forall i, j | 0 <= i <= j < |g|
      ensures g[i].t <= g[j].t <= m.t
    {
      assert h[i].t <= h[j].t <= h[|g|].t;
    }
    LaterIsOlder(g, g[|g| - 1].t, m.t, keep);
  }

  lemma AgeStep(g: seq<Mark>, m: Mark, a: nat, window: nat)
    requires window > 0 && ClockForward(g + [m]) && ByAge(g, window) <= a <= |g|
    ensures ByAge(g + [m], window) <= |g|
    ensures Young(g[a..], m.t, 2 * window) == g[Max(a, ByAge(g + [m], window))..]
  {
    var h := g + [m];
    assert h[|h| - 1] == m;
    TrimStep(g, m, a, 2 * window);
  }

  lemma AgeForward(g: seq<Mark>, m: Mark, window: nat)
    requires window > 0 ==> ClockForward(g + [m])
    ensures ByAge(g, window) <= ByAge(g + [m], window)
  {
    if g != [] && window > 0 {
      var h := g + [m];
      assert h[|h| - 1] == m;
      TrimStep(g, m, 0, 2 * window);
      FrontForward(g, m, 2 * window);
    }
  }

  lemma NonceStep(g: seq<Mark>, m: Mark, window: nat, cap: nat)
    requires cap > 0 && (window > 0 ==> ClockForward(g + [m]))
    ensures NonceFrom(g, window, cap) <= |g| && NonceFrom(g + [m], window, cap) <= |g|
    ensures NoteNonce(g[NonceFrom(g, window, cap)..], m, window, cap) == (g + [m])[NonceFrom(g + [m], window, cap)..]
  {
    hide Young, ByAge, ClockForward;
    if window > 0 {
      AgeStep(g, m, ByAge(g, window), window);
      AgeForward(g, m, window);
      SuffixSnoc(g, m, ByAge(g + [m], window));
    } else {
      KeepLastOfSuffix(g, ByCount(|g|, cap), cap - 1);
      SuffixSnoc(g, m, ByCount(|g|, cap - 1));
    }
  }

  lemma RelayStep(g: seq<Mark>, m: Mark, window: nat, cap: nat)
    requires cap > 0 && (window > 0 ==> ClockForward(g + [m]))
    ensures RelayFrom(g, window, cap) <= |g| && RelayFrom(g + [m], window, cap) <= |g|
    ensures NoteRelay(g[RelayFrom(g, window, cap)..], m, window, cap) == (g + [m])[RelayFrom(g + [m], window, cap)..]
  {
    var a := RelayFrom(g, window, cap);
    var b := Max(a, ByAge(g + [m], window));
    var c := Max(b, ByCount(|g|, cap - 1));
    AgeForward(g, m, window);
    assert RelayFrom(g + [m], window, cap) == c;
    if window > 0 {
      AgeStep(g, m, a, window);
    }
    KeepLastOfSuffix(g, b, cap - 1);
    SuffixSnoc(g, m, c);
  }

  lemma SuffixSnoc<T>(g: seq<T>, m: T, c: nat)
    requires c <= |g|
    ensures g[c..] + [m] == (g + [m])[c..]
  {
  }

  lemma KeepLastOfSuffix<T>(g: seq<T>, b: nat, n: nat)
    requires b <= |g|
    ensures KeepLast(g[b..], n) == g[Max(b, ByCount(|g|, n))..]
  {
  }

  /** The nonce cache is exactly the notes not yet two windows old, or the last
      `cap` when there is no window. */
  lemma {:induction false} NonceCacheIs(h: seq<Mark>, window: nat, cap: nat)
    requires cap > 0 && (window > 0 ==> ClockForward(h))
    ensures NonceFrom(h, window, cap) <= |h|
    ensures NonceCache(h, window, cap) == h[NonceFrom(h, window, cap)..]
  {
    if h != [] {
      var g, m := h[..|h| - 1], h[|h| - 1];
      assert h == g + [m];
      NonceCacheIs(g, window, cap);
      NonceStep(g, m, window, cap);
    }
  }

  /** The relay cache is exactly the notes both within the last `cap` and not yet
      two windows old. */
  lemma {:induction false} RelayCacheIs(h: seq<Mark>, window: nat, cap: nat)
    requires cap > 0 && (window > 0 ==> ClockForward(h))
    ensures RelayFrom(h, window, cap) <= |h|
    ensures RelayCache(h, window, cap) == h[RelayFrom(h, window, cap)..]
    ensures |RelayCache(h, window, cap)| <= cap
  {
    if h != [] {
      var g, m := h[..|h| - 1], h[|h| - 1];
      assert h == g + [m];
      RelayCacheIs(g, window, cap);
      RelayStep(g, m, window, cap);
    }
  }

  predicate Rising(f: seq<nat>) { forall i, j :: 0 <= i < j < |f| ==> f[i] < f[j] }

  /** `c` holds entries of `h`, those at the rising indices `f`. */
  ghost predicate Picks(c: seq<Mark>, h: seq<Mark>, f: seq<nat>) {
    |f| == |c| && Rising(f) && forall i {:trigger f[i]} :: 0 <= i < |f| ==> f[i] < |h| && c[i] == h[f[i]]
  }

  lemma PicksOneMore(c: seq<Mark>, g: seq<Mark>, f: seq<nat>, m: Mark)
    requires Picks(c, g, f)
    ensures Picks(c, g + [m], f) && Picks(c + [m], g + [m], f + [|g|])
  {
  }

  lemma PicksOfPicks(c: seq<Mark>, d: seq<Mark>, h: seq<Mark>, y: seq<nat>, f: seq<nat>) returns (z: seq<nat>)
    requires Picks(c, d, y) && Picks(d, h, f)
    ensures Picks(c, h, z)
  {
    z := seq(|y|, i requires 0 <= i < |y| => f[y[i]]);
  }

  lemma PicksLast(c: seq<Mark>, h: seq<Mark>, f: seq<nat>, n: nat)
    requires Picks(c, h, f)
    ensures Picks(KeepLast(c, n), h, KeepLast(f, n))
  {
  }

  lemma {:induction false} YoungPicks(c: seq<Mark>, now: int, keep: int) returns (f: seq<nat>)
    ensures Picks(Young(c, now, keep), c, f)
  {
    f := [];
    if c != [] {
      var front := c[..|c| - 1];
      f := YoungPicks(front, now, keep);
      PicksOneMore(Young(front, now, keep), front, f, c[|c| - 1]);
      assert c == front + [c[|c| - 1]];
      if YoungAt(c[|c| - 1], now, keep) {
        f := f + [|c| - 1];
      }
    }
  }

  lemma NotePicks(c: seq<Mark>, g: seq<Mark>, f: seq<nat>, m: Mark, window: nat, cap: nat) returns (z: seq<nat>)
    requires cap > 0 && Picks(c, g, f)
    ensures |NoteRelay(c, m, window, cap)| <= cap && Picks(NoteRelay(c, m, window, cap), g + [m], z)
  {
    hide Picks, Young;
    var d, e := c, f;
    if window > 0 {
      d := Young(c, m.t, 2 * window);
      var y := YoungPicks(c, m.t, 2 * window);
      e := PicksOfPicks(d, c, g, y, f);
    }
    assert NoteRelay(c, m, window, cap) == KeepLast(d, cap - 1) + [m];
    hide NoteRelay;
    PicksLast(d, g, e, cap - 1);
    PicksOneMore(KeepLast(d, cap - 1), g, KeepLast(e, cap - 1), m);
    z := KeepLast(e, cap - 1) + [|g|];
  }

  /** Whatever the clock does, the relay cache never outgrows its bound and keeps
      the order in which its entries were noted. */
  lemma {:induction false} RelayCacheKeepsOrder(h: seq<Mark>, window: nat, cap: nat) returns (f: seq<nat>)
    requires cap > 0
    ensures |RelayCache(h, window, cap)| <= cap
    ensures Picks(RelayCache(h, window, cap), h, f)
  {
    f := [];
    if h != [] {
      hide Picks, NoteRelay;
      var g, m := h[..|h| - 1], h[|h| - 1];
      var was := RelayCache(g, window, cap);
      assert h == g + [m] && RelayCache(h, window, cap) == NoteRelay(was, m, window, cap);
      hide RelayCache;
      f := RelayCacheKeepsOrder(g, window, cap);
      f := NotePicks(was, g, f, m, window, cap);
    }
  }

  /** Under a window exactly those nonces are held that were noted within two windows
      of the last note: an older one goes when the next nonce is noted. */
  lemma NonceHeldExactly(h: seq<Mark>, window: nat, cap: nat, key: Octets)
    requires cap > 0 && window > 0 && ClockForward(h) && h != []
    ensures Holds(NonceCache(h, window, cap), key) <==>
            exists i :: 0 <= i < |h| && h[i].key == key && h[|h| - 1].t - h[i].t <= 2 * window
  {
    NonceCacheIs(h, window, cap);
    var f := NonceFrom(h, window, cap);
    var c := NonceCache(h, window, cap);
    if i :| 0 <= i < |c| && c[i].key == key {
      assert c[i] == h[f + i] && h[f].t <= h[f + i].t && YoungAt(h[f], h[|h| - 1].t, 2 * window);
    }
    if i :| 0 <= i < |h| && h[i].key == key && h[|h| - 1].t - h[i].t <= 2 * window {
      assert YoungAt(h[i], h[|h| - 1].t, 2 * window);
      assert c[i - f] == h[i];
    }
  }

  /** A note no older than the cache's beginning is in the cache. */
  lemma NonceHeld(h: seq<Mark>, window: nat, cap: nat, i: nat)
    requires cap > 0 && (window > 0 ==> ClockForward(h))
    requires NonceFrom(h, window, cap) <= i < |h|
    ensures Holds(NonceCache(h, window, cap), h[i].key)
  {
    NonceCacheIs(h, window, cap);
    assert NonceCache(h, window, cap)[i - NonceFrom(h, window, cap)] == h[i];
  }

  lemma RelayHeld(h: seq<Mark>, window: nat, cap: nat, i: nat)
    requires cap > 0 && (window > 0 ==> ClockForward(h))
    requires RelayFrom(h, window, cap) <= i < |h|
    ensures Holds(RelayCache(h, window, cap), h[i].key)
  {
    RelayCacheIs(h, window, cap);
    assert RelayCache(h, window, cap)[i - RelayFrom(h, window, cap)] == h[i];
  }

  // ---- whole runs ---------------------------------------------------------------------

  predicate Fresh(stamp: int, now: int, window: int) { window > 0 ==> -window <= now - stamp <= window }

  /** One accepted login or relay block: its cache key, the stamp it was signed
      with and the clock when it was accepted. */
  datatype Accepted = Accepted(key: Octets, stamp: int, now: int)

  function Marks(run: seq<Accepted>): (h: seq<Mark>)
    ensures |h| == |run| && forall i :: 0 <= i < |run| ==> h[i] == Mark(run[i].key, run[i].now)
  {
    seq(|run|, i requires 0 <= i < |run| => Mark(run[i].key, run[i].now))
  }

  /** Every login accepted in `run` was fresh and its nonce was in no cache. */
  ghost predicate LoginAdmitted(run: seq<Accepted>, i: nat, window: nat, cap: nat)
    requires cap > 0 && i < |run|
  {
    Fresh(run[i].stamp, run[i].now, window) && !Holds(NonceCache(Marks(run[..i]), window, cap), run[i].key)
  }

  ghost predicate LoginRun(run: seq<Accepted>, window: nat, cap: nat)
    requires cap > 0
  {
    forall i :: 0 <= i < |run| ==> LoginAdmitted(run, i, window, cap)
  }

  ghost predicate RelayAdmitted(run: seq<Accepted>, i: nat, window: nat, cap: nat)
    requires cap > 0 && i < |run|
  {
    Fresh(run[i].stamp, run[i].now, window) && !Holds(RelayCache(Marks(run[..i]), window, cap), run[i].key)
  }

  ghost predicate RelayRun(run: seq<Accepted>, window: nat, cap: nat)
    requires cap > 0
  {
    forall i :: 0 <= i < |run| ==> RelayAdmitted(run, i, window, cap)
  }

  lemma PrefixesKept<T>(run: seq<T>, a: T)
    ensures (run + [a])[..|run|] == run
    ensures forall i :: 0 <= i < |run| ==> (run + [a])[..i] == run[..i]
  {
  }

  lemma MarksSnoc(run: seq<Accepted>, a: Accepted)
    ensures var h := Marks(run + [a]); h[..|h| - 1] == Marks(run) && h[|h| - 1] == Mark(a.key, a.now)
  {
  }

  /** One more accepted login is one more step of the run and one more note. */
  lemma LoginRunSnoc(run: seq<Accepted>, a: Accepted, window: nat, cap: nat)
    requires cap > 0 && LoginRun(run, window, cap) && Fresh(a.stamp, a.now, window)
    requires !Holds(NonceCache(Marks(run), window, cap), a.key)
    ensures LoginRun(run + [a], window, cap)
    ensures NonceCache(Marks(run + [a]), window, cap)
            == NoteNonce(NonceCache(Marks(run), window, cap), Mark(a.key, a.now), window, cap)
  {
    MarksSnoc(run, a);
    PrefixesKept(run, a);
    forall i | 0 <= i < |run|
      ensures LoginAdmitted(run + [a], i, window, cap)
    {
      assert LoginAdmitted(run, i, window, cap);
    }
    assert LoginAdmitted(run + [a], |run|, window, cap);
  }

  lemma RelayRunSnoc(run: seq<Accepted>, a: Accepted, window: nat, cap: nat)
    requires cap > 0 && RelayRun(run, window, cap) && Fresh(a.stamp, a.now, window)
    requires !Holds(RelayCache(Marks(run), window, cap), a.key)
    ensures RelayRun(run + [a], window, cap)
    ensures RelayCache(Marks(run + [a]), window, cap)
            == NoteRelay(RelayCache(Marks(run), window, cap), Mark(a.key, a.now), window, cap)
  {
    MarksSnoc(run, a);
    PrefixesKept(run, a);
    forall i | 0 <= i < |run|
      ensures RelayAdmitted(run + [a], i, window, cap)
    {
      assert RelayAdmitted(run, i, window, cap);
    }
    assert RelayAdmitted(run + [a], |run|, window, cap);
  }

  ghost predicate Forward(run: seq<Accepted>) {
    forall i, j :: 0 <= i <= j < |run| ==> run[i].now <= run[j].now
  }

  /** A block accepted twice, under a stamp no later the second time, is still in
      the age range of its cache when it comes back. */
  lemma StillYoung(run: seq<Accepted>, window: nat, i: nat, j: nat)
    requires window > 0 && Forward(run) && i < j < |run|
    requires Fresh(run[i].stamp, run[i].now, window) && Fresh(run[j].stamp, run[j].now, window)
    requires run[j].stamp <= run[i].stamp
    ensures var h := Marks(run[..j]);
            ClockForward(h) && FirstYoung(h, h[|h| - 1].t, 2 * window) <= i
  {
    var h := Marks(run[..j]);
    assert h[i].t <= h[|h| - 1].t <= run[j].now;
    assert YoungAt(h[i], h[|h| - 1].t, 2 * window);
  }

  /** Under a window and a clock that never goes back, accepting one nonce twice
      takes two signings with two stamps, the second strictly later. */
  lemma NonceTwiceIsTwoStamps(run: seq<Accepted>, window: nat, cap: nat, i: nat, j: nat)
    requires cap > 0 && window > 0 && LoginRun(run, window, cap) && Forward(run)
    requires i < j < |run| && run[i].key == run[j].key
    ensures run[i].stamp < run[j].stamp
  {
    assert LoginAdmitted(run, i, window, cap) && LoginAdmitted(run, j, window, cap);
    if run[j].stamp <= run[i].stamp {
      StillYoung(run, window, i, j);
      NonceHeld(Marks(run[..j]), window, cap, i);
    }
  }

  /** After a run exactly the nonces accepted within two windows of its last login are
      refused. */
  lemma NonceRefusedIn(run: seq<Accepted>, window: nat, cap: nat, key: Octets)
    requires cap > 0 && window > 0 && Forward(run) && run != []
    ensures Holds(NonceCache(Marks(run), window, cap), key) <==>
            exists m :: 0 <= m < |run| && run[m].key == key && run[|run| - 1].now - run[m].now <= 2 * window
  {
    var h := Marks(run);
    NonceHeldExactly(h, window, cap, key);
    hide NonceCache, Holds;
    if m :| 0 <= m < |h| && h[m].key == key && h[|h| - 1].t - h[m].t <= 2 * window {
      assert run[m].key == key;
    }
    if m :| 0 <= m < |run| && run[m].key == key && run[|run| - 1].now - run[m].now <= 2 * window {
      assert h[m].key == key;
    }
  }

  /** And then it can be: a signer that gives one nonce two stamps has it accepted
      twice. */
  lemma NonceTwiceIsPossible(a: Octets, b: Octets, cap: nat) returns (run: seq<Accepted>)
    requires cap > 0 && a != b
    ensures LoginRun(run, 1, cap) && Forward(run) && |run| == 3 && run[0].key == run[2].key
  {
    var first, other, again := Accepted(a, 0, 0), Accepted(b, 3, 3), Accepted(a, 3, 3);
    var m, n := Mark(a, 0), Mark(b, 3);
    LoginRunSnoc([], first, 1, cap);
    assert NonceCache(Marks([] + [first]), 1, cap) == [m];
    LoginRunSnoc([] + [first], other, 1, cap);
    assert NoteNonce([m], n, 1, cap) == [n];
    LoginRunSnoc([] + [first] + [other], again, 1, cap);
    run := [first, other, again];
    assert run == [] + [first] + [other] + [again];
  }

  /** So where each nonce is signed with one stamp, none is accepted twice. */
  lemma NoNonceTwice(run: seq<Accepted>, window: nat, cap: nat)
    requires cap > 0 && window > 0 && LoginRun(run, window, cap) && Forward(run)
    requires forall i, j :: 0 <= i < |run| && 0 <= j < |run| && run[i].key == run[j].key ==>
                              run[i].stamp == run[j].stamp
    ensures forall i, j :: 0 <= i < j < |run| ==> run[i].key != run[j].key
  {
    forall i, j | 0 <= i < j < |run|
      ensures run[i].key != run[j].key
    {
      if run[i].key == run[j].key {
        NonceTwiceIsTwoStamps(run, window, cap, i, j);
      }
    }
  }

  /** Without a window a nonce returns only after `cap` others. */
  lemma NonceReturnsAfterCap(run: seq<Accepted>, cap: nat, i: nat, j: nat)
    requires cap > 0 && LoginRun(run, 0, cap)
    requires i < j < |run| && run[i].key == run[j].key
    ensures j - i - 1 >= cap
  {
    assert LoginAdmitted(run, j, 0, cap);
    if j - i - 1 < cap {
      NonceHeld(Marks(run[..j]), 0, cap, i);
    }
  }

  /** Within `cap` notes a fresh relay block is still held. */
  lemma RelayBackTooSoon(run: seq<Accepted>, window: nat, cap: nat, i: nat, j: nat)
    requires cap > 0 && (window > 0 ==> Forward(run))
    requires i < j < |run| && j - i - 1 < cap && run[j].stamp <= run[i].stamp
    requires Fresh(run[i].stamp, run[i].now, window) && Fresh(run[j].stamp, run[j].now, window)
    ensures Holds(RelayCache(Marks(run[..j]), window, cap), run[i].key)
  {
    var h := Marks(run[..j]);
    if window > 0 {
      StillYoung(run, window, i, j);
    }
    assert ByAge(h, window) <= i && ByCount(|h|, cap) <= i;
    RelayHeld(h, window, cap, i);
  }

  /** A relay signature returns only after `cap` others: age trimming never gives
      back a block that freshness would still admit. */
  lemma RelayReturnsAfterCap(run: seq<Accepted>, window: nat, cap: nat, i: nat, j: nat)
    requires cap > 0 && RelayRun(run, window, cap) && (window > 0 ==> Forward(run))
    requires i < j < |run| && run[i].key == run[j].key && run[i].stamp == run[j].stamp
    ensures j - i - 1 >= cap
  {
    assert RelayAdmitted(run, i, window, cap) && RelayAdmitted(run, j, window, cap);
    if j - i - 1 < cap {
      RelayBackTooSoon(run, window, cap, i, j);
    }
  }
}
