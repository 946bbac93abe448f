/** The cache of opened sealed bodies: a ring of the last `cap` signatures whose
    evictions raise a floor under the stamps still admitted. */
module SealRing {
  import opened Bytes
  import opened ReplayCache

  /** `next` is the slot to overwrite once the ring is full. */
  datatype Ring = Ring(slots: seq<Mark>, next: nat, floor: int)

  const EMPTY := Ring([], 0, 0)

  predicate ValidRing(r: Ring, cap: nat) {
    cap > 0 && |r.slots| <= cap && r.next <= cap && (|r.slots| < cap ==> r.next == 0)
  }

  /** The slot the next note overwrites. */
  function Oldest(r: Ring, cap: nat): nat { if r.next >= cap then 0 else r.next }

  function NoteSeal(r: Ring, m: Mark, cap: nat): (q: Ring)
    requires ValidRing(r, cap)
    ensures ValidRing(q, cap)
  {
    if |r.slots| < cap then Ring(r.slots + [m], 0, r.floor)
    else
      var n := Oldest(r, cap);
      Ring(r.slots[n := m], n + 1, if r.slots[n].t > r.floor then r.slots[n].t else r.floor)
  }

  /** A full ring read from slot `n`: what follows it, then what is before it. */
  function From(s: seq<Mark>, n: nat): seq<Mark>
    requires n <= |s|
  {
    s[n..] + s[..n]
  }

  /** The slots from the oldest note to the newest. */
  function InOrder(r: Ring, cap: nat): seq<Mark>
    requires ValidRing(r, cap)
  {
    if |r.slots| < cap then r.slots else From(r.slots, Oldest(r, cap))
  }

  function RingAfter(h: seq<Mark>, cap: nat): (r: Ring)
    requires cap > 0
    ensures ValidRing(r, cap)
  {
    if h == [] then EMPTY else NoteSeal(RingAfter(h[..|h| - 1], cap), h[|h| - 1], cap)
  }

  /** The newest stamp in `h`, and never below zero. */
  function NewestStamp(h: seq<Mark>): int {
    if h == [] then 0
    else
      var n := NewestStamp(h[..|h| - 1]);
      if h[|h| - 1].t > n then h[|h| - 1].t else n
  }

  lemma {:induction false} NewestBounds(h: seq<Mark>, i: nat)
    requires i < |h|
    ensures h[i].t <= NewestStamp(h)
  {
    if i < |h| - 1 {
      NewestBounds(h[..|h| - 1], i);
    }
  }

  lemma {:induction false} NewestGrows(h: seq<Mark>, k: nat)
    requires k <= |h|
    ensures NewestStamp(h[..k]) <= NewestStamp(h)
  {
    if k < |h| {
      NewestGrows(h[..|h| - 1], k);
      assert h[..|h| - 1][..k] == h[..k];
    } else {
      assert h[..k] == h;
    }
  }

  lemma OverwriteLast(s: seq<Mark>, m: Mark)
    requires s != []
    ensures var n := |s| - 1;
            From(s[n := m], 0) == KeepLast(From(s, n), n) + [m] && From(s, n)[0] == s[n]
  {
    var n := |s| - 1;
    assert From(s, n) == [s[n]] + s[..n];
    assert KeepLast(From(s, n), n) == s[..n];
    assert s[n := m] == s[..n] + [m];
  }

  lemma OverwriteInner(s: seq<Mark>, n: nat, m: Mark)
    requires n + 1 < |s|
    ensures From(s[n := m], n + 1) == KeepLast(From(s, n), |s| - 1) + [m] && From(s, n)[0] == s[n]
  {
    var tail, front := s[n + 1..], s[..n];
    assert From(s, n) == [s[n]] + (tail + front);
    assert KeepLast(From(s, n), |s| - 1) == tail + front;
    assert s[n := m][n + 1..] == tail && s[n := m][..n + 1] == front + [m];
    assert (tail + front) + [m] == tail + (front + [m]);
  }

  lemma NoteInOrder(r: Ring, m: Mark, cap: nat)
    requires ValidRing(r, cap)
    ensures InOrder(NoteSeal(r, m, cap), cap) == KeepLast(InOrder(r, cap), cap - 1) + [m]
    ensures |r.slots| == cap ==> NoteSeal(r, m, cap).floor == if InOrder(r, cap)[0].t > r.floor then InOrder(r, cap)[0].t else r.floor
    ensures |r.slots| < cap ==> NoteSeal(r, m, cap).floor == r.floor
  {
    if |r.slots| == cap {
      var n := Oldest(r, cap);
      if n + 1 == cap {
        OverwriteLast(r.slots, m);
      } else {
        OverwriteInner(r.slots, n, m);
      }
      hide From, KeepLast;
    } else if |r.slots| + 1 == cap {
      assert From(r.slots + [m], 0) == r.slots + [m];
    }
  }

  lemma KeepLastStep<T>(g: seq<T>, m: T, cap: nat)
    requires cap > 0
    ensures KeepLast(KeepLast(g, cap), cap - 1) + [m] == KeepLast(g + [m], cap)
  {
  }

  lemma NewestStep(h: seq<Mark>, e: nat)
    requires e < |h|
    ensures NewestStamp(h[..e + 1]) == if h[e].t > NewestStamp(h[..e]) then h[e].t else NewestStamp(h[..e])
  {
    assert h[..e + 1][..e] == h[..e];
  }

  lemma FloorStep(g: seq<Mark>, m: Mark, cap: nat)
    requires cap > 0
    requires InOrder(RingAfter(g, cap), cap) == KeepLast(g, cap)
    requires RingAfter(g, cap).floor == NewestStamp(g[..ByCount(|g|, cap)])
    ensures NoteSeal(RingAfter(g, cap), m, cap).floor == NewestStamp((g + [m])[..ByCount(|g| + 1, cap)])
  {
    var r := RingAfter(g, cap);
    NoteInOrder(r, m, cap);
    var e := ByCount(|g|, cap);
    assert |r.slots| == |KeepLast(g, cap)|;
    if |g| >= cap {
      assert KeepLast(g, cap)[0] == (g + [m])[e];
      NewestStep(g + [m], e);
      assert (g + [m])[..e] == g[..e];
    } else {
      assert (g + [m])[..0] == g[..0];
    }
  }

  /** After any history the ring is the last `cap` notes in order, and the floor is
      the newest stamp among all the notes evicted. */
  lemma {:induction false} RingIs(h: seq<Mark>, cap: nat)
    requires cap > 0
    ensures InOrder(RingAfter(h, cap), cap) == KeepLast(h, cap)
    ensures RingAfter(h, cap).floor == NewestStamp(h[..ByCount(|h|, cap)])
  {
    if h != [] {
      var g, m := h[..|h| - 1], h[|h| - 1];
      assert h == g + [m];
      RingIs(g, cap);
      NoteInOrder(RingAfter(g, cap), m, cap);
      KeepLastStep(g, m, cap);
      FloorStep(g, m, cap);
    }
  }

  /** The floor never falls as notes are added. */
  lemma FloorNeverFalls(h: seq<Mark>, more: seq<Mark>, cap: nat)
    requires cap > 0
    ensures RingAfter(h, cap).floor <= RingAfter(h + more, cap).floor
  {
    var g := h + more;
    RingIs(h, cap);
    RingIs(g, cap);
    var e, f := ByCount(|h|, cap), ByCount(|g|, cap);
    NewestGrows(g[..f], e);
    SamePrefix(h, more, e, f);
  }

  lemma SamePrefix<T>(h: seq<T>, more: seq<T>, e: nat, f: nat)
    requires e <= |h| && e <= f <= |h + more|
    ensures (h + more)[..f][..e] == h[..e]
  {
  }

  lemma HeldInOrder(r: Ring, cap: nat, key: Octets)
    requires ValidRing(r, cap)
    ensures Holds(r.slots, key) <==> Holds(InOrder(r, cap), key)
  {
    var n := Oldest(r, cap);
    if |r.slots| == cap {
      forall i | 0 <= i < cap
        ensures r.slots[i] in InOrder(r, cap)
      {
        assert r.slots[i] == InOrder(r, cap)[if i >= n then i - n else i + cap - n];
      }
      forall i | 0 <= i < cap
        ensures InOrder(r, cap)[i] in r.slots
      {
      }
    }
  }

  // ---- whole runs -------------------------------------------------------------------

  /** A body that opened under a sender's key: its signature, signed stamp, the
      clock, and whether replay refusal was switched on. */
  datatype Opening = Opening(key: Octets, stamp: int, now: int, refusing: bool)

  /** Neither stale nor, under refusal, below the floor or in the ring. */
  predicate Admits(r: Ring, o: Opening, window: int) {
    && Fresh(o.stamp, o.now, window)
    && (o.refusing ==> !(r.floor != 0 && o.stamp < r.floor) && !Holds(r.slots, o.key))
  }

  function OpenStep(r: Ring, o: Opening, window: int, cap: nat): (q: Ring)
    requires ValidRing(r, cap)
    ensures ValidRing(q, cap)
  {
    if o.refusing && Admits(r, o, window) then NoteSeal(r, Mark(o.key, o.stamp), cap) else r
  }

  /** What a run of openings notes, and the ring it leaves. */
  function Noted(run: seq<Opening>, window: int, cap: nat): seq<Mark>
    requires cap > 0
  {
    if run == [] then []
    else
      var o, front := run[|run| - 1], run[..|run| - 1];
      var h := Noted(front, window, cap);
      if o.refusing && Admits(RingAfter(h, cap), o, window) then h + [Mark(o.key, o.stamp)] else h
  }

  function RunRing(run: seq<Opening>, window: int, cap: nat): (r: Ring)
    requires cap > 0
    ensures ValidRing(r, cap)
  {
    if run == [] then EMPTY else OpenStep(RunRing(run[..|run| - 1], window, cap), run[|run| - 1], window, cap)
  }

  lemma {:induction false} RunRingIs(run: seq<Opening>, window: int, cap: nat)
    requires cap > 0
    ensures RunRing(run, window, cap) == RingAfter(Noted(run, window, cap), cap)
  {
    if run != [] {
      RunRingIs(run[..|run| - 1], window, cap);
      var h := Noted(run, window, cap);
      var g := Noted(run[..|run| - 1], window, cap);
      assert h != g ==> h[..|h| - 1] == g;
    }
  }

  lemma {:induction false} NotedGrows(run: seq<Opening>, k: nat, window: int, cap: nat)
    requires cap > 0 && k <= |run|
    ensures Noted(run[..k], window, cap) <= Noted(run, window, cap)
  {
    if k == |run| {
      assert run[..k] == run;
    } else {
      NotedGrows(run[..|run| - 1], k, window, cap);
      assert run[..|run| - 1][..k] == run[..k];
    }
  }

  /** The floor never falls over a run, whatever is toggled in it. */
  lemma RunFloorNeverFalls(run: seq<Opening>, k: nat, window: int, cap: nat)
    requires cap > 0 && k <= |run|
    ensures RunRing(run[..k], window, cap).floor <= RunRing(run, window, cap).floor
  {
    hide Noted, RunRing;
    NotedGrows(run, k, window, cap);
    RunRingIs(run, window, cap);
    RunRingIs(run[..k], window, cap);
    var h, g := Noted(run, window, cap), Noted(run[..k], window, cap);
    FloorNeverFalls(g, h[|g|..], cap);
    assert h == g + h[|g|..];
  }

  /** A note is either among the slots or no newer than the floor. */
  lemma HeldOrEvicted(h: seq<Mark>, p: nat, cap: nat)
    requires cap > 0 && p < |h|
    ensures Holds(RingAfter(h, cap).slots, h[p].key) || h[p].t <= RingAfter(h, cap).floor
  {
    RingIs(h, cap);
    HeldInOrder(RingAfter(h, cap), cap, h[p].key);
    var e := ByCount(|h|, cap);
    if p >= e {
      assert KeepLast(h, cap)[p - e] == h[p];
    } else {
      NewestBounds(h[..e], p);
    }
  }

  lemma NotedAt(run: seq<Opening>, i: nat, j: nat, window: int, cap: nat) returns (p: nat)
    requires cap > 0 && i < j <= |run|
    requires run[i].refusing && Admits(RunRing(run[..i], window, cap), run[i], window)
    ensures p < |Noted(run[..j], window, cap)|
    ensures Noted(run[..j], window, cap)[p] == Mark(run[i].key, run[i].stamp)
  {
    RunRingIs(run[..i], window, cap);
    var upto := run[..i + 1];
    p := |Noted(run[..i], window, cap)|;
    assert upto[..i] == run[..i] && upto[i] == run[i];
    assert Noted(upto, window, cap) == Noted(run[..i], window, cap) + [Mark(run[i].key, run[i].stamp)];
    NotedGrows(run[..j], i + 1, window, cap);
    assert run[..j][..i + 1] == upto;
  }

  /** A body admitted under refusal is from then on either in the ring or no newer
      than the floor. */
  lemma HeldOrBelowFloor(run: seq<Opening>, i: nat, j: nat, window: int, cap: nat)
    requires cap > 0 && i < j <= |run|
    requires run[i].refusing && Admits(RunRing(run[..i], window, cap), run[i], window)
    ensures Holds(RunRing(run[..j], window, cap).slots, run[i].key)
            || run[i].stamp <= RunRing(run[..j], window, cap).floor
  {
    var p := NotedAt(run, i, j, window, cap);
    RunRingIs(run[..j], window, cap);
    HeldOrEvicted(Noted(run[..j], window, cap), p, cap);
  }

  /** A body admitted under refusal is admitted again under refusal exactly when it
      is not stale, has been evicted, and its stamp is the floor to the second or no
      eviction has raised the floor yet; toggling the switch in between changes
      nothing. */
  lemma AdmittedAgainExactlyWhen(run: seq<Opening>, i: nat, j: nat, window: int, cap: nat)
    requires cap > 0 && i < j < |run|
    requires run[i].refusing && run[j].refusing
    requires run[i].key == run[j].key && run[i].stamp == run[j].stamp
    requires Admits(RunRing(run[..i], window, cap), run[i], window)
    ensures var r := RunRing(run[..j], window, cap);
            Admits(r, run[j], window) <==>
            && Fresh(run[j].stamp, run[j].now, window) && !Holds(r.slots, run[j].key)
            && (run[j].stamp == r.floor || r.floor == 0)
  {
    HeldOrBelowFloor(run, i, j, window, cap);
  }

  /** And so it can be: with room for one, a body is admitted, evicted by another of
      the same second, and admitted again. */
  lemma AdmittedTwiceIsPossible(a: Octets, b: Octets, stamp: int) returns (run: seq<Opening>)
    requires a != b && stamp > 0
    ensures |run| == 3 && run[0] == run[2] && run[0].refusing && run[0].stamp == stamp
    ensures forall k :: 0 <= k < 3 ==> Admits(RunRing(run[..k], 0, 1), run[k], 0)
    ensures RunRing(run[..2], 0, 1).floor == stamp
  {
    var body, other := Opening(a, stamp, stamp, true), Opening(b, stamp, stamp, true);
    run := [body, other, body];
    assert run[..2][..1] == run[..1] && run[..1][..0] == run[..0] == [];
    assert RunRing(run[..1], 0, 1) == Ring([Mark(a, stamp)], 0, 0);
    assert RunRing(run[..2], 0, 1) == Ring([Mark(b, stamp)], 1, stamp);
  }
}
