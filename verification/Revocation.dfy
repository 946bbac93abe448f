/** Signed revocation lists: their wire form, the union a hub merges them by, and
    what whole runs of deliveries leave behind. */
module Revocation {
  import opened Bytes
  import opened Primitives
  import T = Transcript

  datatype RevResult =
    | RevOk | RevErrArgs | RevErrFormat | RevErrVersion | RevErrNoAuthority | RevErrIssuer | RevErrSignature
    | RevErrStale | RevErrNoIdentity | RevErrNoList | RevErrInternal

  const ENTRY_LEN := 72
  const FIXED_LEN := 141
  const MAX_ENTRIES := 4096
  const OFF_EPOCH := 3
  const OFF_COUNT := 11
  const OFF_ENTRIES := 13
  const REV_VERSION := 1
  const REV_MAGIC := Ascii("PV")

  datatype RevEntry = RevEntry(point: Octets, at: int)

  predicate EntryOk(e: RevEntry) { |e.point| == POINT_LEN && IsI64(e.at) }

  predicate EntriesOk(es: seq<RevEntry>) { forall i :: 0 <= i < |es| ==> EntryOk(es[i]) }

  // ---- the wire form --------------------------------------------------------------

  function PackEntry(e: RevEntry): Octets { e.point + I64(e.at) }

  function Pack(es: seq<RevEntry>): (r: Octets)
    requires EntriesOk(es)
    ensures |r| == ENTRY_LEN * |es|
  {
    if es == [] then [] else Pack(es[..|es| - 1]) + PackEntry(es[|es| - 1])
  }

  function ListLen(n: nat): nat { FIXED_LEN + ENTRY_LEN * n }

  function OffIssuer(n: nat): nat { OFF_ENTRIES + ENTRY_LEN * n }

  function OffSig(n: nat): nat { OffIssuer(n) + POINT_LEN }

  function Header(epoch: int, n: nat): (r: Octets)
    ensures |r| == OFF_ENTRIES
  {
    REV_MAGIC + [REV_VERSION] + I64(epoch) + U16(n)
  }

  function ListBlock(epoch: int, es: seq<RevEntry>, issuer: Octets, sig: Octets): Octets
    requires EntriesOk(es)
  {
    Header(epoch, |es|) + Pack(es) + issuer + sig
  }

  /** The count a block declares. */
  function CountIn(b: Octets): nat
    requires |b| >= FIXED_LEN
  {
    256 * b[OFF_COUNT] as int + b[OFF_COUNT + 1] as int
  }

  /** The shape check: the declared count is held against the length before it is
      used to address anything. */
  function ShapeOf(b: Octets): RevResult {
    if |b| < FIXED_LEN || b[..2] != REV_MAGIC then RevErrFormat
    else if b[2] != REV_VERSION then RevErrVersion
    else if CountIn(b) > MAX_ENTRIES || |b| != ListLen(CountIn(b)) then RevErrFormat
    else RevOk
  }

  function EpochIn(b: Octets): int
    requires ShapeOf(b).RevOk?
  {
    FromI64(b[OFF_EPOCH..OFF_COUNT])
  }

  function EntryIn(b: Octets, i: nat): (e: RevEntry)
    requires ShapeOf(b).RevOk? && i < CountIn(b)
    ensures EntryOk(e)
  {
    var o := OFF_ENTRIES + ENTRY_LEN * i;
    FromI64RoundTrip(b[o + POINT_LEN..o + ENTRY_LEN]);
    RevEntry(b[o..o + POINT_LEN], FromI64(b[o + POINT_LEN..o + ENTRY_LEN]))
  }

  function EntriesIn(b: Octets): (es: seq<RevEntry>)
    requires ShapeOf(b).RevOk?
    ensures |es| == CountIn(b) && EntriesOk(es)
    ensures forall i :: 0 <= i < |es| ==> es[i] == EntryIn(b, i)
  {
    seq(CountIn(b), i requires 0 <= i < CountIn(b) => EntryIn(b, i))
  }

  function RawEntries(b: Octets): Octets
    requires ShapeOf(b).RevOk?
  {
    b[OFF_ENTRIES..OffIssuer(CountIn(b))]
  }

  function IssuerIn(b: Octets): (r: Octets)
    requires ShapeOf(b).RevOk?
    ensures |r| == POINT_LEN
  {
    b[OffIssuer(CountIn(b))..OffSig(CountIn(b))]
  }

  function SigIn(b: Octets): (r: Octets)
    requires ShapeOf(b).RevOk?
    ensures |r| == SIG_LEN
  {
    b[OffSig(CountIn(b))..]
  }

  /** What the issuer signed. */
  function StatementIn(b: Octets): T.Statement
    requires ShapeOf(b).RevOk?
  {
    T.RevList(EpochIn(b), CountIn(b), RawEntries(b), IssuerIn(b))
  }

  lemma {:induction false} PackAt(es: seq<RevEntry>, i: nat)
    requires EntriesOk(es) && i < |es|
    ensures Pack(es)[ENTRY_LEN * i..ENTRY_LEN * (i + 1)] == PackEntry(es[i])
  {
    var n := |es| - 1;
    if i < n {
      PackAt(es[..n], i);
      assert Pack(es)[..ENTRY_LEN * n] == Pack(es[..n]);
      assert Pack(es)[ENTRY_LEN * i..ENTRY_LEN * (i + 1)]
          == Pack(es)[..ENTRY_LEN * n][ENTRY_LEN * i..ENTRY_LEN * (i + 1)];
    }
  }

  lemma BlockParts(epoch: int, es: seq<RevEntry>, issuer: Octets, sig: Octets)
    requires EntriesOk(es) && |es| <= MAX_ENTRIES && |issuer| == POINT_LEN && |sig| == SIG_LEN
    ensures var b := ListBlock(epoch, es, issuer, sig);
            && |b| == ListLen(|es|) && b[..2] == REV_MAGIC && b[2] == REV_VERSION
            && b[OFF_EPOCH..OFF_COUNT] == I64(epoch) && b[OFF_COUNT..OFF_ENTRIES] == U16(|es|)
            && b[OFF_ENTRIES..OffIssuer(|es|)] == Pack(es)
            && b[OffIssuer(|es|)..OffSig(|es|)] == issuer && b[OffSig(|es|)..] == sig
  {
  }

  lemma Slice<X>(s: seq<X>, a: nat, d: nat, x: nat, y: nat)
    requires a <= d <= |s| && x <= y <= d - a
    ensures s[a..d][x..y] == s[a + x..a + y]
  {
    var l, r := s[a..d][x..y], s[a + x..a + y];
    assert |l| == |r|;
    forall k | 0 <= k < |r|
      ensures l[k] == r[k]
    {
      assert l[k] == s[a..d][x + k] == s[a + (x + k)];
    }
  }

  lemma PackedEntry(b: Octets, es: seq<RevEntry>, i: nat)
    requires ShapeOf(b).RevOk? && CountIn(b) == |es| && EntriesOk(es) && i < |es|
    requires RawEntries(b) == Pack(es)
    ensures var o := OFF_ENTRIES + ENTRY_LEN * i;
            o + ENTRY_LEN <= |b| && b[o..o + ENTRY_LEN] == PackEntry(es[i])
  {
    PackAt(es, i);
    Slice(b, OFF_ENTRIES, OffIssuer(|es|), ENTRY_LEN * i, ENTRY_LEN * (i + 1));
  }

  lemma EntryOfBlock(b: Octets, es: seq<RevEntry>, i: nat)
    requires ShapeOf(b).RevOk? && CountIn(b) == |es| && EntriesOk(es) && i < |es|
    requires RawEntries(b) == Pack(es)
    ensures EntryIn(b, i) == es[i]
  {
    PackedEntry(b, es, i);
    var o := OFF_ENTRIES + ENTRY_LEN * i;
    Slice(b, o, o + ENTRY_LEN, 0, POINT_LEN);
    Slice(b, o, o + ENTRY_LEN, POINT_LEN, ENTRY_LEN);
    I64RoundTrip(es[i].at);
  }

  lemma BlockHeader(epoch: int, es: seq<RevEntry>, issuer: Octets, sig: Octets)
    requires IsI64(epoch) && EntriesOk(es) && |es| <= MAX_ENTRIES && |issuer| == POINT_LEN && |sig| == SIG_LEN
    ensures var b := ListBlock(epoch, es, issuer, sig);
            ShapeOf(b).RevOk? && CountIn(b) == |es| && EpochIn(b) == epoch
  {
    var b := ListBlock(epoch, es, issuer, sig);
    BlockParts(epoch, es, issuer, sig);
    assert b[OFF_COUNT] == b[OFF_COUNT..OFF_ENTRIES][0] && b[OFF_COUNT + 1] == b[OFF_COUNT..OFF_ENTRIES][1];
    I64RoundTrip(epoch);
  }

  /** Reading back what was written gives the epoch, the entries, the issuer and
      the signature, and the very statement that was signed. */
  lemma BlockRoundTrip(epoch: int, es: seq<RevEntry>, issuer: Octets, sig: Octets)
    requires IsI64(epoch) && EntriesOk(es) && |es| <= MAX_ENTRIES && |issuer| == POINT_LEN && |sig| == SIG_LEN
    ensures var b := ListBlock(epoch, es, issuer, sig);
            && ShapeOf(b).RevOk? && EpochIn(b) == epoch && EntriesIn(b) == es
            && IssuerIn(b) == issuer && SigIn(b) == sig
            && StatementIn(b) == T.RevList(epoch, |es|, Pack(es), issuer)
  {
    var b := ListBlock(epoch, es, issuer, sig);
    BlockHeader(epoch, es, issuer, sig);
    BlockParts(epoch, es, issuer, sig);
    forall i | 0 <= i < |es|
      ensures EntriesIn(b)[i] == es[i]
    {
      EntryOfBlock(b, es, i);
    }
  }

  predicate AllPoints(ps: seq<Octets>) { forall i :: 0 <= i < |ps| ==> |ps[i]| == POINT_LEN }

  /** Points as a list republishes them, with no stamp. */
  function Unstamped(ps: seq<Octets>): (r: seq<RevEntry>)
    ensures |r| == |ps| && forall i :: 0 <= i < |ps| ==> r[i] == RevEntry(ps[i], 0)
    ensures AllPoints(ps) ==> EntriesOk(r)
  {
    seq(|ps|, i requires 0 <= i < |ps| => RevEntry(ps[i], 0))
  }

  /** One entry further. */
  method PutEntry(pOut: array<byte>, at: nat, e: RevEntry, ghost front: seq<RevEntry>, ghost head: Octets)
    returns (end: nat)
    requires EntryOk(e) && EntriesOk(front) && at + ENTRY_LEN <= pOut.Length && pOut[..at] == head + Pack(front)
    modifies pOut
    ensures end == at + ENTRY_LEN && pOut[..end] == head + Pack(front + [e])
  {
    end := Put(pOut, at, e.point);
    end := Put(pOut, end, I64(e.at));
    assert (front + [e])[..|front|] == front;
    assert head + Pack(front) + e.point + I64(e.at) == head + (Pack(front) + (e.point + I64(e.at)));
  }

  /** The header and the entries of a list block. */
  method PutEntries(pOut: array<byte>, epoch: int, points: seq<Octets>) returns (at: nat)
    requires AllPoints(points) && OffIssuer(|points|) <= pOut.Length
    modifies pOut
    ensures at == OffIssuer(|points|) && at <= pOut.Length
    ensures pOut[..at] == Header(epoch, |points|) + Pack(Unstamped(points))
  {
    at := Put(pOut, 0, REV_MAGIC + [REV_VERSION]);
    at := Put(pOut, at, I64(epoch));
    at := Put(pOut, at, U16(|points|));
    ghost var es := Unstamped(points);
    assert pOut[..at] == Header(epoch, |points|) + Pack(es[..0]);
    for i := 0 to |points|
      invariant at == OffIssuer(i) && pOut[..at] == Header(epoch, |points|) + Pack(es[..i])
    {
      assert es[..i + 1] == es[..i] + [es[i]];
      at := PutEntry(pOut, at, RevEntry(points[i], 0), es[..i], Header(epoch, |points|));
    }
    assert es[..|points|] == es;
  }

  /** All of a list block that is signed, and the entries as they stand in it. */
  method PutUnsigned(pOut: array<byte>, epoch: int, points: seq<Octets>, issuer: Octets)
    returns (at: nat, entries: Octets)
    requires AllPoints(points) && |issuer| == POINT_LEN && OffSig(|points|) <= pOut.Length
    modifies pOut
    ensures at == OffSig(|points|) && at <= pOut.Length && entries == Pack(Unstamped(points))
    ensures pOut[..at] == Header(epoch, |points|) + Pack(Unstamped(points)) + issuer
  {
    at := PutEntries(pOut, epoch, points);
    entries := pOut[OFF_ENTRIES..at];
    assert entries == pOut[..at][OFF_ENTRIES..];
    at := Put(pOut, at, issuer);
  }

  /** An entry whose stamp, or the clock in place of a zero one, is negative cannot
      be written to the file. */
  predicate Storable(at: int, now: int) { (if at == 0 then now else at) >= 0 }

  predicate AllStorable(es: seq<RevEntry>, now: int) { forall i :: 0 <= i < |es| ==> Storable(es[i].at, now) }

  // ---- the union --------------------------------------------------------------------

  function Points(es: seq<RevEntry>): (r: seq<Octets>)
    ensures |r| == |es| && forall i :: 0 <= i < |es| ==> r[i] == es[i].point
  {
    Each(es, (e: RevEntry) => e.point)
  }

  /** The entries a merge adds: those not known already, each once, in order. */
  function Fresh(es: seq<RevEntry>, known: seq<Octets>): (r: seq<RevEntry>)
    ensures |r| <= |es|
    ensures EntriesOk(es) ==> EntriesOk(r)
  {
    if es == [] then []
    else
      var f, e := Fresh(es[..|es| - 1], known), es[|es| - 1];
      if e.point in known || e.point in Points(f) then f else f + [e]
  }

  function Merged(known: seq<Octets>, es: seq<RevEntry>): seq<Octets> { known + Points(Fresh(es, known)) }

  function AsSet(ps: seq<Octets>): set<Octets> { set p | p in ps }

  lemma PointsSnoc(es: seq<RevEntry>, e: RevEntry)
    ensures Points(es + [e]) == Points(es) + [e.point]
  {
  }

  /** What is fresh in the first entries stays so, and the next entry is one more
      exactly when it is neither known nor fresh already. */
  lemma {:induction false} FreshPrefix(es: seq<RevEntry>, known: seq<Octets>, k: nat)
    requires k <= |es|
    ensures Fresh(es[..k], known) <= Fresh(es, known)
  {
    if k < |es| {
      FreshPrefix(es[..|es| - 1], known, k);
      assert es[..|es| - 1][..k] == es[..k];
    } else {
      assert es[..k] == es;
    }
  }

  lemma FreshNext(es: seq<RevEntry>, known: seq<Octets>, i: nat)
    requires i < |es|
    ensures var f, e := Fresh(es[..i], known), es[i];
            && Fresh(es[..i + 1], known) == (if e.point in Merged(known, es[..i]) then f else f + [e])
            && Fresh(es[..i + 1], known) <= Fresh(es, known)
            && Points(f + [e]) == Points(f) + [e.point]
  {
    var front := es[..i + 1];
    assert front[..i] == es[..i] && front[i] == es[i];
    FreshPrefix(es, known, i + 1);
  }

  lemma {:induction false} FreshAreEntries(es: seq<RevEntry>, known: seq<Octets>)
    ensures forall e :: e in Fresh(es, known) ==> e in es
  {
    if es != [] {
      FreshAreEntries(es[..|es| - 1], known);
    }
  }

  /** A merge is a union. */
  lemma {:induction false} MergedIsUnion(known: seq<Octets>, es: seq<RevEntry>)
    ensures AsSet(Merged(known, es)) == AsSet(known) + AsSet(Points(es))
  {
    if es != [] {
      var front, e := es[..|es| - 1], es[|es| - 1];
      MergedIsUnion(known, front);
      assert es == front + [e];
      PointsSnoc(front, e);
      var f := Fresh(front, known);
      PointsSnoc(f, e);
      assert AsSet(Points(es)) == AsSet(Points(front)) + {e.point};
      if e.point !in known && e.point !in Points(f) {
        assert AsSet(known + Points(f + [e])) == AsSet(known + Points(f)) + {e.point};
      } else {
        assert e.point in AsSet(known + Points(f));
      }
    }
  }

  /** A merge adds no point twice. */
  lemma {:induction false} FreshOnce(known: seq<Octets>, es: seq<RevEntry>)
    ensures forall i, j :: 0 <= i < j < |Fresh(es, known)| ==> Fresh(es, known)[i].point != Fresh(es, known)[j].point
    ensures forall i :: 0 <= i < |Fresh(es, known)| ==> Fresh(es, known)[i].point !in known
  {
    if es != [] {
      FreshOnce(known, es[..|es| - 1]);
      var f := Fresh(es[..|es| - 1], known);
      assert forall i :: 0 <= i < |f| ==> f[i].point == Points(f)[i];
    }
  }

  lemma AsSetSnoc(ps: seq<Octets>, p: Octets)
    ensures AsSet(ps + [p]) == AsSet(ps) + {p}
  {
  }

  lemma OneMoreOrLess<T>(a: set<T>, known: set<T>, p: T)
    ensures (a + {p}) - known == if p in known || p in a - known then a - known else (a - known) + {p}
  {
  }

  /** The fresh points are the list's without those held, and as many as there are. */
  lemma {:induction false} FreshIsDifference(es: seq<RevEntry>, known: seq<Octets>)
    ensures AsSet(Points(Fresh(es, known))) == AsSet(Points(es)) - AsSet(known)
    ensures |Fresh(es, known)| == |AsSet(Points(es)) - AsSet(known)|
  {
    if es == [] {
      assert AsSet(Points(es)) - AsSet(known) == {};
    } else {
      var front, e := es[..|es| - 1], es[|es| - 1];
      FreshIsDifference(front, known);
      var f := Fresh(front, known);
      assert es == front + [e];
      PointsSnoc(front, e);
      PointsSnoc(f, e);
      assert e.point in known <==> e.point in AsSet(known);
      assert e.point in Points(f) <==> e.point in AsSet(Points(f));
      AsSetSnoc(Points(front), e.point);
      AsSetSnoc(Points(f), e.point);
      hide AsSet, Points;
      OneMoreOrLess(AsSet(Points(front)), AsSet(known), e.point);
    }
  }

  /** Merging what another hub issued adds exactly its points not held, and every
      one of them can be stored. */
  lemma UnstampedMerge(known: seq<Octets>, points: seq<Octets>)
    ensures AsSet(Merged(known, Unstamped(points))) == AsSet(known) + AsSet(points)
    ensures |Fresh(Unstamped(points), known)| == |AsSet(points) - AsSet(known)|
    ensures forall now :: now >= 0 ==> AllStorable(Fresh(Unstamped(points), known), now)
  {
    var es := Unstamped(points);
    MergedIsUnion(known, es);
    FreshIsDifference(es, known);
    assert Points(es) == points;
    FreshAreEntries(es, known);
    forall i | 0 <= i < |Fresh(es, known)|
      ensures Fresh(es, known)[i].at == 0
    {
      assert Fresh(es, known)[i] in es;
    }
  }

  // ---- runs -----------------------------------------------------------------------

  datatype RevState = RevState(points: seq<Octets>, epoch: int, authority: Option<Octets>, usable: bool)

  /** What one call with a block holding `es` under `epoch` may do. A failed append
      keeps what was appended before it and marks the list unusable. */
  ghost predicate ApplyStep(s: RevState, epoch: int, es: seq<RevEntry>, r: RevResult, added: nat, t: RevState) {
    match r
    case RevOk =>
      && s.epoch < epoch && added == |Fresh(es, s.points)|
      && t == RevState(Merged(s.points, es), epoch,
                       if s.authority.Some? && s.authority.value in Merged(s.points, es) then None else s.authority,
                       s.usable)
    case RevErrInternal =>
      added == 0 && (t == s || exists k :: 0 <= k < |Fresh(es, s.points)|
                                           && t == s.(points := s.points + Points(Fresh(es, s.points)[..k]), usable := false))
    case RevErrStale => epoch <= s.epoch && added == 0 && t == s
    case _ => added == 0 && t == s
  }

  /** How far a merge got: through all of `es`, or up to the fresh entry numbered `n`
      that could not be stored. */
  ghost predicate MergedTo(known: seq<Octets>, es: seq<RevEntry>, now: int, ok: bool, n: nat, points: seq<Octets>) {
    var f := Fresh(es, known);
    && n <= |f| && (n == |f| <==> ok) && points == known + Points(f[..n]) && AllStorable(f[..n], now)
  }

  lemma MergeStarts(known: seq<Octets>, es: seq<RevEntry>, now: int)
    ensures MergedTo(known, es[..0], now, true, 0, known)
  {
    assert es[..0] == [];
  }

  /** The next entry is known already, or it is stored, or the merge ends there. */
  lemma MergeNext(known: seq<Octets>, es: seq<RevEntry>, now: int, i: nat, n: nat, points: seq<Octets>)
    requires i < |es| && MergedTo(known, es[..i], now, true, n, points)
    ensures es[i].point in points ==> MergedTo(known, es[..i + 1], now, true, n, points)
    ensures es[i].point !in points ==> MergedTo(known, es, now, false, n, points)
    ensures es[i].point !in points && Storable(es[i].at, now) ==>
              MergedTo(known, es[..i + 1], now, true, n + 1, points + [es[i].point])
  {
    FreshNext(es, known, i);
    var f, g := Fresh(es[..i], known), Fresh(es[..i + 1], known);
    assert f[..n] == f && g[..|g|] == g;
    assert Merged(known, es[..i]) == points;
    if es[i].point !in points {
      assert g[..n] == f && Fresh(es, known)[..n] == g[..n];
    }
  }

  lemma StepOfMerge(s: RevState, epoch: int, es: seq<RevEntry>, now: int, ok: bool, n: nat, points: seq<Octets>)
    requires MergedTo(s.points, es, now, ok, n, points) && s.epoch < epoch
    ensures ok ==> AllStorable(Fresh(es, s.points), now)
    ensures ok ==>
              ApplyStep(s, epoch, es, RevOk, n,
                        RevState(points, epoch,
                                 if s.authority.Some? && s.authority.value in points then None else s.authority, s.usable))
    ensures !ok ==> ApplyStep(s, epoch, es, RevErrInternal, 0, s.(points := points, usable := false))
  {
    var f := Fresh(es, s.points);
    assert f[..|f|] == f;
  }

  /** In every call the points only grow at the end, and the epoch never falls. */
  lemma StepGrows(s: RevState, epoch: int, es: seq<RevEntry>, r: RevResult, added: nat, t: RevState)
    requires ApplyStep(s, epoch, es, r, added, t)
    ensures s.points <= t.points && s.epoch <= t.epoch
  {
  }

  datatype Call = Call(epoch: int, es: seq<RevEntry>, r: RevResult, added: nat)

  ghost predicate Calls(states: seq<RevState>, calls: seq<Call>) {
    |states| == |calls| + 1
    && forall i :: 0 <= i < |calls| ==>
         ApplyStep(states[i], calls[i].epoch, calls[i].es, calls[i].r, calls[i].added, states[i + 1])
  }

  lemma CallsSnoc(states: seq<RevState>, calls: seq<Call>, c: Call, t: RevState)
    requires Calls(states, calls) && ApplyStep(states[|calls|], c.epoch, c.es, c.r, c.added, t)
    ensures Calls(states + [t], calls + [c])
  {
    hide ApplyStep;
    forall i | 0 <= i < |calls + [c]|
      ensures var d := (calls + [c])[i];
              ApplyStep((states + [t])[i], d.epoch, d.es, d.r, d.added, (states + [t])[i + 1])
    {
      assert i < |calls| ==> (calls + [c])[i] == calls[i];
    }
  }

  /** So over a whole run of calls, whatever each returned. */
  lemma {:induction false} RunGrows(states: seq<RevState>, calls: seq<Call>, i: nat, j: nat)
    requires Calls(states, calls) && i <= j < |states|
    ensures states[i].points <= states[j].points && states[i].epoch <= states[j].epoch
    decreases j
  {
    if i < j {
      RunGrows(states, calls, i, j - 1);
      var c := calls[j - 1];
      StepGrows(states[j - 1], c.epoch, c.es, c.r, c.added, states[j]);
    }
  }

  /** One list the authority published. */
  datatype Published = Published(epoch: int, es: seq<RevEntry>)

  /** Epochs rise and the sets only grow from one list to the next. */
  ghost predicate Growing(lists: seq<Published>) {
    && (forall i, j :: 0 <= i < j < |lists| ==> lists[i].epoch < lists[j].epoch)
    && (forall i, j :: 0 <= i <= j < |lists| ==> AsSet(Points(lists[i].es)) <= AsSet(Points(lists[j].es)))
  }

  /** Delivery of one genuine list when every append succeeds: applied if its epoch
      is higher than any before it, refused as stale otherwise. */
  function Deliver(s: RevState, l: Published): RevState {
    if l.epoch <= s.epoch then s
    else RevState(Merged(s.points, l.es), l.epoch,
                  if s.authority.Some? && s.authority.value in Merged(s.points, l.es) then None else s.authority,
                  s.usable)
  }

  function DeliverAll(s: RevState, lists: seq<Published>, order: seq<nat>): RevState
    requires forall i :: 0 <= i < |order| ==> order[i] < |lists|
  {
    if order == [] then s
    else Deliver(DeliverAll(s, lists, order[..|order| - 1]), lists[order[|order| - 1]])
  }

  /** The index of the newest list among those delivered. */
  function Newest(order: seq<nat>): (m: nat)
    requires order != []
    ensures m in order && forall i :: 0 <= i < |order| ==> order[i] <= m
  {
    if |order| == 1 then order[0]
    else
      var m := Newest(order[..|order| - 1]);
      if order[|order| - 1] > m then order[|order| - 1] else m
  }

  /** However the lists are reordered, repeated or lost, the hub ends with its
      initial points united with those of the newest list delivered. */
  lemma {:induction false} Converges(s: RevState, lists: seq<Published>, order: seq<nat>)
    requires Growing(lists) && order != []
    requires forall i :: 0 <= i < |order| ==> order[i] < |lists|
    requires forall i :: 0 <= i < |lists| ==> s.epoch < lists[i].epoch
    ensures AsSet(DeliverAll(s, lists, order).points)
            == AsSet(s.points) + AsSet(Points(lists[Newest(order)].es))
    ensures DeliverAll(s, lists, order).epoch == lists[Newest(order)].epoch
  {
    var front, d := order[..|order| - 1], order[|order| - 1];
    var before := DeliverAll(s, lists, front);
    MergedIsUnion(before.points, lists[d].es);
    if front == [] {
      assert order == [d];
    } else {
      Converges(s, lists, front);
      var m := Newest(front);
      if d > m {
        assert lists[m].epoch < lists[d].epoch;
        assert AsSet(Points(lists[m].es)) <= AsSet(Points(lists[d].es));
      } else if d < m {
        assert lists[d].epoch < lists[m].epoch;
      }
    }
  }

  /** While no list names the authority, it stays the authority, so every delivery
      is judged by its epoch alone. */
  lemma {:induction false} AuthorityKept(s: RevState, lists: seq<Published>, order: seq<nat>)
    requires forall i :: 0 <= i < |order| ==> order[i] < |lists|
    requires s.authority.Some? && s.authority.value !in s.points
    requires forall i :: 0 <= i < |lists| ==> s.authority.value !in Points(lists[i].es)
    ensures DeliverAll(s, lists, order).authority == s.authority
    ensures s.authority.value !in DeliverAll(s, lists, order).points
  {
    if order != [] {
      var front, l := order[..|order| - 1], lists[order[|order| - 1]];
      AuthorityKept(s, lists, front);
      var before := DeliverAll(s, lists, front);
      MergedIsUnion(before.points, l.es);
      assert s.authority.value !in AsSet(Merged(before.points, l.es));
    }
  }

  /** A run of calls that carried lists of one authority, each applied or refused as
      stale, is a run of deliveries. */
  ghost predicate Carries(calls: seq<Call>, lists: seq<Published>, order: seq<nat>) {
    |order| == |calls|
    && forall i :: 0 <= i < |calls| ==>
         order[i] < |lists| && calls[i].epoch == lists[order[i]].epoch && calls[i].es == lists[order[i]].es
         && (calls[i].r.RevOk? || calls[i].r.RevErrStale?)
  }

  lemma {:induction false} RunDelivers(states: seq<RevState>, calls: seq<Call>, lists: seq<Published>, order: seq<nat>)
    requires Calls(states, calls) && Carries(calls, lists, order)
    ensures states[|calls|] == DeliverAll(states[0], lists, order)
  {
    if calls != [] {
      var n := |calls| - 1;
      RunDelivers(states[..n + 1], calls[..n], lists, order[..n]);
    }
  }

  /** Convergence of the calls themselves: however a growing series of lists is
      reordered, repeated or lost on the way, the hub ends with its first points
      united with those of the newest list it was given. */
  lemma RunConverges(states: seq<RevState>, calls: seq<Call>, lists: seq<Published>, order: seq<nat>)
    requires Calls(states, calls) && Carries(calls, lists, order) && order != [] && Growing(lists)
    requires forall i :: 0 <= i < |lists| ==> states[0].epoch < lists[i].epoch
    ensures AsSet(states[|calls|].points) == AsSet(states[0].points) + AsSet(Points(lists[Newest(order)].es))
    ensures states[|calls|].epoch == lists[Newest(order)].epoch
  {
    RunDelivers(states, calls, lists, order);
    Converges(states[0], lists, order);
  }

  /** Two hubs that start alike and hear the same newest list agree. */
  lemma HubsAgree(s: RevState, lists: seq<Published>, a: seq<nat>, b: seq<nat>)
    requires Growing(lists) && a != [] && b != [] && Newest(a) == Newest(b)
    requires forall i :: 0 <= i < |a| ==> a[i] < |lists|
    requires forall i :: 0 <= i < |b| ==> b[i] < |lists|
    requires forall i :: 0 <= i < |lists| ==> s.epoch < lists[i].epoch
    ensures AsSet(DeliverAll(s, lists, a).points) == AsSet(DeliverAll(s, lists, b).points)
  {
    Converges(s, lists, a);
    Converges(s, lists, b);
  }
}
