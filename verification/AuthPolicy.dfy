/** The policy object of one hub: whom it believes, what it has seen, and whom it
    no longer trusts. Its vectors and counters are updated in place; what they hold
    after any run of calls is kept beside them as ghost histories. */
module AuthPolicies {
  import opened Bytes
  import opened Primitives
  import opened Utf8
  import opened Signatures
  import opened TextStore
  import opened PeerKeys
  import opened SealReaders
  import T = Transcript
  import B = AuthBlocks
  import C = ReplayCache
  import S = SealRing
  import R = Revocation
  import F = TextFiles

  /** What opening a sealed body under one sender key gives: a stamp and the plain
      text, or a failure. */
  datatype Opened = Opened(when: int, plain: Octets) | Shut(e: SealResult)

  /** Opening under an agreement key and a sender key: addresses, block, and the room
      for the text. */
  type Opener = (Octets, Octets, Wide, Wide, Octets, nat) -> Opened

  ghost predicate Lawful(open: Opener) {
    forall k, key, src, dst, b, room ::
      match open(k, key, src, dst, b, room)
      case Opened(_, plain) => |plain| <= room && |b| >= SIG_LEN
      case Shut(e) => !e.SealOk?
  }

  /** The first sender key whose outcome is not a bad signature decides. */
  function FirstOpen(open: Opener, k: Octets, keys: seq<Octets>, src: Wide, dst: Wide, b: Octets, room: nat): Opened {
    if keys == [] then Shut(SealErrSignature)
    else
      var o := open(k, keys[0], src, dst, b, room);
      if o == Shut(SealErrSignature) then FirstOpen(open, k, keys[1..], src, dst, b, room) else o
  }

  /** So a body opens only under one of the keys, and is reported badly signed exactly
      when it is so under all of them. */
  lemma {:induction false} FirstOpenIs(open: Opener, k: Octets, keys: seq<Octets>, src: Wide, dst: Wide, b: Octets, room: nat)
    ensures var o := FirstOpen(open, k, keys, src, dst, b, room);
            if o == Shut(SealErrSignature)
            then forall key :: key in keys ==> open(k, key, src, dst, b, room) == o
            else exists key :: key in keys && open(k, key, src, dst, b, room) == o
  {
    if keys != [] {
      FirstOpenIs(open, k, keys[1..], src, dst, b, room);
      assert keys == [keys[0]] + keys[1..];
    }
  }

  /** How the histories read for the theorems about whole runs. */
  function Logins(vs: seq<Verified>): (r: seq<C.Accepted>)
    requires forall i :: 0 <= i < |vs| ==> vs[i].st.Login?
    ensures |r| == |vs|
    ensures forall i :: 0 <= i < |vs| ==> r[i] == C.Accepted(vs[i].st.nonce, vs[i].st.ts, vs[i].now)
  {
    seq(|vs|, i requires 0 <= i < |vs| => C.Accepted(vs[i].st.nonce, vs[i].st.ts, vs[i].now))
  }

  function Relays(vs: seq<Verified>): (r: seq<C.Accepted>)
    requires forall i :: 0 <= i < |vs| ==> vs[i].st.Relay?
    ensures |r| == |vs|
    ensures forall i :: 0 <= i < |vs| ==> r[i] == C.Accepted(vs[i].sig, vs[i].st.ts, vs[i].now)
  {
    seq(|vs|, i requires 0 <= i < |vs| => C.Accepted(vs[i].sig, vs[i].st.ts, vs[i].now))
  }

  /** Everything verified so far under `log`, and the cache it left behind. */
  ghost predicate LoginsHeld(log: seq<Signed>, sha: Sha, vs: seq<Verified>, seen: seq<C.Mark>, window: nat, cap: nat)
    requires cap > 0
  {
    && (forall i :: 0 <= i < |vs| ==> vs[i].st.Login?) && AllChecked(log, sha, vs)
    && C.LoginRun(Logins(vs), window, cap)
    && seen == C.NonceCache(C.Marks(Logins(vs)), window, cap)
  }

  ghost predicate RelaysHeld(log: seq<Signed>, sha: Sha, vs: seq<Verified>, seen: seq<C.Mark>, window: nat, cap: nat)
    requires cap > 0
  {
    && (forall i :: 0 <= i < |vs| ==> vs[i].st.Relay?) && AllChecked(log, sha, vs)
    && C.RelayRun(Relays(vs), window, cap)
    && seen == C.RelayCache(C.Marks(Relays(vs)), window, cap)
  }

  lemma LoginsSnoc(vs: seq<Verified>, v: Verified)
    requires v.st.Login? && forall i :: 0 <= i < |vs| ==> vs[i].st.Login?
    ensures forall i :: 0 <= i < |vs + [v]| ==> (vs + [v])[i].st.Login?
    ensures Logins(vs + [v]) == Logins(vs) + [C.Accepted(v.st.nonce, v.st.ts, v.now)]
  {
  }

  lemma RelaysSnoc(vs: seq<Verified>, v: Verified)
    requires v.st.Relay? && forall i :: 0 <= i < |vs| ==> vs[i].st.Relay?
    ensures forall i :: 0 <= i < |vs + [v]| ==> (vs + [v])[i].st.Relay?
    ensures Relays(vs + [v]) == Relays(vs) + [C.Accepted(v.sig, v.st.ts, v.now)]
  {
  }

  ghost predicate AllChecked(log: seq<Signed>, sha: Sha, vs: seq<Verified>) {
    forall i :: 0 <= i < |vs| ==> Checked(log, sha, vs[i])
  }

  lemma CheckedSnoc(log: seq<Signed>, sha: Sha, vs: seq<Verified>, v: Verified)
    requires AllChecked(log, sha, vs) && Checked(log, sha, v)
    ensures AllChecked(log, sha, vs + [v])
  {
  }

  lemma LoginNoted(log: seq<Signed>, sha: Sha, vs: seq<Verified>, seen: seq<C.Mark>, window: nat, cap: nat, v: Verified)
    requires cap > 0 && LoginsHeld(log, sha, vs, seen, window, cap)
    requires v.st.Login? && Checked(log, sha, v)
    requires C.Fresh(v.st.ts, v.now, window) && !C.Holds(seen, v.st.nonce)
    ensures LoginsHeld(log, sha, vs + [v], C.NoteNonce(seen, C.Mark(v.st.nonce, v.now), window, cap), window, cap)
  {
    CheckedSnoc(log, sha, vs, v);
    LoginsSnoc(vs, v);
    C.LoginRunSnoc(Logins(vs), C.Accepted(v.st.nonce, v.st.ts, v.now), window, cap);
  }

  lemma RelayNoted(log: seq<Signed>, sha: Sha, vs: seq<Verified>, seen: seq<C.Mark>, window: nat, cap: nat, v: Verified)
    requires cap > 0 && RelaysHeld(log, sha, vs, seen, window, cap)
    requires v.st.Relay? && Checked(log, sha, v)
    requires C.Fresh(v.st.ts, v.now, window) && !C.Holds(seen, v.sig)
    ensures RelaysHeld(log, sha, vs + [v], C.NoteRelay(seen, C.Mark(v.sig, v.now), window, cap), window, cap)
  {
    CheckedSnoc(log, sha, vs, v);
    RelaysSnoc(vs, v);
    C.RelayRunSnoc(Relays(vs), C.Accepted(v.sig, v.st.ts, v.now), window, cap);
  }

  /** More signing changes nothing that was verified. */
  lemma StillHeld(log: seq<Signed>, more: seq<Signed>, sha: Sha, vs: seq<Verified>)
    requires AllChecked(log, sha, vs)
    ensures AllChecked(log + more, sha, vs)
  {
    forall i | 0 <= i < |vs|
      ensures Checked(log + more, sha, vs[i])
    {
      VerifiesStill(log, more, sha, vs[i].key, T.Signable(vs[i].st, sha), vs[i].sig);
    }
  }

  // ---- the revocation list and its file -------------------------------------------------

  function PointsOf(es: seq<Revoked>): (r: seq<Octets>)
    ensures |r| == |es| && forall i :: 0 <= i < |es| ==> r[i] == es[i].point
  {
    Each(es, (e: Revoked) => e.point)
  }

  /** The file, parsed again, gives exactly these points in this order. */
  ghost predicate Mirrors(content: Option<Octets>, points: seq<Octets>) {
    content.Some? && Load(ParseRevoked, content.value).Some? && PointsOf(Load(ParseRevoked, content.value).value) == points
  }

  /** The reason recorded with a point that came in a signed list. */
  const REASON := Ascii("distributed")

  lemma MirrorsAppended(text: Octets, points: seq<Octets>, e: Revoked, fp: Octets)
    requires Mirrors(Some(text), points)
    requires |e.point| == POINT_LEN && IsI64(e.at) && |fp| <= 40 && OneLine(fp)
    ensures Mirrors(Some(Appended(text, RevokedLine(e, fp, REASON))), points + [e.point])
  {
    ShortReasonFits(e, fp, REASON);
    RevokedAppendThenLoad(text, e, fp, REASON);
    var es := Load(ParseRevoked, text).value;
    assert PointsOf(es + [e]) == PointsOf(es) + [e.point];
  }

  lemma MirroredPoints(text: Octets, points: seq<Octets>)
    requires Mirrors(Some(text), points)
    ensures R.AllPoints(points)
  {
    LoadedPoints(Lines(text));
  }

  /** A text and its terminator in the caller's buffer. */
  method StoreText(p: array<int>, text: Wide)
    requires |text| < p.Length
    modifies p
    ensures p[..|text|] == text && p[|text|] == 0
  {
    CopyInto(p, 0, text);
    assert p[..|text|] == text;
    p[|text|] := 0;
  }

  class AuthPolicy {
    const w: Width
    const isPoint: Octets -> bool
    const fingerprint: Octets -> Octets
    const sealOpen: Opener
    const log: SignLog
    /** The bounds on the caches and on the readers of one body, and the two
        freshness windows. */
    const cap: nat
    const maxReaders: nat
    const window: nat
    const sealWindow: nat

    /** The signing key, by its public point, and the public agreement point. */
    var identity: Option<Octets>
    var agreement: Option<Octets>
    var allow: seq<Allow>
    var sealReaders: seq<Wide>

    var seen: seq<C.Mark>
    var seenRel: seq<C.Mark>
    var seenSeal: seq<C.Mark>
    var sealNext: nat
    var sealFloor: int
    var relayReplay: bool
    var sealReplay: bool

    var revoked: seq<Octets>
    var revokeFile: F.TextFile?
    var revokeConfigured: bool
    var revokeUsable: bool
    var authority: Option<Octets>
    var revEpoch: int
    var revApplied: int
    var revMaxStale: int

    ghost var logins: seq<Verified>
    ghost var relays: seq<Verified>
    ghost var openings: seq<S.Opening>

    /** The logins accepted so far are genuine, and the nonce cache is what they left. */
    ghost predicate LoginHistory()
      reads this, log
    {
      cap > 0 && IsSha(log.sha) && LoginsHeld(log.signed, log.sha, logins, seen, window, cap)
    }

    /** The same of the noted relay blocks. */
    ghost predicate RelayHistory()
      reads this, log
    {
      cap > 0 && IsSha(log.sha) && RelaysHeld(log.signed, log.sha, relays, seenRel, window, cap)
    }

    ghost predicate Valid()
      reads this, log
    {
      && cap > 0 && log.Valid() && R.AllPoints(revoked) && (identity.Some? ==> |identity.value| == POINT_LEN)
      && (forall p :: |fingerprint(p)| <= 40 && OneLine(fingerprint(p))) && Lawful(sealOpen)
      && |sealReaders| < maxReaders
      && LoginHistory() && RelayHistory()
      && S.Ring(seenSeal, sealNext, sealFloor) == S.RunRing(openings, sealWindow, cap)
    }

    constructor (w: Width, log: SignLog, isPoint: Octets -> bool, fingerprint: Octets -> Octets,
                 sealOpen: Opener, cap: nat, maxReaders: nat, window: nat, sealWindow: nat)
      requires cap > 0 && maxReaders > 0 && log.Valid() && Lawful(sealOpen)
      requires forall p :: |fingerprint(p)| <= 40 && OneLine(fingerprint(p))
      ensures Valid() && logins == [] && relays == [] && openings == [] && revoked == [] && revEpoch == 0
    {
      this.w, this.log, this.isPoint, this.fingerprint, this.sealOpen := w, log, isPoint, fingerprint, sealOpen;
      this.cap, this.maxReaders, this.window, this.sealWindow := cap, maxReaders, window, sealWindow;
      identity, agreement, allow, sealReaders := None, None, [], [];
      seen, seenRel, seenSeal, sealNext, sealFloor := [], [], [], 0, 0;
      relayReplay, sealReplay := true, true;
      revoked, revokeFile, revokeConfigured, revokeUsable := [], null, false, true;
      authority, revEpoch, revApplied, revMaxStale := None, 0, 0, 0;
      logins, relays, openings := [], [], [];
    }

    // ---- revocation state ------------------------------------------------------------

    /** Older than the operator allows is as good as unreadable, for a hub that
        expects to be fed. */
    predicate RevFresh(now: int)
      reads this
    {
      revMaxStale <= 0 || authority.None? ||
      (revApplied != 0 && (now < revApplied || now - revApplied <= revMaxStale))
    }

    function View(now: int): RevView
      reads this
    {
      RevView(revokeConfigured, revokeUsable && RevFresh(now), revoked)
    }

    method IsRevokedPointRaw(point: Octets) returns (r: bool)
      ensures r <==> point in revoked
    {
      for i := 0 to |revoked|
        invariant point !in revoked[..i]
      {
        if revoked[i] == point {
          return true;
        }
      }
      assert revoked[..|revoked|] == revoked;
      return false;
    }

    method IsRevokedPoint(point: Octets, now: int) returns (r: bool)
      ensures r == IsRevoked(View(now), point)
    {
      if !revokeConfigured {
        return false;
      }
      if !revokeUsable || !RevFresh(now) {
        return true;
      }
      r := IsRevokedPointRaw(point);
    }

    // ---- what the operator names ----------------------------------------------------------

    /** A key that did not load, or is revoked already, leaves the one in use. */
    method SetIdentity(loaded: IdResult, selfPub: Octets, now: int) returns (r: IdResult)
      requires Valid() && |selfPub| == POINT_LEN
      modifies this`identity
      ensures Valid()
      ensures r == if loaded.IdOk? && IsRevoked(View(now), selfPub) then IdErrRevoked else loaded
      ensures identity == if r.IdOk? then Some(selfPub) else old(identity)
    {
      hide LoginsHeld, RelaysHeld, S.RunRing, Lawful;
      if !loaded.IdOk? {
        return loaded;
      }
      var gone := IsRevokedPoint(selfPub, now);
      if gone {
        return IdErrRevoked;
      }
      identity := Some(selfPub);
      return IdOk;
    }

    method SetAgreement(loaded: IdResult, selfPub: Octets, now: int) returns (r: IdResult)
      requires Valid()
      modifies this`agreement
      ensures Valid()
      ensures r == if loaded.IdOk? && IsRevoked(View(now), selfPub) then IdErrRevoked else loaded
      ensures agreement == if r.IdOk? then Some(selfPub) else old(agreement)
    {
      hide LoginsHeld, RelaysHeld, S.RunRing, Lawful;
      if !loaded.IdOk? {
        return loaded;
      }
      var gone := IsRevokedPoint(selfPub, now);
      if gone {
        return IdErrRevoked;
      }
      agreement := Some(selfPub);
      return IdOk;
    }

    /** Swapped in whole, or not at all: a bad edit leaves the list already in use. */
    method ReloadAllowList(file: F.TextFile) returns (r: IdResult)
      requires Valid()
      modifies this`allow
      ensures Valid()
      ensures r.IdOk? ==> file.content.Some? && Load(ParseAllow, file.content.value) == Some(allow)
      ensures !r.IdOk? ==> allow == old(allow)
      ensures file.content.Some? && Load(ParseAllow, file.content.value).None? ==> !r.IdOk?
    {
      hide LoginsHeld, RelaysHeld, S.RunRing, Lawful, Load;
      var es;
      r, es := file.LoadEntries(ParseAllow);
      if r.IdOk? {
        allow := es;
      }
    }

    // ---- the keys of an address ---------------------------------------------------------

    /** Every key listed for an address is counted, and those still live. */
    method PeerKeyCount(pAddr: Wide, now: int) returns (nLive: nat, allRevoked: bool)
      ensures match Utf8Of(pAddr, w)
              case None => nLive == 0 && !allRevoked
              case Some(id) =>
                nLive == |Live(allow, id, View(now))|
                && (allRevoked <==> Listed(allow, id) != [] && Live(allow, id, View(now)) == [])
    {
      var ok, id := Utf8FromWide(pAddr, w);
      if !ok {
        return 0, false;
      }
      var nListed := 0;
      nLive := 0;
      for i := 0 to |allow|
        invariant nListed == |Listed(allow[..i], id)| && nLive == |Live(allow[..i], id, View(now))|
      {
        assert allow[..i + 1][..i] == allow[..i];
        if allow[i].identity == id {
          nListed := nListed + 1;
          var gone := IsRevokedPoint(allow[i].pub, now);
          if !gone {
            nLive := nLive + 1;
          }
        }
      }
      assert allow[..|allow|] == allow;
      allRevoked := nListed > 0 && nLive == 0;
    }

    /** The `n`-th live key of an address, revoked ones not counted. */
    method PeerKeyAt(pAddr: Wide, n: nat, now: int) returns (pub: Option<Octets>)
      ensures pub == match Utf8Of(pAddr, w)
                     case None => None
                     case Some(id) =>
                       var keys := Live(allow, id, View(now));
                       if n < |keys| then Some(keys[n]) else None
    {
      var ok, id := Utf8FromWide(pAddr, w);
      if !ok {
        return None;
      }
      var count := 0;
      for i := 0 to |allow|
        invariant count == |Live(allow[..i], id, View(now))| && count <= n
      {
        assert allow[..i + 1][..i] == allow[..i];
        if allow[i].identity == id {
          var gone := IsRevokedPoint(allow[i].pub, now);
          if !gone {
            if count == n {
              LivePrefix(allow, id, View(now), i + 1);
              return Some(allow[i].pub);
            }
            count := count + 1;
          }
        }
      }
      assert allow[..|allow|] == allow;
      return None;
    }

    /** Every live key of the address is tried, in order. */
    method VerifyAgainstPeer(pAddr: Wide, msg: Octets, sig: Octets, now: int) returns (r: AuthResult)
      ensures r == match Utf8Of(pAddr, w)
                   case None => AuthErrUnknownPeer
                   case Some(id) => PeerResult(allow, id, View(now), isPoint, log.signed, log.sha, msg, sig)
    {
      var nLive, allRevoked := PeerKeyCount(pAddr, now);
      if allRevoked {
        return AuthErrRevoked;
      }
      if nLive == 0 {
        if Utf8Of(pAddr, w).Some? {
          LiveIs(allow, Utf8Of(pAddr, w).value, View(now));
        }
        return AuthErrUnknownPeer;
      }
      ghost var id := Utf8Of(pAddr, w).value;
      ghost var keys := Live(allow, id, View(now));
      assert Listed(allow, id) != [] by {
        LiveIs(allow, id, View(now));
        assert keys[0] in keys;
      }
      assert keys[0..] == keys;
      for i := 0 to nLive
        invariant Try(keys, isPoint, log.signed, log.sha, msg, sig)
               == Try(keys[i..], isPoint, log.signed, log.sha, msg, sig)
      {
        var pub := PeerKeyAt(pAddr, i, now);
        assert keys[i..][1..] == keys[i + 1..];
        if !isPoint(pub.value) {
          return AuthErrInternal;
        }
        if Verifies(log.signed, log.sha, pub.value, msg, sig) {
          return AuthOk;
        }
      }
      return AuthErrSignature;
    }

    // ---- login --------------------------------------------------------------------------

    /** The statement a login block makes for these addresses and this binding. */
    function LoginIn(pSrc: Wide, pDst: Wide, b: Octets, bind: Option<Octets>): (st: T.Statement)
      requires |b| >= B.LOGIN_LEN && Scalars(pSrc, w).Some? && Scalars(pDst, w).Some?
      ensures st.Login? && st.nonce == B.NonceIn(b) && st.ts == B.TsIn(b) && st.bind == bind
    {
      T.Login(Scalars(pSrc, w).value, Scalars(pDst, w).value, B.NonceIn(b), B.TsIn(b), bind)
    }

    /** What verifying a login block comes to, check by check. */
    function LoginVerdict(pSrc: Wide, pDst: Wide, b: Octets, bind: Option<Octets>, now: int): AuthResult
      reads this, log
    {
      if |b| < B.LOGIN_LEN then AuthErrFormat
      else if !B.HeaderOf(b).AuthOk? then B.HeaderOf(b)
      else if Utf8Of(pSrc, w).None? || Listed(allow, Utf8Of(pSrc, w).value) == [] then AuthErrUnknownPeer
      else if Live(allow, Utf8Of(pSrc, w).value, View(now)) == [] then AuthErrRevoked
      else if !C.Fresh(B.TsIn(b), now, window) then AuthErrSkew
      else if C.Holds(seen, B.NonceIn(b)) then AuthErrReplay
      else if Scalars(pDst, w).None? then AuthErrInternal
      else
        PeerResult(allow, Utf8Of(pSrc, w).value, View(now), isPoint, log.signed, log.sha,
                   T.Signable(LoginIn(pSrc, pDst, b, bind), log.sha), B.SigIn(b))
    }

    method NoteNonce(nonce: Octets, now: int)
      requires cap > 0
      modifies this`seen
      ensures seen == C.NoteNonce(old(seen), C.Mark(nonce, now), window, cap)
    {
      if window > 0 {
        seen := C.TrimByAge(seen, now, 2 * window);
      } else {
        ghost var was := seen;
        while |seen| >= cap
          invariant |seen| <= |was| && seen == was[|was| - |seen|..]
          invariant seen == was || |seen| >= cap - 1
          decreases |seen|
        {
          seen := seen[1..];
        }
      }
      seen := seen + [C.Mark(nonce, now)];
    }

    /** Sign a login: the block and the log entry, or neither. */
    method BuildLogin(pSrc: Wide, pDst: Wide, pOut: array<byte>, bind: Option<Octets>, now: int)
      returns (r: AuthResult, nonce: Octets)
      requires Valid() && IsI64(now) && T.BindOk(bind)
      modifies log, pOut
      ensures Valid()
      ensures r.AuthErrArgs? <==> pOut.Length < B.LOGIN_LEN
      ensures r.AuthErrNoIdentity? <==> pOut.Length >= B.LOGIN_LEN && identity.None?
      ensures r.AuthOk? || r.AuthErrArgs? || r.AuthErrNoIdentity? || r.AuthErrInternal?
      ensures !r.AuthOk? ==> log.signed == old(log.signed)
      ensures r.AuthOk? ==>
                && identity.Some? && |nonce| == NONCE_LEN && Scalars(pSrc, w).Some? && Scalars(pDst, w).Some?
                && |log.signed| == |old(log.signed)| + 1
                && var s := log.signed[|old(log.signed)|];
                   && log.signed == old(log.signed) + [s] && s.key == identity.value
                   && s.statement == T.Login(Scalars(pSrc, w).value, Scalars(pDst, w).value, nonce, now, bind)
                   && pOut[..B.LOGIN_LEN] == B.LoginBlock(nonce, now, s.sig)
    {
      nonce := *;
      if pOut.Length < B.LOGIN_LEN {
        return AuthErrArgs, nonce;
      }
      if identity.None? {
        return AuthErrNoIdentity, nonce;
      }
      if |nonce| != NONCE_LEN {
        return AuthErrInternal, nonce;
      }
      var ok, tr := T.Transcript(T.LABEL_LOGIN, pSrc, pDst, w, nonce, Some(now), bind);
      if !ok {
        return AuthErrInternal, nonce;
      }
      var st := T.Login(Scalars(pSrc, w).value, Scalars(pDst, w).value, nonce, now, bind);
      assert tr == T.Signable(st, log.sha);
      var sig;
      ok, sig := Sign(st);
      if !ok {
        return AuthErrInternal, nonce;
      }
      B.WriteLogin(pOut, nonce, now, sig);
      r := AuthOk;
    }

    /** The identity key signs; what was verified before stays verified. */
    method Sign(st: T.Statement) returns (ok: bool, sig: Octets)
      requires Valid() && identity.Some?
      modifies log
      ensures Valid()
      ensures log.signed == if ok then old(log.signed) + [Signed(identity.value, st, sig)] else old(log.signed)
      ensures ok ==> |sig| == SIG_LEN
    {
      ghost var before := log.signed;
      ok, sig := log.Sign(identity.value, st);
      if ok {
        StillHeld(before, [Signed(identity.value, st, sig)], log.sha, logins);
        StillHeld(before, [Signed(identity.value, st, sig)], log.sha, relays);
      }
    }

    /** The checks on a login block, in their order. */
    method CheckLogin(pSrc: Wide, pDst: Wide, pIn: Octets, bind: Option<Octets>, now: int)
      returns (r: AuthResult, skew: int)
      ensures r == LoginVerdict(pSrc, pDst, pIn, bind, now)
      ensures r.AuthOk? ==> skew == now - B.TsIn(pIn)
    {
      skew := 0;
      if |pIn| < B.LOGIN_LEN {
        return AuthErrFormat, skew;
      }
      if !B.HeaderOf(pIn).AuthOk? {
        return B.HeaderOf(pIn), skew;
      }
      var nLive, allRevoked := PeerKeyCount(pSrc, now);
      ListedUnlessLive(pSrc, now);
      if allRevoked {
        return AuthErrRevoked, skew;
      }
      if nLive == 0 {
        return AuthErrUnknownPeer, skew;
      }
      var ts := GetI64(pIn, B.OFF_TS);
      skew := now - ts;
      var inTime := Within(skew);
      if !inTime {
        return AuthErrSkew, skew;
      }
      var replayed := C.Seen(seen, B.NonceIn(pIn));
      if replayed {
        return AuthErrReplay, skew;
      }
      var ok, tr := T.Transcript(T.LABEL_LOGIN, pSrc, pDst, w, B.NonceIn(pIn), Some(ts), bind);
      if !ok {
        return AuthErrInternal, skew;
      }
      assert tr == T.Signable(LoginIn(pSrc, pDst, pIn, bind), log.sha);
      r := VerifyAgainstPeer(pSrc, tr, B.SigIn(pIn), now);
    }

    /** The freshness test on a skew; no window means no test. */
    method Within(skew: int) returns (inTime: bool)
      ensures forall stamp, now :: skew == now - stamp ==> (inTime <==> C.Fresh(stamp, now, window))
    {
      if window > 0 {
        var abs := if skew < 0 then -skew else skew;
        return abs <= window;
      }
      return true;
    }

    /** A login is accepted exactly as the verdict says; only then is its nonce
        noted, and what it stated is added to the history under the key that
        vouched for it. */
    method VerifyLogin(pSrc: Wide, pDst: Wide, pIn: Octets, bind: Option<Octets>, now: int)
      returns (r: AuthResult, nonce: Octets, skew: int)
      requires Valid() && T.BindOk(bind)
      modifies this`seen, this`logins
      ensures Valid()
      ensures r == old(LoginVerdict(pSrc, pDst, pIn, bind, now))
      ensures !r.AuthOk? ==> seen == old(seen) && logins == old(logins)
      ensures r.AuthOk? ==>
                && |pIn| >= B.LOGIN_LEN && Utf8Of(pSrc, w).Some? && Scalars(pDst, w).Some?
                && nonce == B.NonceIn(pIn) && skew == now - B.TsIn(pIn)
                && seen == C.NoteNonce(old(seen), C.Mark(nonce, now), window, cap)
                && |logins| == |old(logins)| + 1
                && var v := logins[|old(logins)|];
                   && logins == old(logins) + [v] && v.now == now && v.sig == B.SigIn(pIn)
                   && v.st == LoginIn(pSrc, pDst, pIn, bind)
                   && v.key in Listed(allow, Utf8Of(pSrc, w).value) && !IsRevoked(old(View(now)), v.key)
    {
      hide LoginsHeld, RelaysHeld, C.NoteNonce, S.RunRing, Lawful;
      nonce := [];
      r, skew := CheckLogin(pSrc, pDst, pIn, bind, now);
      if !r.AuthOk? {
        return;
      }
      ghost var v := AcceptedLogin(pSrc, pDst, pIn, bind, now);
      nonce := B.NonceIn(pIn);
      NoteLogin(nonce, now, v);
    }

    method NoteLogin(nonce: Octets, now: int, ghost v: Verified)
      requires Valid()
      requires LoginsHeld(log.signed, log.sha, logins + [v], C.NoteNonce(seen, C.Mark(nonce, now), window, cap), window, cap)
      modifies this`seen, this`logins
      ensures Valid() && logins == old(logins) + [v]
      ensures seen == C.NoteNonce(old(seen), C.Mark(nonce, now), window, cap)
    {
      hide LoginsHeld, RelaysHeld, C.NoteNonce, S.RunRing, Lawful;
      NoteNonce(nonce, now);
      logins := logins + [v];
    }

    /** What an accepted block adds to the history. */
    lemma AcceptedLogin(pSrc: Wide, pDst: Wide, b: Octets, bind: Option<Octets>, now: int) returns (v: Verified)
      requires LoginHistory() && LoginVerdict(pSrc, pDst, b, bind, now).AuthOk?
      ensures |b| >= B.LOGIN_LEN && Utf8Of(pSrc, w).Some? && Scalars(pDst, w).Some?
      ensures v.now == now && v.sig == B.SigIn(b) && v.st == LoginIn(pSrc, pDst, b, bind)
      ensures v.key in Listed(allow, Utf8Of(pSrc, w).value) && !IsRevoked(View(now), v.key)
      ensures LoginsHeld(log.signed, log.sha, logins + [v],
                         C.NoteNonce(seen, C.Mark(B.NonceIn(b), now), window, cap), window, cap)
    {
      var st := LoginIn(pSrc, pDst, b, bind);
      var k := WhoVouched(Utf8Of(pSrc, w).value, now, T.Signable(st, log.sha), B.SigIn(b));
      v := Verified(st, k, B.SigIn(b), now);
      LoginNoted(log.signed, log.sha, logins, seen, window, cap, v);
    }

    lemma WhoVouched(id: Octets, now: int, msg: Octets, sig: Octets) returns (k: Octets)
      requires PeerResult(allow, id, View(now), isPoint, log.signed, log.sha, msg, sig).AuthOk?
      ensures k in Listed(allow, id) && !IsRevoked(View(now), k) && Verifies(log.signed, log.sha, k, msg, sig)
    {
      AuthOkExactly(allow, id, View(now), isPoint, log.signed, log.sha, msg, sig);
      k :| k in Listed(allow, id) && !IsRevoked(View(now), k) && Verifies(log.signed, log.sha, k, msg, sig);
    }

    lemma ListedUnlessLive(pAddr: Wide, now: int)
      ensures Utf8Of(pAddr, w).Some? && Live(allow, Utf8Of(pAddr, w).value, View(now)) != [] ==>
                Listed(allow, Utf8Of(pAddr, w).value) != []
    {
      if Utf8Of(pAddr, w).Some? && Live(allow, Utf8Of(pAddr, w).value, View(now)) != [] {
        LiveIs(allow, Utf8Of(pAddr, w).value, View(now));
        assert Live(allow, Utf8Of(pAddr, w).value, View(now))[0] in Live(allow, Utf8Of(pAddr, w).value, View(now));
      }
    }

    /** Every login ever accepted here was signed, field for field, by the holder of
        the key it was accepted under, and signed as a login. */
    lemma LoginAgreement(n: nat) returns (i: nat)
      requires LoginHistory() && n < |logins| && T.WellFormed(logins[n].st) && AllWellFormed(log.signed)
      ensures i < |log.signed|
      ensures log.signed[i] == Signed(logins[n].key, logins[n].st, logins[n].sig)
    {
      i := VerifiedWasSigned(log.signed, log.sha, logins[n]);
    }

    /** No nonce was signed into two logins with different stamps. */
    ghost predicate NoncesUnique()
      reads log
    {
      forall i, j :: 0 <= i < |log.signed| && 0 <= j < |log.signed|
                     && log.signed[i].statement.Login? && log.signed[j].statement.Login?
                     && log.signed[i].statement.nonce == log.signed[j].statement.nonce ==>
                       log.signed[i].statement.ts == log.signed[j].statement.ts
    }

    /** Under a window and a clock that never goes back, one nonce is accepted twice only
        if two logins were signed under it, the second with a strictly later stamp. */
    lemma NonceTwiceIsTwoSignings(m: nat, n: nat) returns (i: nat, j: nat)
      requires LoginHistory() && window > 0 && C.Forward(Logins(logins)) && AllWellFormed(log.signed)
      requires m < n < |logins| && logins[m].st.nonce == logins[n].st.nonce
      requires T.WellFormed(logins[m].st) && T.WellFormed(logins[n].st)
      ensures i < |log.signed| && log.signed[i] == Signed(logins[m].key, logins[m].st, logins[m].sig)
      ensures j < |log.signed| && log.signed[j] == Signed(logins[n].key, logins[n].st, logins[n].sig)
      ensures i != j && logins[m].st.ts < logins[n].st.ts
    {
      i := LoginAgreement(m);
      j := LoginAgreement(n);
      C.NonceTwiceIsTwoStamps(Logins(logins), window, cap, m, n);
    }

    /** Exactly which nonces are refused: those accepted within two windows of the last
        login accepted, whatever the clock reads now. */
    lemma NonceRefusedExactly(nonce: Octets)
      requires LoginHistory() && window > 0 && C.Forward(Logins(logins)) && logins != []
      ensures C.Holds(seen, nonce) <==>
              exists m :: 0 <= m < |logins| && logins[m].st.nonce == nonce
                          && logins[|logins| - 1].now - logins[m].now <= 2 * window
    {
      var run := Logins(logins);
      assert seen == C.NonceCache(C.Marks(run), window, cap);
      hide LoginsHeld, C.NonceCache, C.Holds, C.Forward, C.Marks;
      C.NonceRefusedIn(run, window, cap, nonce);
      if m :| 0 <= m < |run| && run[m].key == nonce && run[|run| - 1].now - run[m].now <= 2 * window {
        assert logins[m].st.nonce == nonce;
      }
      if m :| 0 <= m < |logins| && logins[m].st.nonce == nonce && logins[|logins| - 1].now - logins[m].now <= 2 * window {
        assert run[m].key == nonce;
      }
    }

    /** So while no two logins are signed under one nonce with two stamps, no nonce is
        ever accepted twice. */
    lemma NoNonceAcceptedTwice()
      requires LoginHistory() && window > 0 && C.Forward(Logins(logins)) && NoncesUnique() && AllWellFormed(log.signed)
      requires forall n :: 0 <= n < |logins| ==> T.WellFormed(logins[n].st)
      ensures forall m, n :: 0 <= m < n < |logins| ==> logins[m].st.nonce != logins[n].st.nonce
    {
      forall m, n | 0 <= m < n < |logins|
        ensures logins[m].st.nonce != logins[n].st.nonce
      {
        if logins[m].st.nonce == logins[n].st.nonce {
          var i, j := NonceTwiceIsTwoSignings(m, n);
        }
      }
    }

    /** Without a window a nonce comes back only after `cap` others have been accepted. */
    lemma NonceReplayNeedsCapOthers(m: nat, n: nat)
      requires LoginHistory() && window == 0 && m < n < |logins| && logins[m].st.nonce == logins[n].st.nonce
      ensures n - m - 1 >= cap
    {
      hide RelaysHeld, S.RunRing, Lawful;
      C.NonceReturnsAfterCap(Logins(logins), cap, m, n);
    }

    /** While a configured list is unusable or stale, no login is accepted. */
    lemma NoLoginWhileClosed(pSrc: Wide, pDst: Wide, b: Octets, bind: Option<Octets>, now: int)
      requires FailsClosed(View(now))
      ensures !LoginVerdict(pSrc, pDst, b, bind, now).AuthOk?
    {
      if Utf8Of(pSrc, w).Some? {
        NothingWhileClosed(allow, Utf8Of(pSrc, w).value, View(now), isPoint, log.signed, log.sha, [], []);
      }
    }

    // ---- ack ----------------------------------------------------------------------------

    /** What verifying an ack comes to: no stamp and no cache, because the nonce is
        one this connection just made. */
    function AckVerdict(pSrc: Wide, pDst: Wide, nonce: Octets, b: Octets, bind: Option<Octets>, now: int): AuthResult
      reads this, log
    {
      if |b| < B.ACK_LEN then AuthErrFormat
      else if !B.HeaderOf(b).AuthOk? then B.HeaderOf(b)
      else if Scalars(pSrc, w).None? || Scalars(pDst, w).None? then AuthErrInternal
      else
        PeerResult(allow, Utf8Of(pSrc, w).value, View(now), isPoint, log.signed, log.sha,
                   T.Signable(T.Ack(Scalars(pSrc, w).value, Scalars(pDst, w).value, nonce, bind), log.sha), B.AckSigIn(b))
    }

    method BuildAck(pSrc: Wide, pDst: Wide, nonce: Octets, pOut: array<byte>, bind: Option<Octets>)
      returns (r: AuthResult)
      requires Valid() && |nonce| == NONCE_LEN && T.BindOk(bind)
      modifies log, pOut
      ensures Valid()
      ensures r.AuthErrArgs? <==> pOut.Length < B.ACK_LEN
      ensures r.AuthErrNoIdentity? <==> pOut.Length >= B.ACK_LEN && identity.None?
      ensures r.AuthOk? || r.AuthErrArgs? || r.AuthErrNoIdentity? || r.AuthErrInternal?
      ensures !r.AuthOk? ==> log.signed == old(log.signed)
      ensures r.AuthOk? ==>
                && identity.Some? && Scalars(pSrc, w).Some? && Scalars(pDst, w).Some? && pOut.Length >= B.ACK_LEN
                && |log.signed| == |old(log.signed)| + 1
                && var s := log.signed[|old(log.signed)|];
                   && log.signed == old(log.signed) + [s] && s.key == identity.value
                   && s.statement == T.Ack(Scalars(pSrc, w).value, Scalars(pDst, w).value, nonce, bind)
                   && pOut[..B.ACK_LEN] == B.AckBlock(s.sig)
    {
      hide LoginsHeld, RelaysHeld, S.RunRing, Lawful;
      if pOut.Length < B.ACK_LEN {
        return AuthErrArgs;
      }
      if identity.None? {
        return AuthErrNoIdentity;
      }
      var ok, tr := T.Transcript(T.LABEL_ACK, pSrc, pDst, w, nonce, None, bind);
      if !ok {
        return AuthErrInternal;
      }
      var st := T.Ack(Scalars(pSrc, w).value, Scalars(pDst, w).value, nonce, bind);
      assert tr == T.Signable(st, log.sha);
      var sig;
      ok, sig := Sign(st);
      if !ok {
        return AuthErrInternal;
      }
      B.WriteAck(pOut, sig);
      r := AuthOk;
    }

    method VerifyAck(pSrc: Wide, pDst: Wide, nonce: Octets, pIn: Octets, bind: Option<Octets>, now: int)
      returns (r: AuthResult)
      ensures r == AckVerdict(pSrc, pDst, nonce, pIn, bind, now)
    {
      if |pIn| < B.ACK_LEN {
        return AuthErrFormat;
      }
      if !B.HeaderOf(pIn).AuthOk? {
        return B.HeaderOf(pIn);
      }
      var ok, tr := T.Transcript(T.LABEL_ACK, pSrc, pDst, w, nonce, None, bind);
      if !ok {
        return AuthErrInternal;
      }
      assert tr == T.Signable(T.Ack(Scalars(pSrc, w).value, Scalars(pDst, w).value, nonce, bind), log.sha);
      r := VerifyAgainstPeer(pSrc, tr, B.AckSigIn(pIn), now);
    }

    /** An accepted ack was signed as an ack of exactly this nonce between exactly
        these addresses, by a listed key that is not revoked. */
    lemma AckAgreement(pSrc: Wide, pDst: Wide, nonce: Octets, b: Octets, bind: Option<Octets>, now: int) returns (i: nat)
      requires IsSha(log.sha) && AllWellFormed(log.signed) && AckVerdict(pSrc, pDst, nonce, b, bind, now).AuthOk?
      requires Scalars(pSrc, w).Some? && Scalars(pDst, w).Some?
      requires T.WellFormed(T.Ack(Scalars(pSrc, w).value, Scalars(pDst, w).value, nonce, bind))
      ensures i < |log.signed| && log.signed[i].sig == B.AckSigIn(b)
      ensures log.signed[i].statement == T.Ack(Scalars(pSrc, w).value, Scalars(pDst, w).value, nonce, bind)
      ensures log.signed[i].key in Listed(allow, Utf8Of(pSrc, w).value) && !IsRevoked(View(now), log.signed[i].key)
    {
      var st := T.Ack(Scalars(pSrc, w).value, Scalars(pDst, w).value, nonce, bind);
      var k := WhoVouched(Utf8Of(pSrc, w).value, now, T.Signable(st, log.sha), B.AckSigIn(b));
      i := VerifiedWasSigned(log.signed, log.sha, Verified(st, k, B.AckSigIn(b), now));
    }

    // ---- relay --------------------------------------------------------------------------

    function RelayIn(attester: T.Address, pSrc: Wide, pDst: Wide, pMsg: Wide, body: Octets, ts: int): (st: T.Statement)
      requires Scalars(pSrc, w).Some? && Scalars(pDst, w).Some? && Scalars(pMsg, w).Some?
      ensures st.Relay? && st.ts == ts && st.attester == attester && st.body == body
    {
      T.Relay(attester, Scalars(pSrc, w).value, Scalars(pDst, w).value, Scalars(pMsg, w).value, ts, body)
    }

    /** A relay block up to and including its signature. */
    function RelaySigned(pSrc: Wide, pDst: Wide, pMsg: Wide, body: Octets, b: Octets, now: int): AuthResult
      reads this, log
    {
      if !B.RelayShape(b).AuthOk? then B.RelayShape(b)
      else if Decode(B.AttesterIn(b)).None? then AuthErrFormat
      else if Listed(allow, B.AttesterIn(b)) == [] then AuthErrUnknownPeer
      else if Live(allow, B.AttesterIn(b), View(now)) == [] then AuthErrRevoked
      else if !C.Fresh(B.RelayTsIn(b), now, window) then AuthErrSkew
      else if Scalars(pSrc, w).None? || Scalars(pDst, w).None? || Scalars(pMsg, w).None? then AuthErrInternal
      else
        PeerResult(allow, B.AttesterIn(b), View(now), isPoint, log.signed, log.sha,
                   T.Signable(RelayIn(Decode(B.AttesterIn(b)).value, pSrc, pDst, pMsg, body, B.RelayTsIn(b)), log.sha),
                   B.RelaySigIn(b))
    }

    /** What verifying a relay block comes to, with `room` units for the attester. */
    function RelayVerdict(pSrc: Wide, pDst: Wide, pMsg: Wide, body: Octets, b: Octets, now: int, room: nat): AuthResult
      reads this, log
    {
      var r := RelaySigned(pSrc, pDst, pMsg, body, b, now);
      if room == 0 then AuthErrArgs
      else if !r.AuthOk? then r
      else if relayReplay && C.Holds(seenRel, B.RelaySigIn(b)) then AuthErrReplay
      else if |Units(Decode(B.AttesterIn(b)).value, w)| + 1 > room then AuthErrArgs
      else AuthOk
    }

    predicate OwnKeyRevoked(now: int)
      reads this
    {
      (identity.Some? && IsRevoked(View(now), identity.value)) || (agreement.Some? && IsRevoked(View(now), agreement.value))
    }

    predicate AttesterFits(pAttester: Wide, room: nat)
      reads this
    {
      match Utf8Of(pAttester, w)
      case None => false
      case Some(a) => 1 <= |a| <= B.ATTESTER_MAX && B.RELAY_FIXED_LEN + |a| <= room
    }

    method SelfKeyRevoked(now: int) returns (r: bool)
      ensures r <==> revokeConfigured && revokeUsable && OwnKeyRevoked(now)
    {
      if !revokeConfigured || !revokeUsable {
        return false;
      }
      if identity.Some? {
        r := IsRevokedPoint(identity.value, now);
        if r {
          return;
        }
      }
      if agreement.Some? {
        r := IsRevokedPoint(agreement.value, now);
        return;
      }
      r := false;
    }

    /** The refusals before anything is signed, in their order. */
    method MayRelay(pAttester: Wide, room: nat, now: int) returns (r: AuthResult, sAtt: Octets)
      ensures r == if identity.None? then AuthErrNoIdentity
                   else if !AttesterFits(pAttester, room) then AuthErrArgs
                   else if OwnKeyRevoked(now) || !revokeUsable then AuthErrRevoked
                   else AuthOk
      ensures r.AuthOk? ==> Utf8Of(pAttester, w) == Some(sAtt)
    {
      sAtt := [];
      if identity.None? {
        return AuthErrNoIdentity, sAtt;
      }
      var ok;
      ok, sAtt := Utf8FromWide(pAttester, w);
      if !ok || sAtt == [] || |sAtt| > B.ATTESTER_MAX {
        return AuthErrArgs, sAtt;
      }
      if room < B.RELAY_FIXED_LEN + |sAtt| {
        return AuthErrArgs, sAtt;
      }
      var gone := SelfKeyRevoked(now);
      if gone || !revokeUsable {
        return AuthErrRevoked, sAtt;
      }
      r := AuthOk;
    }

    method BuildRelay(pAttester: Wide, pSrc: Wide, pDst: Wide, pMsg: Wide, body: Octets, pOut: array<byte>, now: int)
      returns (r: AuthResult, cb: nat)
      requires Valid() && IsI64(now)
      modifies log, pOut
      ensures Valid()
      ensures r.AuthErrNoIdentity? <==> identity.None?
      ensures r.AuthErrArgs? <==> identity.Some? && !AttesterFits(pAttester, pOut.Length)
      ensures r.AuthErrRevoked? <==>
              identity.Some? && AttesterFits(pAttester, pOut.Length) && (OwnKeyRevoked(now) || !revokeUsable)
      ensures r.AuthOk? || r.AuthErrInternal? ==> revokeUsable && !OwnKeyRevoked(now)
      ensures !r.AuthOk? ==> log.signed == old(log.signed) && cb == 0
      ensures r.AuthOk? ==>
                && identity.Some? && Utf8Of(pAttester, w).Some? && 1 <= |Utf8Of(pAttester, w).value| <= B.ATTESTER_MAX
                && Scalars(pSrc, w).Some? && Scalars(pDst, w).Some? && Scalars(pMsg, w).Some?
                && cb == B.RELAY_FIXED_LEN + |Utf8Of(pAttester, w).value| <= pOut.Length
                && |log.signed| == |old(log.signed)| + 1
                && var s := log.signed[|old(log.signed)|];
                   && log.signed == old(log.signed) + [s] && s.key == identity.value
                   && s.statement == RelayIn(Scalars(pAttester, w).value, pSrc, pDst, pMsg, body, now)
                   && pOut[..cb] == B.RelayBlock(Utf8Of(pAttester, w).value, now, s.sig)
    {
      hide LoginsHeld, RelaysHeld, S.RunRing, Lawful, OwnKeyRevoked;
      cb := 0;
      var sAtt;
      r, sAtt := MayRelay(pAttester, pOut.Length, now);
      if !r.AuthOk? {
        return;
      }
      var ok;
      var tr;
      ok, tr := T.RelayTranscript(pAttester, pSrc, pDst, pMsg, w, body, now, log.sha);
      if !ok {
        return AuthErrInternal, cb;
      }
      var st := RelayIn(Scalars(pAttester, w).value, pSrc, pDst, pMsg, body, now);
      assert tr == T.Signable(st, log.sha);
      var sig;
      ok, sig := Sign(st);
      if !ok {
        return AuthErrInternal, cb;
      }
      B.WriteRelay(pOut, sAtt, now, sig);
      return AuthOk, B.RELAY_FIXED_LEN + |sAtt|;
    }

    /** The attester off the wire, decoded into a local of 256 units, which always
        has the room. */
    method DecodeAttester(b: Octets) returns (r: Option<Wide>)
      requires |b| <= B.ATTESTER_MAX
      ensures r == match Decode(b)
                   case None => None
                   case Some(cs) => Some(Units(cs, w))
    {
      var wsz := new int[B.ATTESTER_MAX + 1];
      var ok := WideFromUtf8(b, w, wsz);
      if Decode(b).Some? {
        EncodeDecode(b);
        UnitsFit(Decode(b).value, w);
      }
      if !ok {
        return None;
      }
      ghost var us := Units(Decode(b).value, w);
      assert forall k :: 0 <= k < |us| ==> wsz[k] == wsz[..|us|][k];
      var cch := 0;
      while wsz[cch] != 0
        invariant cch <= |us| && (wsz[cch] == 0 <==> cch == |us|)
        decreases |us| - cch
      {
        cch := cch + 1;
      }
      return Some(wsz[..cch]);
    }

    method CheckRelay(pSrc: Wide, pDst: Wide, pMsg: Wide, body: Octets, pIn: Octets, now: int)
      returns (r: AuthResult, att: Wide, skew: int)
      ensures r == RelaySigned(pSrc, pDst, pMsg, body, pIn, now)
      ensures r.AuthOk? ==> att == Units(Decode(B.AttesterIn(pIn)).value, w) && skew == now - B.RelayTsIn(pIn)
    {
      att, skew := [], 0;
      if !B.RelayShape(pIn).AuthOk? {
        return B.RelayShape(pIn), att, skew;
      }
      var got := DecodeAttester(B.AttesterIn(pIn));
      if got.None? {
        return AuthErrFormat, att, skew;
      }
      att := got.value;
      ghost var cs := Decode(B.AttesterIn(pIn)).value;
      assert Utf8Of(att, w) == Some(B.AttesterIn(pIn)) && Scalars(att, w) == Some(cs) by {
        ScalarsOfUnits(cs, w);
        EncodeDecode(B.AttesterIn(pIn));
      }
      var nLive, allRevoked := PeerKeyCount(att, now);
      ListedUnlessLive(att, now);
      if allRevoked {
        return AuthErrRevoked, att, skew;
      }
      if nLive == 0 {
        return AuthErrUnknownPeer, att, skew;
      }
      var ts := GetI64(pIn, B.OFF_RELAY_ADDR + B.AttesterLen(pIn));
      skew := now - ts;
      var inTime := Within(skew);
      if !inTime {
        return AuthErrSkew, att, skew;
      }
      var ok, tr := T.RelayTranscript(att, pSrc, pDst, pMsg, w, body, ts, log.sha);
      if !ok {
        return AuthErrInternal, att, skew;
      }
      r := VerifyAgainstPeer(att, tr, B.RelaySigIn(pIn), now);
    }

    method NoteRelaySig(sig: Octets, now: int)
      requires cap > 0
      modifies this`seenRel
      ensures seenRel == C.NoteRelay(old(seenRel), C.Mark(sig, now), window, cap)
    {
      if window > 0 {
        seenRel := C.TrimByAge(seenRel, now, 2 * window);
      }
      if |seenRel| >= cap {
        seenRel := seenRel[|seenRel| - cap + 1..];
      }
      seenRel := seenRel + [C.Mark(sig, now)];
    }

    method NoteRelay(sig: Octets, now: int, ghost v: Verified)
      requires Valid()
      requires RelaysHeld(log.signed, log.sha, relays + [v], C.NoteRelay(seenRel, C.Mark(sig, now), window, cap), window, cap)
      modifies this`seenRel, this`relays
      ensures Valid() && relays == old(relays) + [v]
      ensures seenRel == C.NoteRelay(old(seenRel), C.Mark(sig, now), window, cap)
    {
      hide LoginsHeld, RelaysHeld, C.NoteRelay, S.RunRing, Lawful;
      NoteRelaySig(sig, now);
      relays := relays + [v];
    }

    /** What a noted relay block adds to the history. */
    lemma AcceptedRelay(pSrc: Wide, pDst: Wide, pMsg: Wide, body: Octets, b: Octets, now: int) returns (v: Verified)
      requires RelayHistory() && RelaySigned(pSrc, pDst, pMsg, body, b, now).AuthOk?
      requires !C.Holds(seenRel, B.RelaySigIn(b))
      ensures Decode(B.AttesterIn(b)).Some? && Scalars(pSrc, w).Some? && Scalars(pDst, w).Some? && Scalars(pMsg, w).Some?
      ensures v.now == now && v.sig == B.RelaySigIn(b)
      ensures v.st == RelayIn(Decode(B.AttesterIn(b)).value, pSrc, pDst, pMsg, body, B.RelayTsIn(b))
      ensures v.key in Listed(allow, B.AttesterIn(b)) && !IsRevoked(View(now), v.key)
      ensures RelaysHeld(log.signed, log.sha, relays + [v],
                         C.NoteRelay(seenRel, C.Mark(B.RelaySigIn(b), now), window, cap), window, cap)
    {
      var st := RelayIn(Decode(B.AttesterIn(b)).value, pSrc, pDst, pMsg, body, B.RelayTsIn(b));
      var k := WhoVouched(B.AttesterIn(b), now, T.Signable(st, log.sha), B.RelaySigIn(b));
      v := Verified(st, k, B.RelaySigIn(b), now);
      RelayNoted(log.signed, log.sha, relays, seenRel, window, cap, v);
    }

    /** A relay block is accepted exactly as the verdict says. While refusal is on,
        a block whose signature verified and was not in the cache is noted, and no
        other is; the attester's name is handed out only on success. */
    method VerifyRelay(pSrc: Wide, pDst: Wide, pMsg: Wide, body: Octets, pIn: Octets, attOut: array<int>, now: int)
      returns (r: AuthResult, skew: int)
      requires Valid()
      modifies this`seenRel, this`relays, attOut
      ensures Valid()
      ensures r == old(RelayVerdict(pSrc, pDst, pMsg, body, pIn, now, attOut.Length))
      ensures r.AuthOk? ==>
                && B.RelayShape(pIn).AuthOk? && Decode(B.AttesterIn(pIn)).Some?
                && var us := Units(Decode(B.AttesterIn(pIn)).value, w);
                   |us| < attOut.Length && attOut[..|us|] == us && attOut[|us|] == 0
      ensures !r.AuthOk? && attOut.Length > 0 ==> attOut[0] == 0
      ensures if old(attOut.Length > 0 && relayReplay && RelaySigned(pSrc, pDst, pMsg, body, pIn, now).AuthOk?
                     && !C.Holds(seenRel, B.RelaySigIn(pIn)))
              then seenRel == C.NoteRelay(old(seenRel), C.Mark(B.RelaySigIn(pIn), now), window, cap)
                   && |relays| == |old(relays)| + 1
                   && Decode(B.AttesterIn(pIn)).Some?
                   && Scalars(pSrc, w).Some? && Scalars(pDst, w).Some? && Scalars(pMsg, w).Some?
                   && var v := relays[|old(relays)|];
                      && relays == old(relays) + [v] && v.sig == B.RelaySigIn(pIn) && v.now == now
                      && v.st == RelayIn(Decode(B.AttesterIn(pIn)).value, pSrc, pDst, pMsg, body, B.RelayTsIn(pIn))
                      && v.key in Listed(allow, B.AttesterIn(pIn)) && !IsRevoked(old(View(now)), v.key)
              else seenRel == old(seenRel) && relays == old(relays)
    {
      hide LoginsHeld, RelaysHeld, C.NoteRelay, S.RunRing, Lawful;
      skew := 0;
      if attOut.Length == 0 {
        return AuthErrArgs, skew;
      }
      attOut[0] := 0;
      var att;
      r, att, skew := CheckRelay(pSrc, pDst, pMsg, body, pIn, now);
      if !r.AuthOk? {
        return;
      }
      if relayReplay {
        var replayed := C.Seen(seenRel, B.RelaySigIn(pIn));
        if replayed {
          return AuthErrReplay, skew;
        }
        ghost var v := AcceptedRelay(pSrc, pDst, pMsg, body, pIn, now);
        NoteRelay(B.RelaySigIn(pIn), now, v);
      }
      if |att| + 1 > attOut.Length {
        return AuthErrArgs, skew;
      }
      StoreText(attOut, att);
    }

    /** Every relay block ever noted was signed, and as a relay statement, by the holder
        of the key it was accepted under; only by a collision of the hash can the body
        be another. */
    lemma RelayAgreement(n: nat) returns (i: nat)
      requires RelayHistory() && n < |relays| && T.WellFormed(relays[n].st) && AllWellFormed(log.signed)
      ensures i < |log.signed| && log.signed[i].key == relays[n].key && log.signed[i].sig == relays[n].sig
      ensures log.signed[i].statement == relays[n].st || HashCollision(log.signed[i].statement, relays[n].st)
    {
      i := VerifiedWasSigned(log.signed, log.sha, relays[n]);
    }

    /** A relay block noted here comes back only after `cap` others have been noted. */
    lemma RelayReplayNeedsCapOthers(i: nat, j: nat)
      requires RelayHistory() && DistinctSigs(log.signed) && i < j < |relays| && relays[i].sig == relays[j].sig
      requires window > 0 ==> C.Forward(Relays(relays))
      requires AllWellFormed(log.signed) && T.WellFormed(relays[i].st) && T.WellFormed(relays[j].st)
      ensures j - i - 1 >= cap
    {
      OneSignatureOneStamp(log.signed, log.sha, relays[i], relays[j]);
      C.RelayReturnsAfterCap(Relays(relays), window, cap, i, j);
    }

    /** The cache of relay signatures never outgrows its bound and stays in the order
        of noting, whatever the clock does. */
    lemma RelayCacheBounded() returns (f: seq<nat>)
      requires RelayHistory()
      ensures |seenRel| <= cap && C.Picks(seenRel, C.Marks(Relays(relays)), f)
    {
      hide LoginsHeld, S.RunRing, C.RelayCache, C.Picks;
      f := C.RelayCacheKeepsOrder(C.Marks(Relays(relays)), window, cap);
    }

    /** What one hub built another accepts, for every attester of 1 to 255 octets,
        whatever follows the block: listed and live, fresh, not seen, and with room
        for 256 units. */
    lemma BuiltRelayIsAccepted(attester: T.Address, pSrc: Wide, pDst: Wide, pMsg: Wide, body: Octets,
                               ts: int, key: Octets, sig: Octets, rest: Octets, now: int, room: nat)
      requires Scalars(pSrc, w).Some? && Scalars(pDst, w).Some? && Scalars(pMsg, w).Some?
      requires 1 <= |Encode(attester)| <= B.ATTESTER_MAX && IsI64(ts) && |sig| == SIG_LEN && room > B.ATTESTER_MAX
      requires Verifies(log.signed, log.sha, key,
                        T.Signable(RelayIn(attester, pSrc, pDst, pMsg, body, ts), log.sha), sig)
      requires key in Listed(allow, Encode(attester)) && !IsRevoked(View(now), key)
      requires forall k :: k in Listed(allow, Encode(attester)) ==> isPoint(k)
      requires C.Fresh(ts, now, window) && !(relayReplay && C.Holds(seenRel, sig))
      ensures var b := B.RelayBlock(Encode(attester), ts, sig) + rest;
              RelayVerdict(pSrc, pDst, pMsg, body, b, now, room).AuthOk?
              && B.RelayShape(b).AuthOk? && Decode(B.AttesterIn(b)) == Some(attester)
    {
      B.RelayRoundTrip(Encode(attester), ts, sig, rest);
      DecodeEncode(attester);
      UnitsFit(attester, w);
      PeerAccepts(Encode(attester), now, T.Signable(RelayIn(attester, pSrc, pDst, pMsg, body, ts), log.sha), key, sig);
    }

    lemma PeerAccepts(id: Octets, now: int, msg: Octets, key: Octets, sig: Octets)
      requires key in Listed(allow, id) && !IsRevoked(View(now), key) && Verifies(log.signed, log.sha, key, msg, sig)
      requires forall k :: k in Listed(allow, id) ==> isPoint(k)
      ensures Listed(allow, id) != [] && Live(allow, id, View(now)) != []
      ensures PeerResult(allow, id, View(now), isPoint, log.signed, log.sha, msg, sig).AuthOk?
    {
      LiveIs(allow, id, View(now));
      assert key in Live(allow, id, View(now));
      AuthOkExactly(allow, id, View(now), isPoint, log.signed, log.sha, msg, sig);
    }

    /** What one hub built as a login another accepts: the key listed and live, the
        stamp fresh and the nonce unseen. */
    lemma BuiltLoginIsAccepted(pSrc: Wide, pDst: Wide, nonce: Octets, ts: int, bind: Option<Octets>,
                               key: Octets, sig: Octets, rest: Octets, now: int)
      requires Scalars(pSrc, w).Some? && Scalars(pDst, w).Some?
      requires |nonce| == NONCE_LEN && IsI64(ts) && |sig| == SIG_LEN
      requires Verifies(log.signed, log.sha, key,
                        T.Signable(T.Login(Scalars(pSrc, w).value, Scalars(pDst, w).value, nonce, ts, bind), log.sha), sig)
      requires var id := Utf8Of(pSrc, w).value;
               && key in Listed(allow, id) && !IsRevoked(View(now), key)
               && forall k :: k in Listed(allow, id) ==> isPoint(k)
      requires C.Fresh(ts, now, window) && !C.Holds(seen, nonce)
      ensures LoginVerdict(pSrc, pDst, B.LoginBlock(nonce, ts, sig) + rest, bind, now).AuthOk?
    {
      B.LoginRoundTrip(nonce, ts, sig, rest);
      PeerAccepts(Utf8Of(pSrc, w).value, now,
        T.Signable(T.Login(Scalars(pSrc, w).value, Scalars(pDst, w).value, nonce, ts, bind), log.sha), key, sig);
    }

    /** Whatever the order of the checks, a login succeeds exactly when it is well formed,
        fresh and unseen, and some listed, unrevoked key vouches for it. */
    lemma LoginOkExactly(pSrc: Wide, pDst: Wide, b: Octets, bind: Option<Octets>, now: int)
      requires |b| >= B.LOGIN_LEN && Scalars(pSrc, w).Some? && Scalars(pDst, w).Some?
      requires forall k :: k in Listed(allow, Utf8Of(pSrc, w).value) ==> isPoint(k)
      ensures LoginVerdict(pSrc, pDst, b, bind, now).AuthOk? <==>
              && b[..2] == B.MAGIC && b[2] == B.VERSION
              && C.Fresh(B.TsIn(b), now, window) && !C.Holds(seen, B.NonceIn(b))
              && exists k :: k in Listed(allow, Utf8Of(pSrc, w).value) && !IsRevoked(View(now), k)
                             && Verifies(log.signed, log.sha, k, T.Signable(LoginIn(pSrc, pDst, b, bind), log.sha), B.SigIn(b))
    {
      VouchedExactly(Utf8Of(pSrc, w).value, now, T.Signable(LoginIn(pSrc, pDst, b, bind), log.sha), B.SigIn(b));
    }

    /** And a relay block so, replay and the room for the attester's name apart. */
    lemma RelayOkExactly(pSrc: Wide, pDst: Wide, pMsg: Wide, body: Octets, b: Octets, now: int)
      requires B.RelayShape(b).AuthOk? && Decode(B.AttesterIn(b)).Some?
      requires Scalars(pSrc, w).Some? && Scalars(pDst, w).Some? && Scalars(pMsg, w).Some?
      requires forall k :: k in Listed(allow, B.AttesterIn(b)) ==> isPoint(k)
      ensures var st := RelayIn(Decode(B.AttesterIn(b)).value, pSrc, pDst, pMsg, body, B.RelayTsIn(b));
              RelaySigned(pSrc, pDst, pMsg, body, b, now).AuthOk? <==>
              && C.Fresh(B.RelayTsIn(b), now, window)
              && exists k :: k in Listed(allow, B.AttesterIn(b)) && !IsRevoked(View(now), k)
                             && Verifies(log.signed, log.sha, k, T.Signable(st, log.sha), B.RelaySigIn(b))
    {
      var st := RelayIn(Decode(B.AttesterIn(b)).value, pSrc, pDst, pMsg, body, B.RelayTsIn(b));
      VouchedExactly(B.AttesterIn(b), now, T.Signable(st, log.sha), B.RelaySigIn(b));
    }

    lemma VouchedExactly(id: Octets, now: int, msg: Octets, sig: Octets)
      requires forall k :: k in Listed(allow, id) ==> isPoint(k)
      ensures PeerResult(allow, id, View(now), isPoint, log.signed, log.sha, msg, sig).AuthOk? <==>
              exists k :: k in Listed(allow, id) && !IsRevoked(View(now), k) && Verifies(log.signed, log.sha, k, msg, sig)
      ensures PeerResult(allow, id, View(now), isPoint, log.signed, log.sha, msg, sig).AuthOk? ==>
              Listed(allow, id) != [] && Live(allow, id, View(now)) != []
    {
      AuthOkExactly(allow, id, View(now), isPoint, log.signed, log.sha, msg, sig);
    }

    /** While a configured list is unusable or stale no ack and no relay block is
        accepted either. */
    lemma NoAckOrRelayWhileClosed(pSrc: Wide, pDst: Wide, pMsg: Wide, x: Octets, b: Octets, bind: Option<Octets>,
                                  now: int, room: nat)
      requires FailsClosed(View(now))
      ensures !AckVerdict(pSrc, pDst, x, b, bind, now).AuthOk?
      ensures !RelayVerdict(pSrc, pDst, pMsg, x, b, now, room).AuthOk?
    {
      if Scalars(pSrc, w).Some? && Scalars(pDst, w).Some? && |b| >= B.ACK_LEN {
        NothingWhileClosed(allow, Utf8Of(pSrc, w).value, View(now), isPoint, log.signed, log.sha,
          T.Signable(T.Ack(Scalars(pSrc, w).value, Scalars(pDst, w).value, x, bind), log.sha), B.AckSigIn(b));
      }
      if B.RelayShape(b).AuthOk? {
        NothingWhileClosed(allow, B.AttesterIn(b), View(now), isPoint, log.signed, log.sha, [], []);
      }
    }
    // ---- the revocation list ------------------------------------------------------------

    function RevNow(): R.RevState
      reads this
    {
      R.RevState(revoked, revEpoch, authority, revokeUsable)
    }

    ghost predicate FileAgrees()
      reads this, revokeFile
    {
      revokeFile != null && Mirrors(revokeFile.content, revoked)
    }

    /** What loaded replaces the set; what did not load leaves the old set and closes
        the hub. A reload of what the hub itself wrote changes nothing. */
    method ReloadRevocationList(now: int) returns (r: IdResult)
      requires Valid()
      modifies this`revoked, this`revokeUsable
      ensures Valid()
      ensures revokeFile == null ==> r.IdErrArgs? && RevNow() == old(RevNow())
      ensures r.IdOk? || r.IdErrRevoked? ==> revokeUsable && FileAgrees()
      ensures r.IdErrRevoked? ==> exists p :: (identity == Some(p) || agreement == Some(p)) && IsRevoked(View(now), p)
      ensures revokeFile != null && !r.IdOk? && !r.IdErrRevoked? ==> !revokeUsable && revoked == old(revoked)
      ensures old(FileAgrees()) ==> revoked == old(revoked) && FileAgrees()
      ensures old(FileAgrees()) && |revokeFile.content.value| <= MAX_TEXT_FILE ==> r.IdOk? || r.IdErrRevoked? || r.IdErrIo?
    {
      hide LoginsHeld, RelaysHeld, S.RunRing, Load;
      if revokeFile == null {
        return IdErrArgs;
      }
      var es;
      r, es := revokeFile.LoadEntries(ParseRevoked);
      if !r.IdOk? {
        revokeUsable := false;
        return;
      }
      var points: seq<Octets> := [];
      for i := 0 to |es|
        invariant points == PointsOf(es)[..i]
      {
        points := points + [es[i].point];
      }
      assert points == PointsOf(es);
      MirroredPoints(revokeFile.content.value, points);
      revoked := points;
      revokeUsable := true;
      var gone := SelfKeyRevoked(now);
      if gone {
        return IdErrRevoked;
      }
    }

    method SetRevocationList(file: F.TextFile, now: int) returns (r: IdResult)
      requires Valid()
      modifies this`revoked, this`revokeUsable, this`revokeFile, this`revokeConfigured
      ensures Valid() && revokeConfigured && revokeFile == file
      ensures if r.IdOk? || r.IdErrRevoked? then revokeUsable && FileAgrees() else FailsClosed(View(now))
    {
      hide LoginsHeld, RelaysHeld, S.RunRing, Load;
      revokeFile := file;
      revokeConfigured := true;
      r := ReloadRevocationList(now);
    }

    /** Whether a key may be named as the authority is a question of membership, so
        a hub that is closed or stale can still name one. */
    method SetRevocationAuthority(pub: Option<Octets>) returns (r: IdResult)
      requires Valid()
      modifies this`authority
      ensures Valid()
      ensures r.IdErrRevoked? <==> pub.Some? && pub.value in revoked
      ensures r.IdErrKey? <==> pub.Some? && pub.value !in revoked && !isPoint(pub.value)
      ensures authority == if r.IdOk? then pub else old(authority)
      ensures r.IdOk? || r.IdErrRevoked? || r.IdErrKey?
    {
      hide LoginsHeld, RelaysHeld, S.RunRing, Lawful;
      if pub.None? {
        authority := None;
        return IdOk;
      }
      var gone := IsRevokedPointRaw(pub.value);
      if gone {
        return IdErrRevoked;
      }
      if !isPoint(pub.value) {
        return IdErrKey;
      }
      authority := pub;
      return IdOk;
    }

    /** On disk first, in memory only then; neither when the append fails. */
    method AddRevokedPoint(point: Octets, at: int, now: int) returns (ok: bool)
      requires Valid() && |point| == POINT_LEN && IsI64(at) && IsI64(now)
      modifies this`revoked, revokeFile
      ensures Valid()
      ensures revoked == if ok then old(revoked) + [point] else old(revoked)
      ensures ok ==> revokeFile != null && R.Storable(at, now)
      ensures !ok && revokeFile != null ==> revokeFile.content == old(revokeFile.content)
      ensures old(FileAgrees()) ==> FileAgrees()
    {
      hide LoginsHeld, RelaysHeld, S.RunRing, Load, RevokedLine, Appended;
      if revokeFile == null {
        return false;
      }
      ghost var before := revokeFile.content;
      var r := revokeFile.AppendRevocationList(point, at, now, fingerprint(point), REASON);
      if !r.IdOk? {
        return false;
      }
      if before.Some? && Mirrors(before, revoked) {
        var stamp := if at == 0 then now else at;
        MirrorsAppended(before.value, revoked, Revoked(point, stamp), fingerprint(point));
      }
      revoked := revoked + [point];
      return true;
    }

    /** Sign the set this hub holds, every stamp republished as "not recorded"; an
        epoch of zero stands for the number of points. */
    method IssueRevocationList(epoch: int, pOut: array<byte>) returns (r: R.RevResult, cb: nat)
      requires Valid() && IsI64(epoch)
      modifies log, pOut
      ensures Valid()
      ensures !r.RevOk? ==> log.signed == old(log.signed) && cb == 0
      ensures identity.None? ==> r.RevErrNoIdentity?
      ensures identity.Some? && !revokeConfigured ==> r.RevErrNoList?
      ensures identity.Some? && revokeConfigured && |revoked| > R.MAX_ENTRIES ==> r.RevErrInternal?
      ensures r.RevOk? ==>
                && identity.Some? && revokeConfigured && |revoked| <= R.MAX_ENTRIES
                && cb == R.ListLen(|revoked|) <= pOut.Length
                && |log.signed| == |old(log.signed)| + 1
                && var s, e := log.signed[|old(log.signed)|], EpochOf(epoch);
                   && log.signed == old(log.signed) + [s] && s.key == identity.value && |s.sig| == SIG_LEN
                   && s.statement == T.RevList(e, |revoked|, R.Pack(R.Unstamped(revoked)), identity.value)
                   && pOut[..cb] == R.ListBlock(e, R.Unstamped(revoked), identity.value, s.sig)
    {
      hide LoginsHeld, RelaysHeld, S.RunRing, Lawful;
      cb := 0;
      if identity.None? {
        return R.RevErrNoIdentity, cb;
      }
      if !revokeConfigured {
        return R.RevErrNoList, cb;
      }
      if |revoked| > R.MAX_ENTRIES {
        return R.RevErrInternal, cb;
      }
      if pOut.Length < R.ListLen(|revoked|) {
        return R.RevErrArgs, cb;
      }
      var use := if epoch != 0 then epoch else |revoked|;
      var at, entries := R.PutUnsigned(pOut, use, revoked, identity.value);
      var st := T.RevList(use, |revoked|, entries, identity.value);
      var tr := T.RevListTranscript(use, |revoked|, entries, identity.value, log.sha);
      assert tr == T.Signable(st, log.sha);
      var ok, sig := Sign(st);
      if !ok {
        return R.RevErrInternal, cb;
      }
      at := Put(pOut, at, sig);
      return R.RevOk, at;
    }

    function EpochOf(epoch: int): int
      reads this
    {
      if epoch != 0 then epoch else |revoked|
    }

    /** Everything checked before a list is believed, in order, by a hub in state `s`. */
    function VerdictIn(s: R.RevState, b: Octets): R.RevResult
      reads this`revokeConfigured, this`revokeFile, log
    {
      if !R.ShapeOf(b).RevOk? then R.ShapeOf(b)
      else if s.authority.None? then R.RevErrNoAuthority
      else if !revokeConfigured || revokeFile == null then R.RevErrNoList
      else if R.IssuerIn(b) != s.authority.value then R.RevErrIssuer
      else if !isPoint(R.IssuerIn(b)) then R.RevErrInternal
      else if !Verifies(log.signed, log.sha, R.IssuerIn(b), T.Signable(R.StatementIn(b), log.sha), R.SigIn(b)) then
        R.RevErrSignature
      else if R.EpochIn(b) <= s.epoch then R.RevErrStale
      else R.RevOk
    }

    function RevVerdict(b: Octets): R.RevResult
      reads this, log
    {
      VerdictIn(RevNow(), b)
    }

    method CheckRevocationList(pIn: Octets) returns (r: R.RevResult, epoch: int)
      ensures r == RevVerdict(pIn)
      ensures r.RevOk? ==> epoch == R.EpochIn(pIn)
    {
      epoch := 0;
      if |pIn| < R.FIXED_LEN {
        return R.RevErrFormat, epoch;
      }
      if pIn[0] != R.REV_MAGIC[0] || pIn[1] != R.REV_MAGIC[1] {
        assert pIn[..2][0] != R.REV_MAGIC[0] || pIn[..2][1] != R.REV_MAGIC[1];
        return R.RevErrFormat, epoch;
      }
      assert pIn[..2] == R.REV_MAGIC;
      if pIn[2] != R.REV_VERSION {
        return R.RevErrVersion, epoch;
      }
      var nCount := R.CountIn(pIn);
      if nCount > R.MAX_ENTRIES || |pIn| != R.ListLen(nCount) {
        return R.RevErrFormat, epoch;
      }
      if authority.None? {
        return R.RevErrNoAuthority, epoch;
      }
      if !revokeConfigured || revokeFile == null {
        return R.RevErrNoList, epoch;
      }
      var pIssuer := pIn[R.OffIssuer(nCount)..R.OffSig(nCount)];
      if pIssuer != authority.value {
        return R.RevErrIssuer, epoch;
      }
      epoch := GetI64(pIn, R.OFF_EPOCH);
      var tr := T.RevListTranscript(epoch, nCount, pIn[R.OFF_ENTRIES..R.OffIssuer(nCount)], pIssuer, log.sha);
      if !isPoint(pIssuer) {
        return R.RevErrInternal, epoch;
      }
      if !Verifies(log.signed, log.sha, pIssuer, tr, pIn[R.OffSig(nCount)..]) {
        return R.RevErrSignature, epoch;
      }
      if epoch <= revEpoch {
        return R.RevErrStale, epoch;
      }
      return R.RevOk, epoch;
    }

    /** The union: each point not held yet is stored and then held, until one cannot
        be stored. */
    method MergeEntries(pIn: Octets, now: int) returns (ok: bool, nAdded: nat)
      requires Valid() && IsI64(now) && R.ShapeOf(pIn).RevOk?
      modifies this`revoked, revokeFile
      ensures Valid()
      ensures R.MergedTo(old(revoked), R.EntriesIn(pIn), now, ok, nAdded, revoked)
      ensures old(FileAgrees()) ==> FileAgrees()
    {
      hide LoginsHeld, RelaysHeld, S.RunRing, Mirrors, R.EntriesIn, R.MergedTo;
      ghost var es := R.EntriesIn(pIn);
      ghost var was := revoked;
      ok, nAdded := true, 0;
      R.MergeStarts(was, es, now);
      for i := 0 to R.CountIn(pIn)
        invariant Valid()
        invariant R.MergedTo(was, es[..i], now, true, nAdded, revoked)
        invariant old(FileAgrees()) ==> FileAgrees()
      {
        var e := R.EntryIn(pIn, i);
        R.MergeNext(was, es, now, i, nAdded, revoked);
        var known := IsRevokedPointRaw(e.point);
        if !known {
          ok := AddRevokedPoint(e.point, e.at, now);
          if !ok {
            return;
          }
          nAdded := nAdded + 1;
        }
      }
      assert es[..|es|] == es;
    }

    /** After a full merge the hub is at the list's epoch, and stops listening to an
        authority the list itself withdrew. */
    method Applied(epoch: int, now: int)
      requires Valid() && authority.Some?
      modifies this`revEpoch, this`revApplied, this`authority
      ensures Valid() && revEpoch == epoch && revApplied == now
      ensures authority == if old(authority).value in revoked then None else old(authority)
    {
      hide LoginsHeld, RelaysHeld, S.RunRing, Lawful;
      revEpoch := epoch;
      revApplied := now;
      var gone := IsRevokedPointRaw(authority.value);
      if gone {
        authority := None;
      }
    }

    /** What a believed list does: it is merged, or merged as far as the file allowed. */
    method TakeList(pIn: Octets, epoch: int, now: int) returns (r: R.RevResult, nAdded: nat)
      requires Valid() && IsI64(now) && R.ShapeOf(pIn).RevOk? && authority.Some? && revEpoch < epoch
      modifies this`revoked, this`revokeUsable, this`revEpoch, this`revApplied, this`authority, revokeFile
      ensures Valid()
      ensures r.RevOk? || (r.RevErrInternal? && !revokeUsable)
      ensures revApplied == if r.RevOk? then now else old(revApplied)
      ensures R.ApplyStep(old(RevNow()), epoch, R.EntriesIn(pIn), r, nAdded, RevNow())
      ensures r.RevOk? ==> R.AllStorable(R.Fresh(R.EntriesIn(pIn), old(revoked)), now)
      ensures old(FileAgrees()) ==> FileAgrees()
    {
      hide LoginsHeld, RelaysHeld, S.RunRing, Mirrors, R.EntriesIn, R.ShapeOf, R.MergedTo, R.ApplyStep, R.AllStorable;
      ghost var was := RevNow();
      var ok;
      ok, nAdded := MergeEntries(pIn, now);
      R.StepOfMerge(was, epoch, R.EntriesIn(pIn), now, ok, nAdded, revoked);
      if !ok {
        revokeUsable := false;
        return R.RevErrInternal, 0;
      }
      Applied(epoch, now);
      r := R.RevOk;
    }

    /** A refused list changes nothing. */
    method ApplyRevocationList(pIn: Octets, now: int) returns (r: R.RevResult, nAdded: nat)
      requires Valid() && IsI64(now)
      modifies this`revoked, this`revokeUsable, this`revEpoch, this`revApplied, this`authority, revokeFile
      ensures Valid()
      ensures !old(RevVerdict(pIn)).RevOk? ==>
                && r == old(RevVerdict(pIn)) && nAdded == 0
                && RevNow() == old(RevNow()) && revApplied == old(revApplied)
                && (revokeFile != null ==> revokeFile.content == old(revokeFile.content))
      ensures old(RevVerdict(pIn)).RevOk? ==>
                && (r.RevOk? || (r.RevErrInternal? && !revokeUsable))
                && revApplied == (if r.RevOk? then now else old(revApplied))
                && R.ApplyStep(old(RevNow()), R.EpochIn(pIn), R.EntriesIn(pIn), r, nAdded, RevNow())
                && (r.RevOk? ==> R.AllStorable(R.Fresh(R.EntriesIn(pIn), old(revoked)), now))
      ensures old(FileAgrees()) ==> FileAgrees()
    {
      hide LoginsHeld, RelaysHeld, S.RunRing, Mirrors, R.EntriesIn, R.ApplyStep, R.AllStorable;
      nAdded := 0;
      var epoch;
      r, epoch := CheckRevocationList(pIn);
      if r.RevOk? {
        hide RevVerdict, R.ShapeOf;
        r, nAdded := TakeList(pIn, epoch, now);
      }
    }

    /** What one call with the block `b` in state `s` was about and what it answered: the
        verdict, or for a believed list success or a failed append. */
    ghost predicate Answers(s: R.RevState, c: R.Call, b: Octets)
      reads this`revokeConfigured, this`revokeFile, log
    {
      && (R.ShapeOf(b).RevOk? ==> c.epoch == R.EpochIn(b) && c.es == R.EntriesIn(b))
      && (if VerdictIn(s, b).RevOk? then c.r.RevOk? || c.r.RevErrInternal? else c.r == VerdictIn(s, b))
    }

    ghost predicate AllAnswer(states: seq<R.RevState>, calls: seq<R.Call>, blocks: seq<Octets>)
      reads this`revokeConfigured, this`revokeFile, log
    {
      |calls| == |blocks| && |states| == |calls| + 1
      && forall k :: 0 <= k < |calls| ==> Answers(states[k], calls[k], blocks[k])
    }

    lemma AnswersSnoc(states: seq<R.RevState>, calls: seq<R.Call>, blocks: seq<Octets>, k: nat, c: R.Call, t: R.RevState)
      requires k < |blocks| && AllAnswer(states, calls, blocks[..k]) && Answers(states[k], c, blocks[k])
      ensures AllAnswer(states + [t], calls + [c], blocks[..k + 1])
    {
      hide Answers;
      forall i | 0 <= i < k + 1
        ensures Answers((states + [t])[i], (calls + [c])[i], blocks[..k + 1][i])
      {
        if i < k {
          assert Answers(states[i], calls[i], blocks[..k][i]);
        }
      }
    }

    ghost function CallWith(b: Octets, r: R.RevResult, added: nat): (c: R.Call)
      ensures c.r == r && c.added == added
    {
      if R.ShapeOf(b).RevOk? then R.Call(R.EpochIn(b), R.EntriesIn(b), r, added) else R.Call(0, [], r, added)
    }

    lemma RefusedAnswers(s: R.RevState, b: Octets)
      requires !VerdictIn(s, b).RevOk?
      ensures var c := CallWith(b, VerdictIn(s, b), 0);
              Answers(s, c, b) && R.ApplyStep(s, c.epoch, c.es, c.r, c.added, s)
    {
      hide R.EntriesIn, R.Fresh;
    }

    lemma BelievedAnswers(s: R.RevState, b: Octets, r: R.RevResult, added: nat)
      requires VerdictIn(s, b).RevOk? && (r.RevOk? || r.RevErrInternal?)
      ensures var c := CallWith(b, r, added);
              Answers(s, c, b) && R.ShapeOf(b).RevOk? && c == R.Call(R.EpochIn(b), R.EntriesIn(b), r, added)
    {
      hide R.EntriesIn, R.Fresh;
    }

    method ApplyOne(b: Octets, now: int) returns (r: R.RevResult, ghost c: R.Call)
      requires Valid() && IsI64(now)
      modifies this`revoked, this`revokeUsable, this`revEpoch, this`revApplied, this`authority, revokeFile
      ensures Valid() && r == c.r
      ensures Answers(old(RevNow()), c, b)
      ensures R.ApplyStep(old(RevNow()), c.epoch, c.es, c.r, c.added, RevNow())
      ensures old(FileAgrees()) ==> FileAgrees()
    {
      hide LoginsHeld, RelaysHeld, S.RunRing, Lawful, Mirrors, R.EntriesIn, R.ShapeOf, R.Fresh, R.ApplyStep,
        VerdictIn, Answers, CallWith;
      ghost var was := RevNow();
      if !VerdictIn(was, b).RevOk? {
        RefusedAnswers(was, b);
      }
      var nAdded;
      r, nAdded := ApplyRevocationList(b, now);
      if old(VerdictIn(was, b)).RevOk? {
        BelievedAnswers(was, b, r, nAdded);
      }
      c := CallWith(b, r, nAdded);
    }

    /** Any run of calls, whatever the blocks hold, is a run of merge steps from the hub's
        first state to its last, each answered by its verdict. The set only grew, the
        epoch never fell, and the file still holds the set. */
    method ApplyAll(blocks: seq<Octets>, clock: seq<int>)
      returns (rs: seq<R.RevResult>, ghost states: seq<R.RevState>, ghost calls: seq<R.Call>)
      requires Valid() && |clock| == |blocks| && forall k :: 0 <= k < |clock| ==> IsI64(clock[k])
      modifies this`revoked, this`revokeUsable, this`revEpoch, this`revApplied, this`authority, revokeFile
      ensures Valid()
      ensures R.Calls(states, calls) && AllAnswer(states, calls, blocks)
      ensures states[0] == old(RevNow()) && states[|blocks|] == RevNow()
      ensures |rs| == |blocks| && forall k :: 0 <= k < |rs| ==> rs[k] == calls[k].r
      ensures old(revoked) <= revoked && old(revEpoch) <= revEpoch
      ensures old(FileAgrees()) ==> FileAgrees()
    {
      hide LoginsHeld, RelaysHeld, S.RunRing, Lawful, Mirrors, R.ApplyStep, Answers;
      rs, states, calls := [], [RevNow()], [];
      for k := 0 to |blocks|
        invariant Valid()
        invariant R.Calls(states, calls) && AllAnswer(states, calls, blocks[..k])
        invariant states[0] == old(RevNow()) && states[k] == RevNow()
        invariant |rs| == k && forall i :: 0 <= i < k ==> rs[i] == calls[i].r
        invariant old(FileAgrees()) ==> FileAgrees()
      {
        hide R.Calls, AllAnswer;
        var r;
        ghost var c;
        r, c := ApplyOne(blocks[k], clock[k]);
        R.CallsSnoc(states, calls, c, RevNow());
        AnswersSnoc(states, calls, blocks, k, c, RevNow());
        rs, states, calls := rs + [r], states + [RevNow()], calls + [c];
      }
      assert blocks[..|blocks|] == blocks;
      R.RunGrows(states, calls, 0, |blocks|);
    }

    /** A block that carries the list `l` under a genuine signature of `a`. */
    ghost predicate Carries(a: Octets, b: Octets, l: R.Published)
      reads log
    {
      && R.ShapeOf(b).RevOk? && R.IssuerIn(b) == a && isPoint(a)
      && Verifies(log.signed, log.sha, a, T.Signable(R.StatementIn(b), log.sha), R.SigIn(b))
      && l == R.Published(R.EpochIn(b), R.EntriesIn(b))
    }

    ghost predicate AllCarry(a: Octets, blocks: seq<Octets>, lists: seq<R.Published>, order: seq<nat>)
      reads log
    {
      |order| == |blocks| && forall k :: 0 <= k < |blocks| ==> order[k] < |lists| && Carries(a, blocks[k], lists[order[k]])
    }

    /** A genuine list that does not name its authority is applied or is stale, unless an
        append fails, and leaves the authority in place. */
    lemma GenuineStep(s: R.RevState, c: R.Call, b: Octets, a: Octets, l: R.Published, t: R.RevState)
      requires s.authority == Some(a) && a !in s.points && a !in R.Points(l.es) && Carries(a, b, l)
      requires revokeConfigured && revokeFile != null
      requires Answers(s, c, b) && R.ApplyStep(s, c.epoch, c.es, c.r, c.added, t) && !c.r.RevErrInternal?
      ensures (c.r.RevOk? || c.r.RevErrStale?) && c.epoch == l.epoch && c.es == l.es
      ensures t.authority == Some(a) && a !in t.points
    {
      R.MergedIsUnion(s.points, l.es);
      assert a !in R.AsSet(R.Merged(s.points, l.es));
    }

    lemma GenuineRun(states: seq<R.RevState>, calls: seq<R.Call>, blocks: seq<Octets>,
                     a: Octets, lists: seq<R.Published>, order: seq<nat>)
      requires R.Calls(states, calls) && AllAnswer(states, calls, blocks) && AllCarry(a, blocks, lists, order)
      requires revokeConfigured && revokeFile != null
      requires states[0].authority == Some(a) && a !in states[0].points
      requires forall i :: 0 <= i < |lists| ==> a !in R.Points(lists[i].es)
      requires forall k :: 0 <= k < |calls| ==> !calls[k].r.RevErrInternal?
      ensures R.Carries(calls, lists, order)
      ensures states[|calls|].authority == Some(a) && a !in states[|calls|].points
    {
      hide R.ApplyStep, Answers, Carries;
      for n := 0 to |calls|
        invariant states[n].authority == Some(a) && a !in states[n].points
        invariant forall k :: 0 <= k < n ==>
                    order[k] < |lists| && calls[k].epoch == lists[order[k]].epoch && calls[k].es == lists[order[k]].es
                    && (calls[k].r.RevOk? || calls[k].r.RevErrStale?)
      {
        GenuineStep(states[n], calls[n], blocks[n], a, lists[order[n]], states[n + 1]);
      }
    }

    /** Convergence of the hub itself. Whatever blocks of one authority it is given, in
        whatever order, as often as they come and with whatever missing: when the lists
        behind them grow, none names the authority, and their epochs are above the hub's,
        then unless an append fails it ends with its first set united with the newest list
        given, at that list's epoch, and still hears that authority. */
    method ReceiveAll(blocks: seq<Octets>, clock: seq<int>, ghost lists: seq<R.Published>, ghost order: seq<nat>)
      returns (rs: seq<R.RevResult>)
      requires Valid() && |clock| == |blocks| && forall k :: 0 <= k < |clock| ==> IsI64(clock[k])
      requires authority.Some? && authority.value !in revoked && revokeConfigured && revokeFile != null
      requires blocks != [] && AllCarry(authority.value, blocks, lists, order) && R.Growing(lists)
      requires forall i :: 0 <= i < |lists| ==> authority.value !in R.Points(lists[i].es) && revEpoch < lists[i].epoch
      modifies this`revoked, this`revokeUsable, this`revEpoch, this`revApplied, this`authority, revokeFile
      ensures Valid() && |rs| == |blocks| && (old(FileAgrees()) ==> FileAgrees())
      ensures (forall k :: 0 <= k < |rs| ==> !rs[k].RevErrInternal?) ==>
                var newest := lists[R.Newest(order)];
                && R.AsSet(revoked) == R.AsSet(old(revoked)) + R.AsSet(R.Points(newest.es))
                && revEpoch == newest.epoch && authority == old(authority)
                && forall k :: 0 <= k < |rs| ==> rs[k].RevOk? || rs[k].RevErrStale?
    {
      hide LoginsHeld, RelaysHeld, S.RunRing, Lawful, Mirrors, Answers, Carries;
      ghost var a := authority.value;
      ghost var states, calls;
      rs, states, calls := ApplyAll(blocks, clock);
      if forall k :: 0 <= k < |rs| ==> !rs[k].RevErrInternal? {
        GenuineRun(states, calls, blocks, a, lists, order);
        R.RunConverges(states, calls, lists, order);
      }
    }

    /** A list that is believed was signed, entry for entry, as a revocation list and
        by the key named as the authority; only by a collision of the hash can the
        entries be others. */
    lemma RevocationAgreement(b: Octets) returns (i: nat)
      requires IsSha(log.sha) && AllWellFormed(log.signed) && RevVerdict(b).RevOk?
      ensures i < |log.signed| && Some(log.signed[i].key) == authority && log.signed[i].sig == R.SigIn(b)
      ensures var st := R.StatementIn(b);
              log.signed[i].statement == st || HashCollision(log.signed[i].statement, st)
    {
      var st := R.StatementIn(b);
      FromI64RoundTrip(b[R.OFF_EPOCH..R.OFF_COUNT]);
      i := VerifiedWasSigned(log.signed, log.sha, Verified(st, R.IssuerIn(b), R.SigIn(b), 0));
    }

    predicate HashCollision(s: T.Statement, t: T.Statement)
      reads log
    {
      T.HashCollision(s, t, log.sha)
    }

    /** A genuine list of the authority above the hub's epoch is believed. */
    lemma GenuineIsBelieved(a: Octets, b: Octets, l: R.Published)
      requires Carries(a, b, l) && authority == Some(a) && revokeConfigured && revokeFile != null && l.epoch > revEpoch
      ensures RevVerdict(b).RevOk? && R.EpochIn(b) == l.epoch && R.EntriesIn(b) == l.es
    {
      hide R.EntriesIn;
    }

    lemma IssuedIsGenuine(epoch: int, es: seq<R.RevEntry>, issuer: Octets, sig: Octets)
      requires IsI64(epoch) && R.EntriesOk(es) && |es| <= R.MAX_ENTRIES
      requires |issuer| == POINT_LEN && |sig| == SIG_LEN && isPoint(issuer)
      requires Verifies(log.signed, log.sha, issuer, T.Signable(T.RevList(epoch, |es|, R.Pack(es), issuer), log.sha), sig)
      ensures Carries(issuer, R.ListBlock(epoch, es, issuer, sig), R.Published(epoch, es))
    {
      R.BlockRoundTrip(epoch, es, issuer, sig);
      hide R.ListBlock, R.ShapeOf, R.EpochIn, R.EntriesIn, R.IssuerIn, R.StatementIn, R.SigIn, R.Pack, Verifies, T.Signable;
    }

    /** What one hub issued another believes when it has that issuer as its authority
        and is at an earlier epoch, and it reads back exactly the issuer's points; so
        by the merge it adds those it did not hold, each once, and reports how many. */
    lemma IssuedListIsBelieved(epoch: int, points: seq<Octets>, issuer: Octets, sig: Octets)
      requires IsI64(epoch) && R.AllPoints(points) && |points| <= R.MAX_ENTRIES
      requires |issuer| == POINT_LEN && |sig| == SIG_LEN && isPoint(issuer)
      requires Verifies(log.signed, log.sha, issuer,
                        T.Signable(T.RevList(epoch, |points|, R.Pack(R.Unstamped(points)), issuer), log.sha), sig)
      requires authority == Some(issuer) && revokeConfigured && revokeFile != null && epoch > revEpoch
      ensures var b := R.ListBlock(epoch, R.Unstamped(points), issuer, sig);
              && RevVerdict(b).RevOk? && R.EpochIn(b) == epoch && R.EntriesIn(b) == R.Unstamped(points)
              && R.AsSet(R.Merged(revoked, R.EntriesIn(b))) == R.AsSet(revoked) + R.AsSet(points)
              && |R.Fresh(R.EntriesIn(b), revoked)| == |R.AsSet(points) - R.AsSet(revoked)|
              && forall now :: now >= 0 ==> R.AllStorable(R.Fresh(R.EntriesIn(b), revoked), now)
    {
      var es := R.Unstamped(points);
      IssuedIsGenuine(epoch, es, issuer, sig);
      hide R.ListBlock, R.Merged, R.Fresh, R.AllStorable, Carries, VerdictIn, R.ShapeOf;
      GenuineIsBelieved(issuer, R.ListBlock(epoch, es, issuer, sig), R.Published(epoch, es));
      R.UnstampedMerge(revoked, points);
    }

    // ---- sealing ------------------------------------------------------------------------

    /** One place is the destination's; a name is never held twice. */
    method AddSealReader(pAddr: Wide) returns (r: IdResult)
      requires Valid()
      modifies this`sealReaders
      ensures Valid()
      ensures r.IdOk? || r.IdErrArgs? || r.IdErrFormat?
      ensures r.IdErrArgs? <==> pAddr == []
      ensures r.IdOk? <==> pAddr != [] && |old(sealReaders)| + 1 < maxReaders && pAddr !in old(sealReaders)
      ensures sealReaders == if r.IdOk? then old(sealReaders) + [pAddr] else old(sealReaders)
    {
      hide LoginsHeld, RelaysHeld, S.RunRing, Lawful;
      if pAddr == [] {
        return IdErrArgs;
      }
      if |sealReaders| + 1 >= maxReaders {
        return IdErrFormat;
      }
      for i := 0 to |sealReaders|
        invariant pAddr !in sealReaders[..i]
      {
        if sealReaders[i] == pAddr {
          return IdErrFormat;
        }
      }
      assert sealReaders[..|sealReaders|] == sealReaders;
      sealReaders := sealReaders + [pAddr];
      return IdOk;
    }

    method FindAgreement(pAddr: Wide, now: int) returns (k: Option<Octets>)
      ensures k == ReaderKey(allow, w, View(now), pAddr)
    {
      var ok, id := Utf8FromWide(pAddr, w);
      if !ok {
        return None;
      }
      for i := 0 to |allow|
        invariant Agreement(allow[..i], id, View(now)).None?
      {
        assert allow[..i + 1][..i] == allow[..i];
        if allow[i].identity == id && allow[i].agree.Some? {
          var gone := IsRevokedPoint(allow[i].agree.value, now);
          if !gone {
            AgreementPrefix(allow, id, View(now), i + 1);
            return allow[i].agree;
          }
        }
      }
      assert allow[..|allow|] == allow;
      return None;
    }

    method IsRevocationUsable(now: int) returns (ok: bool)
      ensures ok <==> !FailsClosed(View(now))
    {
      ok := !revokeConfigured || (revokeUsable && RevFresh(now));
    }

    method WhyUnresolved(pAddr: Wide, now: int) returns (e: SealResult)
      ensures e == Unresolved(allow, w, View(now), pAddr)
    {
      var usable := IsRevocationUsable(now);
      if !usable {
        return SealErrRevoked;
      }
      var nLive, allRevoked := PeerKeyCount(pAddr, now);
      if allRevoked {
        return SealErrRevoked;
      }
      return SealErrNoAgreement;
    }

    /** What sealing to an address comes to before anything is encrypted. */
    function SealVerdict(pDst: Wide, now: int): SealResult
      reads this
    {
      if identity.None? then SealErrNoIdentity
      else
        match ReaderKey(allow, w, View(now), pDst)
        case None => Unresolved(allow, w, View(now), pDst)
        case Some(k) =>
          match Gather(allow, w, View(now), k, sealReaders)
          case Missing(name) => Unresolved(allow, w, View(now), name)
          case Keys(_) => SealOk
    }

    /** The reader set handed on for encryption. It always fits: that no configured
        set can be too large is decided when a reader is added. */
    method Seal(pDst: Wide, now: int) returns (r: SealResult, aReaders: seq<Octets>)
      requires Valid()
      ensures r == SealVerdict(pDst, now) && !r.SealErrReaders?
      ensures r.SealOk? ==>
                ReaderKey(allow, w, View(now), pDst).Some? && |aReaders| <= maxReaders
                && Gather(allow, w, View(now), ReaderKey(allow, w, View(now), pDst).value, sealReaders) == Keys(aReaders)
    {
      hide LoginsHeld, RelaysHeld, S.RunRing, Lawful;
      aReaders := [];
      if identity.None? {
        return SealErrNoIdentity, [];
      }
      var agree := FindAgreement(pDst, now);
      if agree.None? {
        r := WhyUnresolved(pDst, now);
        return;
      }
      r, aReaders := GatherReaders(agree.value, now);
    }

    method GatherReaders(first: Octets, now: int) returns (r: SealResult, aReaders: seq<Octets>)
      requires |sealReaders| < maxReaders
      ensures match Gather(allow, w, View(now), first, sealReaders)
              case Missing(name) => r == Unresolved(allow, w, View(now), name)
              case Keys(keys) => r.SealOk? && aReaders == keys && |keys| <= maxReaders
    {
      aReaders := [first];
      for i := 0 to |sealReaders|
        invariant Gather(allow, w, View(now), first, sealReaders[..i]) == Keys(aReaders) && |aReaders| <= 1 + i
      {
        assert sealReaders[..i + 1][..i] == sealReaders[..i];
        var one := FindAgreement(sealReaders[i], now);
        if one.None? {
          r := WhyUnresolved(sealReaders[i], now);
          MissingStays(first, i + 1, now);
          return;
        }
        if one.value !in aReaders {
          if |aReaders| >= maxReaders {
            return SealErrReaders, aReaders;
          }
          aReaders := aReaders + [one.value];
        }
      }
      assert sealReaders[..|sealReaders|] == sealReaders;
      r := SealOk;
    }

    lemma {:induction false} MissingStays(first: Octets, i: nat, now: int)
      requires i <= |sealReaders| && Gather(allow, w, View(now), first, sealReaders[..i]).Missing?
      ensures Gather(allow, w, View(now), first, sealReaders) == Gather(allow, w, View(now), first, sealReaders[..i])
    {
      for k := i to |sealReaders|
        invariant Gather(allow, w, View(now), first, sealReaders[..k]) == Gather(allow, w, View(now), first, sealReaders[..i])
      {
        assert sealReaders[..k + 1][..k] == sealReaders[..k];
      }
      assert sealReaders[..|sealReaders|] == sealReaders;
    }

    // ---- opening ------------------------------------------------------------------------

    /** What opening comes to before freshness and replay are looked at. */
    function Attempt(pSrc: Wide, pDst: Wide, b: Octets, now: int, room: nat): Opened
      reads this
    {
      if agreement.None? then Shut(SealErrNoAgreement)
      else if FailsClosed(View(now)) then Shut(SealErrRevoked)
      else
        match Utf8Of(pSrc, w)
        case None => Shut(SealErrNoIdentity)
        case Some(id) =>
          if Listed(allow, id) == [] then Shut(SealErrNoIdentity)
          else if Live(allow, id, View(now)) == [] then Shut(SealErrRevoked)
          else FirstOpen(sealOpen, agreement.value, Live(allow, id, View(now)), pSrc, pDst, b, room)
    }

    /** The signature at the end of a body. */
    function SealSigOf(b: Octets): Octets { if |b| < SIG_LEN then [] else b[|b| - SIG_LEN..] }

    function SealCache(): S.Ring
      reads this
    {
      S.Ring(seenSeal, sealNext, sealFloor)
    }

    /** Freshness first, whether or not replay is refused; then the floor and the
        ring, when it is. */
    function RefusalOf(o: S.Opening): SealResult
      reads this
    {
      if !C.Fresh(o.stamp, o.now, sealWindow) then SealErrStale
      else if S.Admits(SealCache(), o, sealWindow) then SealOk
      else SealErrReplay
    }

    function OpeningOf(b: Octets, stamp: int, now: int): S.Opening
      reads this
    {
      S.Opening(SealSigOf(b), stamp, now, sealReplay)
    }

    function OpenVerdict(pSrc: Wide, pDst: Wide, b: Octets, now: int, room: nat): SealResult
      reads this
    {
      match Attempt(pSrc, pDst, b, now, room)
      case Shut(e) => e
      case Opened(stamp, _) => RefusalOf(OpeningOf(b, stamp, now))
    }

    /** The ring overwrite: once it is full the oldest slot goes, and the floor rises
        to its stamp if that is higher. */
    method NoteSealSig(sig: Octets, stamp: int)
      requires S.ValidRing(SealCache(), cap)
      modifies this`seenSeal, this`sealNext, this`sealFloor
      ensures SealCache() == S.NoteSeal(old(SealCache()), C.Mark(sig, stamp), cap)
    {
      var m := C.Mark(sig, stamp);
      if |seenSeal| < cap {
        seenSeal := seenSeal + [m];
        sealNext := 0;
        return;
      }
      if sealNext >= cap {
        sealNext := 0;
      }
      var evicted := seenSeal[sealNext].t;
      if evicted > sealFloor {
        sealFloor := evicted;
      }
      seenSeal := seenSeal[sealNext := m];
      sealNext := sealNext + 1;
    }

    method Refuse(o: S.Opening) returns (r: SealResult)
      requires o.refusing == sealReplay
      ensures r == RefusalOf(o)
      ensures r.SealOk? <==> S.Admits(SealCache(), o, sealWindow)
    {
      if sealWindow > 0 {
        var off := if o.now > o.stamp then o.now - o.stamp else o.stamp - o.now;
        if off > sealWindow {
          return SealErrStale;
        }
      }
      if sealReplay {
        if sealFloor != 0 && o.stamp < sealFloor {
          return SealErrReplay;
        }
        var replayed := C.Seen(seenSeal, o.key);
        if replayed {
          return SealErrReplay;
        }
      }
      return SealOk;
    }

    /** Every live key of the sender is tried until one outcome is not a bad
        signature. */
    method TryOpen(pSrc: Wide, pDst: Wide, pIn: Octets, room: nat, now: int) returns (o: Opened)
      ensures o == Attempt(pSrc, pDst, pIn, now, room)
    {
      if agreement.None? {
        return Shut(SealErrNoAgreement);
      }
      var nLive, allRevoked := PeerKeyCount(pSrc, now);
      ListedUnlessLive(pSrc, now);
      if allRevoked {
        return Shut(SealErrRevoked);
      }
      var usable := IsRevocationUsable(now);
      if !usable {
        return Shut(SealErrRevoked);
      }
      if nLive == 0 {
        return Shut(SealErrNoIdentity);
      }
      ghost var keys := Live(allow, Utf8Of(pSrc, w).value, View(now));
      assert keys[0..] == keys;
      for i := 0 to nLive
        invariant FirstOpen(sealOpen, agreement.value, keys, pSrc, pDst, pIn, room)
               == FirstOpen(sealOpen, agreement.value, keys[i..], pSrc, pDst, pIn, room)
      {
        var sender := PeerKeyAt(pSrc, i, now);
        assert keys[i..][1..] == keys[i + 1..];
        o := sealOpen(agreement.value, sender.value, pSrc, pDst, pIn, room);
        if o != Shut(SealErrSignature) {
          return;
        }
      }
      return Shut(SealErrSignature);
    }

    /** The wipe of a text that is refused after it was opened. */
    method Wipe(p: array<byte>, n: nat)
      requires n <= p.Length
      modifies p
      ensures forall i :: 0 <= i < n ==> p[i] == 0
      ensures p[n..] == old(p[n..])
    {
      for k := 0 to n
        invariant forall i :: 0 <= i < k ==> p[i] == 0
        invariant p[n..] == old(p[n..])
      {
        p[k] := 0;
      }
    }

    /** A body that opened is added to the history, and noted when it is admitted
        while replay is refused. */
    method NoteOpening(o: S.Opening, admitted: bool)
      requires Valid() && o.refusing == sealReplay && (admitted <==> S.Admits(SealCache(), o, sealWindow))
      modifies this`seenSeal, this`sealNext, this`sealFloor, this`openings
      ensures Valid() && openings == old(openings) + [o]
      ensures SealCache() == S.OpenStep(old(SealCache()), o, sealWindow, cap)
    {
      hide LoginsHeld, RelaysHeld, Lawful, S.Admits, S.NoteSeal;
      if admitted && sealReplay {
        NoteSealSig(o.key, o.stamp);
      }
      openings := openings + [o];
      assert openings[..|openings| - 1] == old(openings);
    }

    /** A body is handed out exactly as the verdict says. Whatever opened is one more
        step of the ring's history; what did not open leaves no trace; and of a text
        that opened but is refused nothing is left in the buffer. */
    method Open(pSrc: Wide, pDst: Wide, pIn: Octets, pOut: array<byte>, now: int) returns (r: SealResult, cb: nat)
      requires Valid()
      modifies this`seenSeal, this`sealNext, this`sealFloor, this`openings, pOut
      ensures Valid()
      ensures r == old(OpenVerdict(pSrc, pDst, pIn, now, pOut.Length))
      ensures match old(Attempt(pSrc, pDst, pIn, now, pOut.Length))
              case Shut(_) => SealCache() == old(SealCache()) && openings == old(openings) && cb == 0
              case Opened(stamp, plain) =>
                && openings == old(openings) + [old(OpeningOf(pIn, stamp, now))]
                && SealCache() == S.OpenStep(old(SealCache()), old(OpeningOf(pIn, stamp, now)), sealWindow, cap)
                && |plain| <= pOut.Length
                && (if r.SealOk? then cb == |plain| && pOut[..cb] == plain
                    else cb == 0 && forall i :: 0 <= i < |plain| ==> pOut[i] == 0)
    {
      hide LoginsHeld, RelaysHeld, S.RunRing, S.Admits, S.OpenStep;
      cb := 0;
      var got := TryOpen(pSrc, pDst, pIn, pOut.Length, now);
      if got.Shut? {
        return got.e, cb;
      }
      OpenedFits(pSrc, pDst, pIn, now, pOut.Length);
      hide Attempt, Lawful;
      CopyInto(pOut, 0, got.plain);
      assert pOut[..|got.plain|] == got.plain;
      var o := OpeningOf(pIn, got.when, now);
      r := Refuse(o);
      NoteOpening(o, r.SealOk?);
      if !r.SealOk? {
        Wipe(pOut, |got.plain|);
        return;
      }
      cb := |got.plain|;
    }

    /** What opens, opens under a live key listed for the sender it declares, and its
        text fits. */
    lemma OpenedFits(pSrc: Wide, pDst: Wide, b: Octets, now: int, room: nat)
      requires Lawful(sealOpen)
      ensures var o := Attempt(pSrc, pDst, b, now, room);
              o.Opened? ==>
                && |o.plain| <= room && |b| >= SIG_LEN && agreement.Some? && Utf8Of(pSrc, w).Some?
                && exists key :: key in Listed(allow, Utf8Of(pSrc, w).value) && !IsRevoked(View(now), key)
                                 && sealOpen(agreement.value, key, pSrc, pDst, b, room) == o
    {
      var o := Attempt(pSrc, pDst, b, now, room);
      if o.Opened? {
        var id := Utf8Of(pSrc, w).value;
        LiveIs(allow, id, View(now));
        FirstOpenIs(sealOpen, agreement.value, Live(allow, id, View(now)), pSrc, pDst, b, room);
      }
    }

    method SetSealReplayRefused(refuse: bool)
      requires Valid()
      modifies this`sealReplay
      ensures Valid() && sealReplay == refuse && SealCache() == old(SealCache())
    {
      hide LoginsHeld, RelaysHeld, S.RunRing, Lawful;
      sealReplay := refuse;
    }

    method SetRelayReplayRefused(refuse: bool)
      requires Valid()
      modifies this`relayReplay
      ensures Valid() && relayReplay == refuse && seenRel == old(seenRel)
    {
      hide LoginsHeld, RelaysHeld, S.RunRing, Lawful;
      relayReplay := refuse;
    }

    /** The ring holds the last `cap` noted bodies, oldest first from the slot to be
        overwritten next, and the floor is the newest stamp evicted. */
    lemma SealCacheIs()
      requires Valid()
      ensures var h := S.Noted(openings, sealWindow, cap);
              && S.ValidRing(SealCache(), cap)
              && S.InOrder(SealCache(), cap) == C.KeepLast(h, cap)
              && sealFloor == S.NewestStamp(h[..C.ByCount(|h|, cap)])
    {
      hide LoginsHeld, RelaysHeld, Lawful;
      S.RunRingIs(openings, sealWindow, cap);
      S.RingIs(S.Noted(openings, sealWindow, cap), cap);
    }

    /** The floor never falls, whatever has been toggled since. */
    lemma SealFloorNeverFalls(k: nat)
      requires Valid() && k <= |openings|
      ensures S.RunRing(openings[..k], sealWindow, cap).floor <= sealFloor
    {
      hide LoginsHeld, RelaysHeld, Lawful;
      S.RunFloorNeverFalls(openings, k, sealWindow, cap);
    }

    /** A body that was handed out while replay was refused is handed out again under
        refusal exactly when it is not stale, has been evicted, and its stamp is the floor
        to the second or no eviction has raised the floor. */
    lemma HandedOutAgainExactlyWhen(i: nat, pSrc: Wide, pDst: Wide, b: Octets, now: int, room: nat)
      requires Valid() && i < |openings| && openings[i].refusing
      requires S.Admits(S.RunRing(openings[..i], sealWindow, cap), openings[i], sealWindow)
      requires sealReplay && SealSigOf(b) == openings[i].key
      requires Attempt(pSrc, pDst, b, now, room).Opened? && Attempt(pSrc, pDst, b, now, room).when == openings[i].stamp
      ensures OpenVerdict(pSrc, pDst, b, now, room).SealOk? <==>
              && C.Fresh(openings[i].stamp, now, sealWindow) && !C.Holds(seenSeal, openings[i].key)
              && (openings[i].stamp == sealFloor || sealFloor == 0)
    {
      hide LoginsHeld, RelaysHeld, Lawful, S.RunRing, Attempt;
      var o := OpeningOf(b, openings[i].stamp, now);
      var run := openings + [o];
      assert run[..i] == openings[..i] && run[i] == openings[i] && run[..|openings|] == openings;
      S.AdmittedAgainExactlyWhen(run, i, |openings|, sealWindow, cap);
    }

    /** While a configured list is unusable or stale nothing is opened, and nothing is
        sealed to anybody. */
    lemma NothingSealedWhileClosed(pSrc: Wide, pDst: Wide, b: Octets, now: int, room: nat)
      requires FailsClosed(View(now))
      ensures !OpenVerdict(pSrc, pDst, b, now, room).SealOk? && !SealVerdict(pDst, now).SealOk?
    {
      ReaderNotRevoked(allow, w, View(now), pDst);
    }
  }
}
