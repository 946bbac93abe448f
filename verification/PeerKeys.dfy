/** Which keys an address may sign with: every key the allow-list has for it, less
    the revoked ones, tried in the list's order. */
module PeerKeys {
  import opened Bytes
  import opened Primitives
  import opened Transcript
  import opened Signatures
  import opened TextStore

  datatype AuthResult =
    | AuthOk | AuthOff | AuthErrArgs | AuthErrNoIdentity | AuthErrFormat | AuthErrVersion | AuthErrUnknownPeer
    | AuthErrSignature | AuthErrSkew | AuthErrReplay | AuthErrRevoked | AuthErrInternal

  /** The revocation state as one call sees it. An unusable list is one that did
      not load, or is older than the operator allows. */
  datatype RevView = RevView(configured: bool, usable: bool, points: seq<Octets>)

  predicate IsRevoked(v: RevView, point: Octets) {
    v.configured && (!v.usable || point in v.points)
  }

  /** The hub refuses everyone rather than run without the list it was given. */
  predicate FailsClosed(v: RevView) { v.configured && !v.usable }

  function Listed(allow: seq<Allow>, id: Octets): seq<Octets> {
    if allow == [] then []
    else
      var front, e := Listed(allow[..|allow| - 1], id), allow[|allow| - 1];
      if e.identity == id then front + [e.pub] else front
  }

  function Live(allow: seq<Allow>, id: Octets, v: RevView): seq<Octets> {
    if allow == [] then []
    else
      var front, e := Live(allow[..|allow| - 1], id, v), allow[|allow| - 1];
      if e.identity == id && !IsRevoked(v, e.pub) then front + [e.pub] else front
  }

  lemma {:induction false} LivePrefix(allow: seq<Allow>, id: Octets, v: RevView, n: nat)
    requires n <= |allow|
    ensures Live(allow[..n], id, v) <= Live(allow, id, v)
  {
    if n < |allow| {
      LivePrefix(allow[..|allow| - 1], id, v, n);
      assert allow[..|allow| - 1][..n] == allow[..n];
    } else {
      assert allow[..n] == allow;
    }
  }

  /** A live key is a listed key that is not revoked. */
  lemma {:induction false} LiveIs(allow: seq<Allow>, id: Octets, v: RevView)
    ensures forall k :: k in Live(allow, id, v) <==> k in Listed(allow, id) && !IsRevoked(v, k)
  {
    if allow != [] {
      LiveIs(allow[..|allow| - 1], id, v);
    }
  }

  /** The keys in order, until one that does not import or one that verifies. */
  function Try(keys: seq<Octets>, isPoint: Octets -> bool, log: seq<Signed>, sha: Sha, msg: Octets, sig: Octets): AuthResult {
    if keys == [] then AuthErrSignature
    else if !isPoint(keys[0]) then AuthErrInternal
    else if Verifies(log, sha, keys[0], msg, sig) then AuthOk
    else Try(keys[1..], isPoint, log, sha, msg, sig)
  }

  /** What verifying against an address comes to. */
  function PeerResult(allow: seq<Allow>, id: Octets, v: RevView, isPoint: Octets -> bool,
                      log: seq<Signed>, sha: Sha, msg: Octets, sig: Octets): AuthResult {
    if Listed(allow, id) == [] then AuthErrUnknownPeer
    else if Live(allow, id, v) == [] then AuthErrRevoked
    else Try(Live(allow, id, v), isPoint, log, sha, msg, sig)
  }

  lemma {:induction false} TryFinds(keys: seq<Octets>, isPoint: Octets -> bool, log: seq<Signed>, sha: Sha,
                                    msg: Octets, sig: Octets)
    ensures Try(keys, isPoint, log, sha, msg, sig).AuthOk? ==>
              exists k :: k in keys && isPoint(k) && Verifies(log, sha, k, msg, sig)
    ensures (forall k :: k in keys ==> isPoint(k)) ==>
              Try(keys, isPoint, log, sha, msg, sig)
              == if exists k :: k in keys && Verifies(log, sha, k, msg, sig) then AuthOk else AuthErrSignature
    ensures var r := Try(keys, isPoint, log, sha, msg, sig); r.AuthOk? || r.AuthErrSignature? || r.AuthErrInternal?
  {
    if keys != [] {
      TryFinds(keys[1..], isPoint, log, sha, msg, sig);
      assert keys == [keys[0]] + keys[1..];
    }
  }

  /** Success means a listed, unrevoked key verified; and when every listed key
      imports, any such key means success. */
  lemma AuthOkExactly(allow: seq<Allow>, id: Octets, v: RevView, isPoint: Octets -> bool,
                      log: seq<Signed>, sha: Sha, msg: Octets, sig: Octets)
    ensures var r := PeerResult(allow, id, v, isPoint, log, sha, msg, sig);
            && (r.AuthOk? ==> exists k :: k in Listed(allow, id) && !IsRevoked(v, k) && Verifies(log, sha, k, msg, sig))
            && ((forall k :: k in Listed(allow, id) ==> isPoint(k)) ==>
                  (r.AuthOk? <==> exists k :: k in Listed(allow, id) && !IsRevoked(v, k) && Verifies(log, sha, k, msg, sig)))
  {
    LiveIs(allow, id, v);
    var keys := Live(allow, id, v);
    TryFinds(keys, isPoint, log, sha, msg, sig);
    if exists k :: k in Listed(allow, id) && !IsRevoked(v, k) && Verifies(log, sha, k, msg, sig) {
      var k :| k in Listed(allow, id) && !IsRevoked(v, k) && Verifies(log, sha, k, msg, sig);
      assert k in keys;
    }
  }

  /** "Revoked" is said exactly when keys are listed and none of them is live. */
  lemma AuthErrRevokedExactly(allow: seq<Allow>, id: Octets, v: RevView, isPoint: Octets -> bool,
                              log: seq<Signed>, sha: Sha, msg: Octets, sig: Octets)
    ensures PeerResult(allow, id, v, isPoint, log, sha, msg, sig).AuthErrRevoked? <==>
            Listed(allow, id) != [] && forall k :: k in Listed(allow, id) ==> IsRevoked(v, k)
  {
    LiveIs(allow, id, v);
    TryFinds(Live(allow, id, v), isPoint, log, sha, msg, sig);
    if Live(allow, id, v) != [] {
      assert Live(allow, id, v)[0] in Live(allow, id, v);
    }
  }

  /** Under a list that is configured and unusable no signature is accepted. */
  lemma {:induction false} NothingWhileClosed(allow: seq<Allow>, id: Octets, v: RevView, isPoint: Octets -> bool,
                           log: seq<Signed>, sha: Sha, msg: Octets, sig: Octets)
    requires FailsClosed(v)
    ensures Live(allow, id, v) == []
    ensures !PeerResult(allow, id, v, isPoint, log, sha, msg, sig).AuthOk?
  {
    if allow != [] {
      NothingWhileClosed(allow[..|allow| - 1], id, v, isPoint, log, sha, msg, sig);
    }
  }
}
