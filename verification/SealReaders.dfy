/** Who can open a sealed body: the destination and the readers the operator named,
    each by the first agreement key the allow-list still has for it. */
module SealReaders {
  import opened Bytes
  import opened Utf8
  import opened TextStore
  import opened PeerKeys

  datatype SealResult =
    | SealOk | SealErrArgs | SealErrNoIdentity | SealErrNoAgreement | SealErrFormat | SealErrSignature | SealErrTag
    | SealErrRevoked | SealErrInternal | SealErrReplay | SealErrVersion | SealErrStale | SealErrReaders

  /** An entry of this address whose agreement key can still be sealed to. */
  predicate Offers(e: Allow, id: Octets, v: RevView) {
    e.identity == id && e.agree.Some? && !IsRevoked(v, e.agree.value)
  }

  function Agreement(allow: seq<Allow>, id: Octets, v: RevView): Option<Octets> {
    if allow == [] then None
    else
      var front, e := Agreement(allow[..|allow| - 1], id, v), allow[|allow| - 1];
      if front.Some? then front else if Offers(e, id, v) then e.agree else None
  }

  /** The agreement key is that of the first entry that offers one; there is none
      exactly when no entry does. */
  lemma {:induction false} AgreementIs(allow: seq<Allow>, id: Octets, v: RevView)
    ensures Agreement(allow, id, v).None? <==> forall i :: 0 <= i < |allow| ==> !Offers(allow[i], id, v)
    ensures Agreement(allow, id, v).Some? ==>
              exists i :: 0 <= i < |allow| && Offers(allow[i], id, v) && allow[i].agree == Agreement(allow, id, v)
                          && forall j :: 0 <= j < i ==> !Offers(allow[j], id, v)
  {
    if allow != [] {
      var front := allow[..|allow| - 1];
      AgreementIs(front, id, v);
      assert forall i :: 0 <= i < |front| ==> allow[i] == front[i];
    }
  }

  lemma {:induction false} AgreementPrefix(allow: seq<Allow>, id: Octets, v: RevView, n: nat)
    requires n <= |allow| && Agreement(allow[..n], id, v).Some?
    ensures Agreement(allow, id, v) == Agreement(allow[..n], id, v)
  {
    if n < |allow| {
      assert allow[..|allow| - 1][..n] == allow[..n];
      AgreementPrefix(allow[..|allow| - 1], id, v, n);
    } else {
      assert allow[..n] == allow;
    }
  }

  function ReaderKey(allow: seq<Allow>, w: Width, v: RevView, name: Wide): Option<Octets> {
    match Utf8Of(name, w)
    case None => None
    case Some(id) => Agreement(allow, id, v)
  }

  datatype Gathered = Keys(keys: seq<Octets>) | Missing(name: Wide)

  /** The destination's key, then the named readers' in their order, none twice. */
  function Gather(allow: seq<Allow>, w: Width, v: RevView, first: Octets, names: seq<Wide>): Gathered {
    if names == [] then Keys([first])
    else
      var name := names[|names| - 1];
      match Gather(allow, w, v, first, names[..|names| - 1])
      case Missing(n) => Missing(n)
      case Keys(keys) =>
        match ReaderKey(allow, w, v, name)
        case None => Missing(name)
        case Some(k) => if k in keys then Keys(keys) else Keys(keys + [k])
  }

  ghost predicate Distinct(keys: seq<Octets>) { forall i, j :: 0 <= i < j < |keys| ==> keys[i] != keys[j] }

  /** A body is sealed to the destination first and to nobody twice; only when some
      reader has no key is it sealed to nobody at all. */
  lemma {:induction false} GatherShape(allow: seq<Allow>, w: Width, v: RevView, first: Octets, names: seq<Wide>)
    ensures match Gather(allow, w, v, first, names)
            case Keys(keys) => 1 <= |keys| <= 1 + |names| && keys[0] == first && Distinct(keys)
            case Missing(name) => name in names && ReaderKey(allow, w, v, name).None?
  {
    hide ReaderKey;
    if names != [] {
      GatherShape(allow, w, v, first, names[..|names| - 1]);
    }
  }

  /** It is sealed to the destination and every named reader, and to nobody else. */
  lemma {:induction false} GatherIs(allow: seq<Allow>, w: Width, v: RevView, first: Octets, names: seq<Wide>)
    ensures match Gather(allow, w, v, first, names)
            case Keys(keys) =>
              && (forall i :: 0 <= i < |names| ==> ReaderKey(allow, w, v, names[i]).Some?)
              && (forall k :: k in keys <==>
                    k == first || exists i :: 0 <= i < |names| && ReaderKey(allow, w, v, names[i]) == Some(k))
            case Missing(_) => true
  {
    hide ReaderKey;
    if names != [] {
      var front := names[..|names| - 1];
      GatherIs(allow, w, v, first, front);
      assert forall i :: 0 <= i < |front| ==> names[i] == front[i];
    }
  }

  /** No reader's key is a revoked one. */
  lemma ReaderNotRevoked(allow: seq<Allow>, w: Width, v: RevView, name: Wide)
    ensures ReaderKey(allow, w, v, name).Some? ==> !IsRevoked(v, ReaderKey(allow, w, v, name).value)
  {
    if Utf8Of(name, w).Some? {
      AgreementIs(allow, Utf8Of(name, w).value, v);
    }
  }

  /** Why an address has no key: withdrawn by the operator, or never published. */
  function Unresolved(allow: seq<Allow>, w: Width, v: RevView, name: Wide): SealResult {
    if FailsClosed(v) then SealErrRevoked
    else
      match Utf8Of(name, w)
      case None => SealErrNoAgreement
      case Some(id) => if Listed(allow, id) != [] && Live(allow, id, v) == [] then SealErrRevoked else SealErrNoAgreement
  }
}
