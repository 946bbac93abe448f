/** Signatures, idealised: one verifies exactly when it is in the log of what was
    signed, and no two entries of the log share a signature. */
module Signatures {
  import opened Bytes
  import opened Primitives
  import opened Transcript

  datatype Signed = Signed(key: Octets, statement: Statement, sig: Octets)

  predicate Verifies(log: seq<Signed>, sha: Sha, key: Octets, msg: Octets, sig: Octets) {
    exists i :: 0 <= i < |log| && Made(log[i], sha, key, msg, sig)
  }

  predicate Made(s: Signed, sha: Sha, key: Octets, msg: Octets, sig: Octets) {
    s.key == key && s.sig == sig && Signable(s.statement, sha) == msg
  }

  ghost predicate DistinctSigs(log: seq<Signed>) {
    forall i, j :: 0 <= i < j < |log| ==> log[i].sig != log[j].sig
  }

  ghost predicate AllWellFormed(log: seq<Signed>) {
    forall i :: 0 <= i < |log| ==> WellFormed(log[i].statement)
  }

  lemma VerifiesStill(log: seq<Signed>, more: seq<Signed>, sha: Sha, key: Octets, msg: Octets, sig: Octets)
    requires Verifies(log, sha, key, msg, sig)
    ensures Verifies(log + more, sha, key, msg, sig)
  {
    var i :| 0 <= i < |log| && Made(log[i], sha, key, msg, sig);
    assert (log + more)[i] == log[i];
  }

  /** A statement this hub verified: under which key, by which signature, when. */
  datatype Verified = Verified(st: Statement, key: Octets, sig: Octets, now: int)

  ghost predicate Checked(log: seq<Signed>, sha: Sha, v: Verified) {
    Verifies(log, sha, v.key, Signable(v.st, sha), v.sig)
  }

  /** Agreement: what verified as a statement was signed as that statement, by the
      holder of the key; only a relayed body or an entry array can differ, and then
      by a collision of the hash. */
  lemma VerifiedWasSigned(log: seq<Signed>, sha: Sha, v: Verified) returns (i: nat)
    requires IsSha(sha) && AllWellFormed(log) && WellFormed(v.st) && Checked(log, sha, v)
    ensures i < |log| && log[i].key == v.key && log[i].sig == v.sig
    ensures log[i].statement == v.st || HashCollision(log[i].statement, v.st, sha)
    ensures v.st.Login? || v.st.Ack? ==> log[i].statement == v.st
  {
    i :| 0 <= i < |log| && Made(log[i], sha, v.key, Signable(v.st, sha), v.sig);
    SignableInjective(log[i].statement, v.st, sha);
  }

  /** One signature covers one stamp. */
  lemma OneSignatureOneStamp(log: seq<Signed>, sha: Sha, v: Verified, u: Verified)
    requires IsSha(sha) && AllWellFormed(log) && DistinctSigs(log)
    requires WellFormed(v.st) && Checked(log, sha, v) && WellFormed(u.st) && Checked(log, sha, u)
    requires v.sig == u.sig && v.st.Relay? && u.st.Relay?
    ensures v.st.ts == u.st.ts && v.key == u.key
  {
    var i := VerifiedWasSigned(log, sha, v);
    var j := VerifiedWasSigned(log, sha, u);
    assert i == j;
  }

  class SignLog {
    const sha: Sha
    var signed: seq<Signed>

    ghost predicate Valid()
      reads this
    {
      IsSha(sha) && DistinctSigs(signed) && forall i :: 0 <= i < |signed| ==> |signed[i].sig| == SIG_LEN
    }

    constructor (sha: Sha)
      requires IsSha(sha)
      ensures Valid() && signed == [] && this.sha == sha
    {
      this.sha := sha;
      signed := [];
    }

    /** A signature nobody made before, or a failure. */
    method Sign(key: Octets, statement: Statement) returns (ok: bool, sig: Octets)
      requires Valid()
      modifies this
      ensures Valid()
      ensures signed == if ok then old(signed) + [Signed(key, statement, sig)] else old(signed)
      ensures ok ==> |sig| == SIG_LEN
    {
      sig := *;
      ok := |sig| == SIG_LEN && forall i :: 0 <= i < |signed| ==> signed[i].sig != sig;
      if ok {
        signed := signed + [Signed(key, statement, sig)];
      }
    }
  }
}
