/** HKDF over HMAC-SHA256 (RFC 5869). HMAC is a parameter that may fail, as the
    platform call behind it may. */
module Hkdf {
  import opened Bytes

  type Block = b: Octets | |b| == 32 witness Repeated(0, 32)

  type Hmac = (Octets, Octets) -> Option<Block>

  const ZERO_SALT: Octets := Repeated(0, 32)

  /** Section 2.2: an absent salt is a block of zeros. */
  function SaltOf(salt: Option<Octets>): Octets {
    if salt.Some? && salt.value != [] then salt.value else ZERO_SALT
  }

  function InfoOf(info: Option<Octets>): Octets {
    if info.Some? then info.value else []
  }

  function Extract(hmac: Hmac, salt: Option<Octets>, ikm: Octets): Option<Block> {
    hmac(SaltOf(salt), ikm)
  }

  /** Section 2.3: T(i), with T(0) empty. */
  function T(hmac: Hmac, prk: Octets, info: Octets, i: nat): (r: Option<Octets>)
    requires i <= 255
    ensures r.Some? ==> |r.value| == if i == 0 then 0 else 32
  {
    if i == 0 then Some([])
    else
      match T(hmac, prk, info, i - 1)
      case None => None
      case Some(t) =>
        match hmac(prk, t + info + [i])
        case None => None
        case Some(b) => Some(b)
  }

  /** T(1) | T(2) | ... | T(n). */
  function Stream(hmac: Hmac, prk: Octets, info: Octets, n: nat): (r: Option<Octets>)
    requires n <= 255
    ensures r.Some? ==> |r.value| == 32 * n
  {
    if n == 0 then Some([])
    else
      match Stream(hmac, prk, info, n - 1)
      case None => None
      case Some(s) =>
        match T(hmac, prk, info, n)
        case None => None
        case Some(t) => Some(s + t)
  }

  function Blocks(length: nat): nat { (length + 31) / 32 }

  /** The output of the standard, when there is one. */
  function Okm(hmac: Hmac, salt: Option<Octets>, ikm: Octets, info: Octets, length: nat): (r: Option<Octets>)
    ensures r.Some? ==> |r.value| == length
  {
    if length > 255 * 32 then None
    else
      match Extract(hmac, salt, ikm)
      case None => None
      case Some(prk) =>
        match Stream(hmac, prk, info, Blocks(length))
        case None => None
        case Some(s) => Some(s[..length])
  }

  ghost predicate Total(hmac: Hmac) { forall k, d :: hmac(k, d).Some? }

  lemma {:induction false} TotalT(hmac: Hmac, prk: Octets, info: Octets, i: nat)
    requires Total(hmac) && i <= 255
    ensures T(hmac, prk, info, i).Some?
  {
    if i > 0 {
      TotalT(hmac, prk, info, i - 1);
    }
  }

  lemma {:induction false} TotalStream(hmac: Hmac, prk: Octets, info: Octets, n: nat)
    requires Total(hmac) && n <= 255
    ensures Stream(hmac, prk, info, n).Some?
  {
    if n > 0 {
      TotalStream(hmac, prk, info, n - 1);
      TotalT(hmac, prk, info, n);
    }
  }

  /** With an HMAC that never fails the length is the only thing that can. */
  lemma OkmExists(hmac: Hmac, salt: Option<Octets>, ikm: Octets, info: Octets, length: nat)
    requires Total(hmac)
    ensures Okm(hmac, salt, ikm, info, length).Some? <==> length <= 255 * 32
  {
    if length <= 255 * 32 {
      TotalStream(hmac, Extract(hmac, salt, ikm).value, info, Blocks(length));
    }
  }

  lemma {:induction false} StreamPrefix(hmac: Hmac, prk: Octets, info: Octets, m: nat, n: nat)
    requires m <= n <= 255 && Stream(hmac, prk, info, n).Some?
    ensures Stream(hmac, prk, info, m).Some?
    ensures Stream(hmac, prk, info, m).value <= Stream(hmac, prk, info, n).value
    decreases n
  {
    if m < n {
      StreamPrefix(hmac, prk, info, m, n - 1);
    }
  }

  /** Asking for less output gives the front of the longer output. */
  lemma ShorterIsPrefix(hmac: Hmac, salt: Option<Octets>, ikm: Octets, info: Octets, short: nat, long: nat)
    requires short <= long && Okm(hmac, salt, ikm, info, long).Some?
    ensures Okm(hmac, salt, ikm, info, short).Some?
    ensures Okm(hmac, salt, ikm, info, short).value <= Okm(hmac, salt, ikm, info, long).value
  {
    StreamPrefix(hmac, Extract(hmac, salt, ikm).value, info, Blocks(short), Blocks(long));
  }

  /** One more block of the expansion. */
  lemma NextBlock(hmac: Hmac, prk: Octets, info: Octets, i: nat, t: Octets)
    requires 1 <= i <= 255 && T(hmac, prk, info, i - 1) == Some(t) && Stream(hmac, prk, info, i - 1).Some?
    ensures match hmac(prk, t + info + [i])
            case None => Stream(hmac, prk, info, i).None?
            case Some(b) => T(hmac, prk, info, i) == Some(b)
                            && Stream(hmac, prk, info, i) == Some(Stream(hmac, prk, info, i - 1).value + b)
  {
  }

  /** A block that fails leaves no output. */
  lemma NoOutput(hmac: Hmac, prk: Octets, info: Octets, i: nat, n: nat)
    requires i <= n <= 255 && Stream(hmac, prk, info, i).None?
    ensures Stream(hmac, prk, info, n).None?
  {
    if Stream(hmac, prk, info, n).Some? {
      StreamPrefix(hmac, prk, info, i, n);
    }
  }

  /** The whole buffer is the stream, cut to its length. */
  ghost predicate Filled(hmac: Hmac, prk: Octets, info: Octets, i: nat, t: Octets, front: Octets)
    requires i <= 255
  {
    T(hmac, prk, info, i) == Some(t) && Stream(hmac, prk, info, i).Some? && front <= Stream(hmac, prk, info, i).value
  }

  lemma FilledMore(hmac: Hmac, prk: Octets, info: Octets, i: nat, t: Octets, front: Octets, b: Block, n: nat)
    requires 1 <= i <= 255 && Filled(hmac, prk, info, i - 1, t, front) && |front| == 32 * (i - 1)
    requires hmac(prk, t + info + [i]) == Some(b) && n <= 32
    ensures Filled(hmac, prk, info, i, b, front + b[..n])
  {
    NextBlock(hmac, prk, info, i, t);
    hide T, Stream;
    assert front == Stream(hmac, prk, info, i - 1).value;
  }

  lemma ExpandFails(hmac: Hmac, prk: Octets, info: Octets, i: nat, t: Octets, front: Octets, length: nat)
    requires 1 <= i <= 255 && Filled(hmac, prk, info, i - 1, t, front) && hmac(prk, t + info + [i]).None?
    requires i <= Blocks(length)
    ensures length <= 255 * 32 ==> Stream(hmac, prk, info, Blocks(length)).None?
  {
    NextBlock(hmac, prk, info, i, t);
    if length <= 255 * 32 {
      NoOutput(hmac, prk, info, i, Blocks(length));
    }
  }

  lemma FilledIsOkm(hmac: Hmac, prk: Octets, info: Octets, i: nat, t: Octets, out: Octets)
    requires i <= 255 && i == Blocks(|out|) && Filled(hmac, prk, info, i, t, out)
    ensures Stream(hmac, prk, info, i).Some? && out == Stream(hmac, prk, info, i).value[..|out|]
  {
  }

  /** Extract, then the expand loop filling the caller's buffer. */
  method HkdfSha256(hmac: Hmac, ikm: Octets, pSalt: Option<Octets>, pInfo: Option<Octets>, okm: array<byte>)
    returns (ok: bool)
    modifies okm
    ensures ok <==> Okm(hmac, pSalt, ikm, InfoOf(pInfo), okm.Length).Some?
    ensures ok ==> okm[..] == Okm(hmac, pSalt, ikm, InfoOf(pInfo), okm.Length).value
  {
    var salt := if pSalt.Some? && pSalt.value != [] then pSalt.value else ZERO_SALT;
    var extracted := hmac(salt, ikm);
    if extracted.None? {
      return false;
    }
    var prk := extracted.value;
    var t: Octets := [];
    var done, counter := 0, 1;
    ghost var info := InfoOf(pInfo);
    assert Filled(hmac, prk, info, 0, t, okm[..0]);
    hide T, Stream, Filled;
    while done < okm.Length
      invariant 1 <= counter <= 256 && counter - 1 <= Blocks(okm.Length)
      invariant done == if 32 * (counter - 1) < okm.Length then 32 * (counter - 1) else okm.Length
      invariant Filled(hmac, prk, info, counter - 1, t, okm[..done])
      decreases 256 - counter
    {
      if counter > 255 {
        return false;
      }
      var block := t;
      if pInfo.Some? {
        block := block + pInfo.value;
      }
      block := block + [counter];
      assert block == t + info + [counter];
      var mac := hmac(prk, block);
      if mac.None? {
        ExpandFails(hmac, prk, info, counter, t, okm[..done], okm.Length);
        return false;
      }
      var n := if okm.Length - done < 32 then okm.Length - done else 32;
      FilledMore(hmac, prk, info, counter, t, okm[..done], mac.value, n);
      t := mac.value;
      done := Put(okm, done, t[..n]);
      counter := counter + 1;
    }
    FilledIsOkm(hmac, prk, info, counter - 1, t, okm[..]);
    return true;
  }
}
