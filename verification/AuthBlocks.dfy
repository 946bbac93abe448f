/** The wire blocks of login, ack and relay. */
module AuthBlocks {
  import opened Bytes
  import opened Primitives
  import opened PeerKeys

  const MAGIC := Ascii("PA")
  const VERSION := 2
  const RELAY_MAGIC := Ascii("PR")
  const RELAY_VERSION := 1
  const LOGIN_LEN := 91
  const ACK_LEN := 67
  const OFF_NONCE := 3
  const OFF_TS := 19
  const OFF_SIG := 27
  const OFF_ACK_SIG := 3
  const RELAY_FIXED_LEN := 77
  const ATTESTER_MAX := 255
  const OFF_RELAY_ADDR := 5

  function LoginBlock(nonce: Octets, ts: int, sig: Octets): Octets {
    MAGIC + [VERSION] + nonce + I64(ts) + sig
  }

  function AckBlock(sig: Octets): Octets { MAGIC + [VERSION] + sig }

  function RelayBlock(attester: Octets, ts: int, sig: Octets): Octets {
    RELAY_MAGIC + [RELAY_VERSION] + U16(|attester|) + attester + I64(ts) + sig
  }

  /** The header check login and ack share. */
  function HeaderOf(b: Octets): AuthResult
    requires |b| >= 3
  {
    if b[..2] != MAGIC then AuthErrFormat
    else if b[2] != VERSION then AuthErrVersion
    else AuthOk
  }

  function NonceIn(b: Octets): (r: Octets)
    requires |b| >= LOGIN_LEN
    ensures |r| == NONCE_LEN
  {
    b[OFF_NONCE..OFF_TS]
  }

  function TsIn(b: Octets): (r: int)
    requires |b| >= LOGIN_LEN
    ensures IsI64(r)
  {
    FromI64RoundTrip(b[OFF_TS..OFF_SIG]);
    FromI64(b[OFF_TS..OFF_SIG])
  }

  function SigIn(b: Octets): (r: Octets)
    requires |b| >= LOGIN_LEN
    ensures |r| == SIG_LEN
  {
    b[OFF_SIG..LOGIN_LEN]
  }

  function AckSigIn(b: Octets): (r: Octets)
    requires |b| >= ACK_LEN
    ensures |r| == SIG_LEN
  {
    b[OFF_ACK_SIG..ACK_LEN]
  }

  /** The attester length is checked against the block before it addresses it. */
  function RelayShape(b: Octets): AuthResult {
    if |b| < RELAY_FIXED_LEN || b[..2] != RELAY_MAGIC then AuthErrFormat
    else if b[2] != RELAY_VERSION then AuthErrVersion
    else
      var n := 256 * b[3] as int + b[4] as int;
      if n == 0 || n > ATTESTER_MAX || |b| < RELAY_FIXED_LEN + n then AuthErrFormat else AuthOk
  }

  function AttesterLen(b: Octets): (n: nat)
    requires RelayShape(b).AuthOk?
    ensures 1 <= n <= ATTESTER_MAX && |b| >= RELAY_FIXED_LEN + n
  {
    256 * b[3] as int + b[4] as int
  }

  function AttesterIn(b: Octets): (r: Octets)
    requires RelayShape(b).AuthOk?
    ensures |r| == AttesterLen(b)
  {
    b[OFF_RELAY_ADDR..OFF_RELAY_ADDR + AttesterLen(b)]
  }

  function RelayTsIn(b: Octets): (r: int)
    requires RelayShape(b).AuthOk?
    ensures IsI64(r)
  {
    var o := OFF_RELAY_ADDR + AttesterLen(b);
    FromI64RoundTrip(b[o..o + 8]);
    FromI64(b[o..o + 8])
  }

  function RelaySigIn(b: Octets): (r: Octets)
    requires RelayShape(b).AuthOk?
    ensures |r| == SIG_LEN
  {
    var o := OFF_RELAY_ADDR + AttesterLen(b) + 8;
    b[o..o + SIG_LEN]
  }

  /** Reading a login block gives back what was written, trailing octets aside. */
  lemma LoginRoundTrip(nonce: Octets, ts: int, sig: Octets, rest: Octets)
    requires |nonce| == NONCE_LEN && IsI64(ts) && |sig| == SIG_LEN
    ensures var b := LoginBlock(nonce, ts, sig) + rest;
            |b| >= LOGIN_LEN && HeaderOf(b).AuthOk? && NonceIn(b) == nonce && TsIn(b) == ts && SigIn(b) == sig
  {
    var b := LoginBlock(nonce, ts, sig) + rest;
    assert b[..2] == MAGIC && b[OFF_NONCE..OFF_TS] == nonce;
    assert b[OFF_TS..OFF_SIG] == I64(ts) && b[OFF_SIG..LOGIN_LEN] == sig;
    I64RoundTrip(ts);
  }

  lemma RelayParts(attester: Octets, ts: int, sig: Octets, rest: Octets)
    requires 1 <= |attester| <= ATTESTER_MAX && |sig| == SIG_LEN
    ensures var b := RelayBlock(attester, ts, sig) + rest;
            var o := OFF_RELAY_ADDR + |attester|;
            && |b| == RELAY_FIXED_LEN + |attester| + |rest| && b[..2] == RELAY_MAGIC && b[2] == RELAY_VERSION
            && b[3] == 0 && b[4] == |attester|
            && b[OFF_RELAY_ADDR..o] == attester && b[o..o + 8] == I64(ts) && b[o + 8..o + 8 + SIG_LEN] == sig
  {
  }

  /** The same for a relay block, for every attester length from 1 to 255. */
  lemma RelayRoundTrip(attester: Octets, ts: int, sig: Octets, rest: Octets)
    requires 1 <= |attester| <= ATTESTER_MAX && IsI64(ts) && |sig| == SIG_LEN
    ensures var b := RelayBlock(attester, ts, sig) + rest;
            RelayShape(b).AuthOk? && AttesterIn(b) == attester && RelayTsIn(b) == ts && RelaySigIn(b) == sig
  {
    RelayParts(attester, ts, sig, rest);
    I64RoundTrip(ts);
  }

  /** The stores of a login block into the caller's buffer. */
  method WriteLogin(p: array<byte>, nonce: Octets, ts: int, sig: Octets)
    requires p.Length >= LOGIN_LEN && |nonce| == NONCE_LEN && |sig| == SIG_LEN
    modifies p
    ensures p[..LOGIN_LEN] == LoginBlock(nonce, ts, sig)
  {
    assert p[..0] == [];
    var at := Put(p, 0, MAGIC);
    at := Put(p, at, [VERSION]);
    at := Put(p, at, nonce);
    PutI64(p, at, ts);
    assert p[..at + 8] == MAGIC + [VERSION] + nonce + I64(ts);
    at := Put(p, at + 8, sig);
  }

  method WriteAck(p: array<byte>, sig: Octets)
    requires p.Length >= ACK_LEN && |sig| == SIG_LEN
    modifies p
    ensures p[..ACK_LEN] == AckBlock(sig)
  {
    assert p[..0] == [];
    var at := Put(p, 0, MAGIC);
    at := Put(p, at, [VERSION]);
    at := Put(p, at, sig);
  }

  method WriteRelay(p: array<byte>, attester: Octets, ts: int, sig: Octets)
    requires 1 <= |attester| <= ATTESTER_MAX && |sig| == SIG_LEN
    requires p.Length >= RELAY_FIXED_LEN + |attester|
    modifies p
    ensures p[..RELAY_FIXED_LEN + |attester|] == RelayBlock(attester, ts, sig)
  {
    assert p[..0] == [];
    var at := Put(p, 0, RELAY_MAGIC);
    at := Put(p, at, [RELAY_VERSION]);
    at := Put(p, at, [|attester| / 256 % 256, |attester| % 256]);
    at := Put(p, at, attester);
    ghost var front := p[..at];
    PutI64(p, at, ts);
    assert p[..at + 8] == front + I64(ts);
    at := Put(p, at + 8, sig);
  }
}
