/** The private-key container: a 48-octet header holding a magic for the kind of
    key, a version, the protection, the payload length and a digest, then the
    payload. */
module KeyContainer {
  import opened Bytes
  import opened Primitives
  import opened TextStore

  datatype KeyKind = KindIdentity | KindAgreement

  datatype Protection = PlainBlob | DpapiMachine | DpapiUser | External

  const HEADER_LEN := 48
  const MAX_PAYLOAD := 64 * 1024
  const VERSION := 1

  function Magic(kind: KeyKind): (r: Octets)
    ensures |r| == 8
  {
    match kind
    case KindIdentity => Ascii("P2PIDKY") + [0x1A]
    case KindAgreement => Ascii("P2PAGKY") + [0x1A]
  }

  function Code(p: Protection): nat {
    match p
    case PlainBlob => 0
    case DpapiMachine => 1
    case DpapiUser => 2
    case External => 3
  }

  /** Two and four octets, least significant first. */
  function LE16(v: nat): (r: Octets)
    ensures |r| == 2
  {
    [v % 256, v / 256 % 256]
  }

  function LE32(v: nat): (r: Octets)
    ensures |r| == 4
  {
    [v % 256, v / 256 % 256, v / 65536 % 256, v / 16777216 % 256]
  }

  function FromLE16(b: Octets): nat
    requires |b| == 2
  {
    var b0: int, b1: int := b[0], b[1];
    b0 + 256 * b1
  }

  function FromLE32(b: Octets): nat
    requires |b| == 4
  {
    var b0: int, b1: int, b2: int, b3: int := b[0], b[1], b[2], b[3];
    b0 + 256 * b1 + 65536 * b2 + 16777216 * b3
  }

  lemma LE16RoundTrip(b: Octets, v: nat)
    requires |b| == 2 && v < 0x10000
    ensures FromLE16(b) == v <==> b == LE16(v)
  {
  }

  lemma LE32RoundTrip(b: Octets, v: nat)
    requires |b| == 4 && v < 0x1000000
    ensures FromLE32(b) == v <==> b == LE32(v)
  {
    var b0: int, b1: int, b2: int, b3: int := b[0], b[1], b[2], b[3];
    if FromLE32(b) == v {
      assert v % 256 == b0;
      assert v / 256 == b1 + 256 * b2 + 65536 * b3;
      assert v / 65536 == b2 + 256 * b3;
      assert v / 16777216 == b3;
    }
    if b == LE32(v) {
      assert v == v % 256 + 256 * (v / 256 % 256) + 65536 * (v / 65536 % 256) + 16777216 * (v / 16777216 % 256);
    }
  }

  function Header(p: Protection, kind: KeyKind, length: nat): (r: Octets)
    ensures |r| == 16
  {
    Magic(kind) + LE16(VERSION) + LE16(Code(p)) + LE32(length)
  }

  /** The one file that holds `payload` under this kind and protection. */
  function Container(sha: Sha, p: Protection, kind: KeyKind, payload: Octets): Octets {
    Header(p, kind, |payload|) + sha(Header(p, kind, |payload|) + payload) + payload
  }

  predicate PayloadOk(payload: Octets) { 0 < |payload| <= MAX_PAYLOAD }

  method BuildContainer(sha: Sha, p: Protection, kind: KeyKind, payload: Octets) returns (r: IdResult, out: Octets)
    ensures r == if PayloadOk(payload) then IdOk else IdErrArgs
    ensures r.IdOk? ==> out == Container(sha, p, kind, payload)
  {
    if payload == [] || |payload| > MAX_PAYLOAD {
      return IdErrArgs, [];
    }
    out := Magic(kind);
    out := out + LE16(VERSION);
    out := out + LE16(Code(p));
    out := out + LE32(|payload|);
    var digest := sha(out + payload);
    out := out + digest;
    out := out + payload;
    r := IdOk;
  }

  /** A file is split into the four header fields, the digest and the payload. */
  predicate Splits(sha: Sha, file: Octets, p: Protection, kind: KeyKind, payload: Octets) {
    && |file| == HEADER_LEN + |payload|
    && file[..8] == Magic(kind) && file[8..10] == LE16(VERSION) && file[10..12] == LE16(Code(p))
    && file[12..16] == LE32(|payload|) && file[HEADER_LEN..] == payload
    && file[16..HEADER_LEN] == sha(file[..16] + payload)
  }

  lemma SplitIsContainer(sha: Sha, file: Octets, p: Protection, kind: KeyKind, payload: Octets)
    requires Splits(sha, file, p, kind, payload)
    ensures file == Container(sha, p, kind, payload)
  {
    var h := file[..16];
    assert h == file[..8] + file[8..10] + file[10..12] + file[12..16];
    assert h == Header(p, kind, |payload|);
    assert file == h + file[16..HEADER_LEN] + file[HEADER_LEN..];
  }

  lemma HeaderFields(p: Protection, kind: KeyKind, length: nat)
    ensures var h := Header(p, kind, length);
            h[..8] == Magic(kind) && h[8..10] == LE16(VERSION) && h[10..12] == LE16(Code(p)) && h[12..16] == LE32(length)
  {
  }

  lemma ThreeParts(a: Octets, b: Octets, c: Octets)
    ensures var f := a + b + c; f[..|a|] == a && f[|a|..|a| + |b|] == b && f[|a| + |b|..] == c
  {
  }

  lemma InnerSlice(file: Octets, h: Octets, i: nat, j: nat)
    requires i <= j <= |h| <= |file| && file[..|h|] == h
    ensures file[i..j] == h[i..j]
  {
    forall k | 0 <= k < j - i
      ensures file[i..j][k] == h[i..j][k]
    {
      assert file[i + k] == file[..|h|][i + k];
    }
  }

  lemma ContainerSplits(sha: Sha, p: Protection, kind: KeyKind, payload: Octets)
    requires IsSha(sha)
    ensures Splits(sha, Container(sha, p, kind, payload), p, kind, payload)
  {
    var h := Header(p, kind, |payload|);
    var digest := sha(h + payload);
    var file := h + digest + payload;
    ThreeParts(h, digest, payload);
    HeaderFields(p, kind, |payload|);
    InnerSlice(file, h, 0, 8);
    InnerSlice(file, h, 8, 10);
    InnerSlice(file, h, 10, 12);
    InnerSlice(file, h, 12, 16);
  }

  lemma SplitsIsContainer(sha: Sha, file: Octets, p: Protection, kind: KeyKind, payload: Octets)
    requires IsSha(sha)
    ensures Splits(sha, file, p, kind, payload) <==> file == Container(sha, p, kind, payload)
  {
    ContainerSplits(sha, p, kind, payload);
    if Splits(sha, file, p, kind, payload) {
      SplitIsContainer(sha, file, p, kind, payload);
    }
  }

  /** A container tells everything it was built from, the kind of key included. */
  lemma ContainerInjective(sha: Sha, p: Protection, kind: KeyKind, payload: Octets,
                           q: Protection, other: KeyKind, blob: Octets)
    requires IsSha(sha) && Container(sha, p, kind, payload) == Container(sha, q, other, blob)
    ensures p == q && kind == other && payload == blob
  {
    var file := Container(sha, p, kind, payload);
    SplitsIsContainer(sha, file, p, kind, payload);
    SplitsIsContainer(sha, file, q, other, blob);
    assert file[..8][3] == Magic(kind)[3] == Magic(other)[3];
    assert file[10..12][0] == LE16(Code(p))[0] == LE16(Code(q))[0];
  }

  /** Accepted exactly when the file is the container of the protection and
      payload returned; so never when truncated, extended, altered, or holding the
      other kind of key. */
  method ParseContainer(sha: Sha, file: Octets, kind: KeyKind) returns (r: IdResult, p: Protection, payload: Octets)
    requires IsSha(sha)
    ensures r.IdOk? ==> PayloadOk(payload) && file == Container(sha, p, kind, payload)
    ensures (exists q, blob :: PayloadOk(blob) && file == Container(sha, q, kind, blob)) ==> r.IdOk?
    ensures r.IdErrVersion? ==> Magic(kind) <= file
    ensures r.IdOk? || r.IdErrFormat? || r.IdErrVersion? || r.IdErrIntegrity?
  {
    p, payload := PlainBlob, [];
    forall q, blob
      ensures Splits(sha, file, q, kind, blob) <==> file == Container(sha, q, kind, blob)
    {
      SplitsIsContainer(sha, file, q, kind, blob);
    }
    if |file| < HEADER_LEN {
      return IdErrFormat, p, payload;
    }
    if file[..8] != Magic(kind) {
      return IdErrFormat, p, payload;
    }
    var version, code, claim := FromLE16(file[8..10]), FromLE16(file[10..12]), FromLE32(file[12..16]);
    LE16RoundTrip(file[8..10], VERSION);
    if version != VERSION {
      return IdErrVersion, p, payload;
    }
    forall q: Protection
      ensures code == Code(q) <==> file[10..12] == LE16(Code(q))
    {
      LE16RoundTrip(file[10..12], Code(q));
    }
    if code == 0 {
      p := PlainBlob;
    } else if code == 1 {
      p := DpapiMachine;
    } else if code == 2 {
      p := DpapiUser;
    } else if code == 3 {
      p := External;
    } else {
      return IdErrFormat, p, payload;
    }
    forall n: nat | n <= MAX_PAYLOAD
      ensures claim == n <==> file[12..16] == LE32(n)
    {
      LE32RoundTrip(file[12..16], n);
    }
    if claim == 0 || claim > MAX_PAYLOAD {
      return IdErrFormat, p, payload;
    }
    if |file| != HEADER_LEN + claim {
      return IdErrFormat, p, payload;
    }
    var blob := file[HEADER_LEN..];
    if sha(file[..16] + blob) != file[16..HEADER_LEN] {
      return IdErrIntegrity, p, payload;
    }
    assert Splits(sha, file, p, kind, blob);
    return IdOk, p, blob;
  }
}
