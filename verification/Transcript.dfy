/** What an identity key signs. Every statement is a list of fields, each behind
    a two-octet length, the first of them a label naming the kind. */
module Transcript {
  import opened Bytes
  import opened Primitives
  import opened PrefixCode
  import opened Utf8

  const LABEL_LOGIN := Ascii("P2P-login-v2")
  const LABEL_ACK := Ascii("P2P-ack-v2")
  const LABEL_RELAY := Ascii("P2P-relay-v1")
  const LABEL_REVLIST := Ascii("P2P-revlist-v1")
  const LABEL_SEAL := Ascii("P2P-seal-sig-v1")

  const BIND_LEN := 32

  // ---- framing ---------------------------------------------------------------

  /** A field behind its length, of which only the low sixteen bits are written. */
  function Field(f: Octets): (r: Octets)
    ensures |r| == 2 + |f|
  {
    U16(|f|) + f
  }

  function Frame(fs: seq<Octets>): Octets {
    if fs == [] then [] else Field(fs[0]) + Frame(fs[1..])
  }

  predicate Short(f: Octets) { |f| < 0x10000 }

  predicate AllShort(fs: seq<Octets>) { forall i :: 0 <= i < |fs| ==> Short(fs[i]) }

  /** Two framed strings that agree agree on their first field, whatever follows. */
  lemma FirstField(f: Octets, r: Octets, g: Octets, s: Octets)
    requires Short(f) && Short(g)
    requires Field(f) + r == Field(g) + s
    ensures f == g && r == s
  {
    var a := Field(f) + r;
    assert a[0] == |f| / 256 && a[1] == |f| % 256;
    assert a[0] == |g| / 256 && a[1] == |g| % 256;
    assert |f| == |g|;
    assert f == a[2..2 + |f|] == g;
    assert r == a[2 + |f|..] == s;
  }

  lemma {:induction false} FrameInjective(fs: seq<Octets>, gs: seq<Octets>)
    requires AllShort(fs) && AllShort(gs)
    requires Frame(fs) == Frame(gs)
    ensures fs == gs
  {
    if fs != [] && gs != [] {
      FirstField(fs[0], Frame(fs[1..]), gs[0], Frame(gs[1..]));
      FrameInjective(fs[1..], gs[1..]);
      assert fs == [fs[0]] + fs[1..] && gs == [gs[0]] + gs[1..];
    }
  }

  lemma FrameCons(f: Octets, fs: seq<Octets>)
    ensures Frame([f] + fs) == Field(f) + Frame(fs)
  {
    assert ([f] + fs)[1..] == fs;
  }

  lemma {:induction false} FrameSnoc(fs: seq<Octets>, f: Octets)
    ensures Frame(fs + [f]) == Frame(fs) + Field(f)
  {
    if fs == [] {
      FrameCons(f, []);
      assert [] + [f] == [f] + [] && Field(f) + Frame([]) == Frame([]) + Field(f);
    } else {
      var g, rest := fs[0], fs[1..];
      FrameSnoc(rest, f);
      FrameCons(g, rest + [f]);
      FrameCons(g, rest);
      assert fs == [g] + rest && fs + [f] == [g] + (rest + [f]);
      hide Frame, Field;
      assert Field(g) + (Frame(rest) + Field(f)) == (Field(g) + Frame(rest)) + Field(f);
    }
  }

  // ---- statements ------------------------------------------------------------

  type Address = seq<Scalar>

  /** `Sealed` stands for the signature transcript of a sealed body, which shares
      the key and the framing and has a label of its own. */
  datatype Statement =
    | Login(src: Address, dst: Address, nonce: Octets, ts: int, bind: Option<Octets>)
    | Ack(src: Address, dst: Address, nonce: Octets, bind: Option<Octets>)
    | Relay(attester: Address, src: Address, dst: Address, msgName: Address, ts: int, body: Octets)
    | RevList(epoch: int, count: nat, entries: Octets, issuer: Octets)
    | Sealed(rest: Octets)

  function BindField(bind: Option<Octets>): Octets {
    match bind
    case None => []
    case Some(b) => b
  }

  function Fields(s: Statement, sha: Sha): seq<Octets>
    requires !s.Sealed?
  {
    match s
    case Login(src, dst, nonce, ts, bind) =>
      [LABEL_LOGIN, Encode(src), Encode(dst), nonce, I64(ts), BindField(bind)]
    case Ack(src, dst, nonce, bind) =>
      [LABEL_ACK, Encode(src), Encode(dst), nonce, BindField(bind)]
    case Relay(attester, src, dst, msgName, ts, body) =>
      [LABEL_RELAY, Encode(attester), Encode(src), Encode(dst), Encode(msgName), I64(ts), sha(body)]
    case RevList(epoch, count, entries, issuer) =>
      [LABEL_REVLIST, I64(epoch), I64(count), sha(entries), issuer]
  }

  function Signable(s: Statement, sha: Sha): Octets {
    if s.Sealed? then Field(LABEL_SEAL) + s.rest else Frame(Fields(s, sha))
  }

  predicate ShortAddress(a: Address) { Short(Encode(a)) }

  predicate BindOk(bind: Option<Octets>) { bind.Some? ==> |bind.value| == BIND_LEN }

  /** The widths the builders always produce, and fields a length can count. */
  predicate WellFormed(s: Statement) {
    match s
    case Login(src, dst, nonce, ts, bind) =>
      ShortAddress(src) && ShortAddress(dst) && |nonce| == NONCE_LEN && IsI64(ts) && BindOk(bind)
    case Ack(src, dst, nonce, bind) =>
      ShortAddress(src) && ShortAddress(dst) && |nonce| == NONCE_LEN && BindOk(bind)
    case Relay(attester, src, dst, msgName, ts, body) =>
      ShortAddress(attester) && ShortAddress(src) && ShortAddress(dst) && ShortAddress(msgName) && IsI64(ts)
    case RevList(epoch, count, entries, issuer) =>
      IsI64(epoch) && IsI64(count) && |issuer| == POINT_LEN
    case Sealed(_) => true
  }

  /** The one way two different statements can share a transcript: two bodies, or
      two entry arrays of one count, with the same hash. */
  predicate HashCollision(s: Statement, t: Statement, sha: Sha) {
    || (s.Relay? && t.Relay? && s.body != t.body && sha(s.body) == sha(t.body) && s == t.(body := s.body))
    || (s.RevList? && t.RevList? && s.entries != t.entries && sha(s.entries) == sha(t.entries)
        && s == t.(entries := s.entries))
  }

  function LabelOf(s: Statement): (r: Octets)
    ensures Short(r)
  {
    match s
    case Login(_, _, _, _, _) => LABEL_LOGIN
    case Ack(_, _, _, _) => LABEL_ACK
    case Relay(_, _, _, _, _, _) => LABEL_RELAY
    case RevList(_, _, _, _) => LABEL_REVLIST
    case Sealed(_) => LABEL_SEAL
  }

  lemma LabelsDistinct(s: Statement, t: Statement)
    requires LabelOf(s) == LabelOf(t)
    ensures s.Login? == t.Login? && s.Ack? == t.Ack? && s.Relay? == t.Relay?
    ensures s.RevList? == t.RevList? && s.Sealed? == t.Sealed?
  {
    assert LABEL_LOGIN[4] == 'l' as int && LABEL_RELAY[4] == 'r' as int;
  }

  function AfterLabel(s: Statement, sha: Sha): Octets {
    if s.Sealed? then s.rest else Frame(Fields(s, sha)[1..])
  }

  lemma StartsWithLabel(s: Statement, sha: Sha)
    ensures Signable(s, sha) == Field(LabelOf(s)) + AfterLabel(s, sha)
  {
  }

  lemma I64Injective(a: int, b: int)
    requires IsI64(a) && IsI64(b) && I64(a) == I64(b)
    ensures a == b
  {
    I64RoundTrip(a);
    I64RoundTrip(b);
  }

  lemma LoginFields(s: Statement, t: Statement, sha: Sha)
    requires s.Login? && t.Login? && WellFormed(s) && WellFormed(t) && Fields(s, sha) == Fields(t, sha)
    ensures s == t
  {
    var fs, gs := Fields(s, sha), Fields(t, sha);
    assert fs[1] == gs[1] && fs[2] == gs[2] && fs[3] == gs[3] && fs[4] == gs[4] && fs[5] == gs[5];
    EncodeInjective(s.src, t.src);
    EncodeInjective(s.dst, t.dst);
    I64Injective(s.ts, t.ts);
  }

  lemma AckFields(s: Statement, t: Statement, sha: Sha)
    requires s.Ack? && t.Ack? && WellFormed(s) && WellFormed(t) && Fields(s, sha) == Fields(t, sha)
    ensures s == t
  {
    var fs, gs := Fields(s, sha), Fields(t, sha);
    assert fs[1] == gs[1] && fs[2] == gs[2] && fs[3] == gs[3] && fs[4] == gs[4];
    EncodeInjective(s.src, t.src);
    EncodeInjective(s.dst, t.dst);
  }

  lemma RelayFields(s: Statement, t: Statement, sha: Sha)
    requires s.Relay? && t.Relay? && WellFormed(s) && WellFormed(t) && Fields(s, sha) == Fields(t, sha)
    ensures s == t.(body := s.body) && sha(s.body) == sha(t.body)
  {
    var fs, gs := Fields(s, sha), Fields(t, sha);
    assert fs[1] == gs[1] && fs[2] == gs[2] && fs[3] == gs[3] && fs[4] == gs[4] && fs[5] == gs[5] && fs[6] == gs[6];
    EncodeInjective(s.attester, t.attester);
    EncodeInjective(s.src, t.src);
    EncodeInjective(s.dst, t.dst);
    EncodeInjective(s.msgName, t.msgName);
    I64Injective(s.ts, t.ts);
  }

  lemma RevListFields(s: Statement, t: Statement, sha: Sha)
    requires s.RevList? && t.RevList? && WellFormed(s) && WellFormed(t) && Fields(s, sha) == Fields(t, sha)
    ensures s == t.(entries := s.entries) && sha(s.entries) == sha(t.entries)
  {
    var fs, gs := Fields(s, sha), Fields(t, sha);
    assert fs[1] == gs[1] && fs[2] == gs[2] && fs[3] == gs[3] && fs[4] == gs[4];
    I64Injective(s.epoch, t.epoch);
    I64Injective(s.count, t.count);
  }

  /** Equal transcripts are of one kind, and their fields agree one by one. */
  lemma SameKindSameFields(s: Statement, t: Statement, sha: Sha)
    requires IsSha(sha) && WellFormed(s) && WellFormed(t)
    requires Signable(s, sha) == Signable(t, sha)
    ensures s.Login? == t.Login? && s.Ack? == t.Ack? && s.Relay? == t.Relay?
    ensures s.RevList? == t.RevList? && s.Sealed? == t.Sealed?
    ensures if s.Sealed? then s == t else Fields(s, sha) == Fields(t, sha)
  {
    StartsWithLabel(s, sha);
    StartsWithLabel(t, sha);
    FirstField(LabelOf(s), AfterLabel(s, sha), LabelOf(t), AfterLabel(t, sha));
    LabelsDistinct(s, t);
    if !s.Sealed? {
      FieldsShort(s, sha);
      FieldsShort(t, sha);
      FrameInjective(Fields(s, sha), Fields(t, sha));
    }
  }

  lemma FieldsShort(s: Statement, sha: Sha)
    requires IsSha(sha) && WellFormed(s) && !s.Sealed?
    ensures AllShort(Fields(s, sha))
  {
  }

  /** One transcript means one statement: same kind, same fields, absent and
      all-zero bindings apart, up to a collision of the hash. */
  lemma SignableInjective(s: Statement, t: Statement, sha: Sha)
    requires IsSha(sha) && WellFormed(s) && WellFormed(t)
    requires Signable(s, sha) == Signable(t, sha)
    ensures s == t || HashCollision(s, t, sha)
  {
    SameKindSameFields(s, t, sha);
    match s {
      case Login(_, _, _, _, _) => LoginFields(s, t, sha);
      case Ack(_, _, _, _) => AckFields(s, t, sha);
      case Relay(_, _, _, _, _, _) => RelayFields(s, t, sha);
      case RevList(_, _, _, _) => RevListFields(s, t, sha);
      case Sealed(_) =>
    }
  }

  // ---- the bound on field length is needed ---------------------------------------

  predicate AllBelow(fs: seq<Octets>, n: nat) { forall i :: 0 <= i < |fs| ==> |fs[i]| < n }

  /** Fields shorter than `n` can be read off one way only. */
  ghost predicate FramesApart(n: nat) {
    forall fs, gs :: AllBelow(fs, n) && AllBelow(gs, n) && Frame(fs) == Frame(gs) ==> fs == gs
  }

  lemma FrameOfTwo(f: Octets, g: Octets)
    ensures Frame([f, g]) == Field(f) + Field(g)
  {
    FrameCons(f, [g]);
    FrameCons(g, []);
    assert [f] + [g] == [f, g] && [g] + [] == [g];
    assert Field(g) + Frame([]) == Field(g);
  }

  lemma LongFieldsCollide()
    ensures var z, e := Repeated<byte>(0, 0x10000), [];
            Frame([z, e]) == Frame([e, z]) && [z, e] != [e, z]
  {
    var z: Octets, e: Octets, zero: Octets := Repeated(0, 0x10000), [], [0, 0];
    FrameOfTwo(z, e);
    FrameOfTwo(e, z);
    assert Field(z) == zero + z && Field(e) == zero && zero + z == z + zero;
    hide Frame, Field;
    assert (zero + z) + zero == zero + (z + zero);
    assert [z, e][0] != [e, z][0];
  }

  /** The framing is injective on fields shorter than `n` exactly when `n` is at most
      65536, where the length prefix wraps. */
  lemma FramesApartExactlyUpTo(n: nat)
    ensures FramesApart(n) <==> n <= 0x10000
  {
    if n <= 0x10000 {
      forall fs, gs | AllBelow(fs, n) && AllBelow(gs, n) && Frame(fs) == Frame(gs)
        ensures fs == gs
      {
        FrameInjective(fs, gs);
      }
    } else {
      var z := Repeated<byte>(0, 0x10000);
      LongFieldsCollide();
      hide Frame;
      assert AllBelow([z, []], n) && AllBelow([[], z], n);
    }
  }

  function Letters(n: nat): Octets { Repeated(0x41, n) }

  function LetterAddress(n: nat): Address { Repeated(0x41, n) }

  lemma {:induction false} LettersEncode(n: nat)
    ensures Encode(LetterAddress(n)) == Letters(n)
  {
    if n > 0 {
      LettersEncode(n - 1);
      assert LetterAddress(n)[1..] == LetterAddress(n - 1);
      assert Letters(n) == [0x41] + Letters(n - 1);
    }
  }

  lemma LettersField(n: nat)
    requires n % 0x10000 == 0x4141
    ensures Field(Letters(n)) == Letters(n + 2)
  {
  }

  lemma FrameTwo(label0: Octets, f: Octets, g: Octets, fs: seq<Octets>)
    ensures Frame([label0] + ([f] + ([g] + fs))) == Field(label0) + ((Field(f) + Field(g)) + Frame(fs))
  {
    FrameCons(g, fs);
    FrameCons(f, [g] + fs);
    FrameCons(label0, [f] + ([g] + fs));
    hide Frame, Field;
    assert Field(f) + (Field(g) + Frame(fs)) == (Field(f) + Field(g)) + Frame(fs);
  }

  /** A login's transcript, its two addresses apart from the rest. */
  lemma LoginFramed(src: Address, dst: Address, nonce: Octets, ts: int, bind: Option<Octets>, sha: Sha)
    ensures Signable(Login(src, dst, nonce, ts, bind), sha)
            == Field(LABEL_LOGIN) + ((Field(Encode(src)) + Field(Encode(dst))) + Frame([nonce, I64(ts), BindField(bind)]))
  {
    hide Frame, Field;
    var rest := [nonce, I64(ts), BindField(bind)];
    FrameTwo(LABEL_LOGIN, Encode(src), Encode(dst), rest);
    assert Fields(Login(src, dst, nonce, ts, bind), sha) == [LABEL_LOGIN] + ([Encode(src)] + ([Encode(dst)] + rest));
  }

  lemma LettersCollide()
    ensures Field(Letters(0x10000)) + Field(Letters(0x4141)) == Field([]) + Field(Letters(0x14141))
  {
    LettersField(0x4141);
    LettersField(0x14141);
    assert Field(Letters(0x10000)) == [0, 0] + Letters(0x10000);
    assert Letters(0x10000) + Letters(0x4143) == Letters(0x14143);
  }

  /** With an address of 65536 octets the length wraps and two different pairs of
      addresses are framed alike. */
  lemma OversizeFieldsCollide(nonce: Octets, ts: int, bind: Option<Octets>, sha: Sha)
    ensures var s := Login(LetterAddress(0x10000), LetterAddress(0x4141), nonce, ts, bind);
            var t := Login([], LetterAddress(0x14141), nonce, ts, bind);
            s != t && Signable(s, sha) == Signable(t, sha)
  {
    hide Field, Frame, Fields;
    LettersCollide();
    LettersEncode(0x10000);
    LettersEncode(0x4141);
    LettersEncode(0x14141);
    LoginFramed(LetterAddress(0x10000), LetterAddress(0x4141), nonce, ts, bind, sha);
    LoginFramed([], LetterAddress(0x14141), nonce, ts, bind, sha);
    assert |LetterAddress(0x10000)| != 0;
  }

  // ---- the builders ------------------------------------------------------------

  method AppendField(s: Octets, f: Octets) returns (r: Octets)
    ensures r == s + Field(f)
  {
    r := s + [|f| / 256 % 256];
    r := r + [|f| % 256];
    r := r + f;
  }

  /** The login transcript with a stamp, the ack transcript without one. */
  method Transcript(name: Octets, pSrc: Wide, pDst: Wide, w: Width, nonce: Octets,
                    ts: Option<int>, bind: Option<Octets>)
    returns (ok: bool, out: Octets)
    ensures ok <==> Scalars(pSrc, w).Some? && Scalars(pDst, w).Some?
    ensures ok ==>
              var src, dst := Encode(Scalars(pSrc, w).value), Encode(Scalars(pDst, w).value);
              out == Frame(if ts.Some? then [name, src, dst, nonce, I64(ts.value), BindField(bind)]
                           else [name, src, dst, nonce, BindField(bind)])
  {
    out := [];
    var sSrc, sDst;
    ok, sSrc := Utf8FromWide(pSrc, w);
    if !ok {
      return;
    }
    ok, sDst := Utf8FromWide(pDst, w);
    if !ok {
      return;
    }
    var fs := [name, sSrc, sDst, nonce];
    if ts.Some? {
      fs := fs + [I64(ts.value)];
      assert fs == [name, sSrc, sDst, nonce, I64(ts.value)];
    }
    out := AppendFields(fs + [BindField(bind)]);
    assert fs + [BindField(bind)]
        == if ts.Some? then [name, sSrc, sDst, nonce, I64(ts.value), BindField(bind)]
           else [name, sSrc, sDst, nonce, BindField(bind)];
  }

  method RelayTranscript(pAttester: Wide, pSrc: Wide, pDst: Wide, pMsgName: Wide, w: Width,
                         body: Octets, ts: int, sha: Sha)
    returns (ok: bool, out: Octets)
    ensures ok <==> Scalars(pAttester, w).Some? && Scalars(pSrc, w).Some? && Scalars(pDst, w).Some?
                    && Scalars(pMsgName, w).Some?
    ensures ok ==> out == Signable(Relay(Scalars(pAttester, w).value, Scalars(pSrc, w).value,
                                         Scalars(pDst, w).value, Scalars(pMsgName, w).value, ts, body), sha)
  {
    out := [];
    var sAtt, sSrc, sDst, sMsg;
    ok, sAtt := Utf8FromWide(pAttester, w);
    if !ok {
      return;
    }
    ok, sSrc := Utf8FromWide(pSrc, w);
    if !ok {
      return;
    }
    ok, sDst := Utf8FromWide(pDst, w);
    if !ok {
      return;
    }
    ok, sMsg := Utf8FromWide(pMsgName, w);
    if !ok {
      return;
    }
    var fs := [LABEL_RELAY, sAtt, sSrc, sDst, sMsg, I64(ts), sha(body)];
    out := AppendFields(fs);
  }

  method AppendFields(fs: seq<Octets>) returns (out: Octets)
    ensures out == Frame(fs)
  {
    out := [];
    for i := 0 to |fs|
      invariant out == Frame(fs[..i])
    {
      FrameSnoc(fs[..i], fs[i]);
      assert fs[..i + 1] == fs[..i] + [fs[i]];
      out := AppendField(out, fs[i]);
    }
    assert fs[..|fs|] == fs;
  }

  method RevListTranscript(epoch: int, count: nat, entries: Octets, issuer: Octets, sha: Sha)
    returns (out: Octets)
    ensures out == Signable(RevList(epoch, count, entries, issuer), sha)
  {
    out := AppendFields([LABEL_REVLIST, I64(epoch), I64(count), sha(entries), issuer]);
  }
}
