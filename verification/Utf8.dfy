/** The address codec: wide strings to UTF-8 and back (section 3 of RFC 3629).

    A wide string is the units before its terminating NUL, under either width a
    `wchar_t` can have. What both widths stand for is one sequence of scalars. */
module Utf8 {
  import opened Bytes
  import opened PrefixCode

  datatype Width = W16 | W32

  /** One unit of a C wide string, so never the terminator. */
  type Unit = x: int | 0 < x < 0x1_0000_0000 witness 1

  type Wide = seq<Unit>

  /** A Unicode scalar value that a C string can hold. */
  type Scalar = x: int | 0 < x < 0xD800 || 0xE000 <= x <= 0x10FFFF witness 1

  predicate IsScalar(cp: int) { 0 < cp < 0xD800 || 0xE000 <= cp <= 0x10FFFF }

  // ---- the standard's tables ------------------------------------------------

  function EncodeScalar(c: Scalar): (r: Octets)
    ensures 1 <= |r| <= 4
  {
    if c < 0x80 then [c]
    else if c < 0x800 then [0xC0 + c / 0x40, 0x80 + c % 0x40]
    else if c < 0x10000 then [0xE0 + c / 0x1000, 0x80 + c / 0x40 % 0x40, 0x80 + c % 0x40]
    else [0xF0 + c / 0x40000, 0x80 + c / 0x1000 % 0x40, 0x80 + c / 0x40 % 0x40, 0x80 + c % 0x40]
  }

  /** UTF-16 or UTF-32. */
  function UnitsOf(c: Scalar, w: Width): (r: Wide)
    ensures 1 <= |r| <= 2
  {
    if w == W16 && c >= 0x10000 then
      [0xD800 + (c - 0x10000) / 0x400, 0xDC00 + (c - 0x10000) % 0x400]
    else
      [c]
  }

  function UnitCode(w: Width): Scalar -> Wide { c => UnitsOf(c, w) }

  // ---- what the two loops read ----------------------------------------------

  predicate IsHigh(u: int) { 0xD800 <= u <= 0xDBFF }

  predicate IsLow(u: int) { 0xDC00 <= u <= 0xDFFF }

  /** A 16-bit unit has no value above 0xFFFF to hold. */
  function UnitMax(w: Width): int { if w == W16 then 0xFFFF else 0x10FFFF }

  function FromPair(hi: int, lo: int): (c: Scalar)
    requires IsHigh(hi) && IsLow(lo)
    ensures c >= 0x10000 && UnitsOf(c, W16) == [hi, lo]
  {
    0x10000 + (hi - 0xD800) * 0x400 + (lo - 0xDC00)
  }

  function HeadUnits(us: Wide, w: Width): (r: Head<Scalar>)
    ensures r.Read? ==> 1 <= r.n <= |us|
  {
    if us == [] then Refused
    else
      var u: int := us[0];
      if w == W16 && IsHigh(u) then
        if |us| > 1 && IsLow(us[1]) then Read(FromPair(u, us[1]), 2) else Refused
      else if IsHigh(u) || IsLow(u) || u > UnitMax(w) then Refused
      else Read(u, 1)
  }

  function UnitHead(w: Width): Wide -> Head<Scalar> { us => HeadUnits(us, w) }

  predicate IsTail(b: byte) { 0x80 <= b < 0xC0 }

  /** How many octets a lead octet announces; 0 when it cannot lead. */
  function SequenceLength(b: byte): nat {
    if b < 0x80 then 1
    else if b < 0xC0 then 0
    else if b < 0xE0 then 2
    else if b < 0xF0 then 3
    else if b < 0xF8 then 4
    else 0
  }

  function LeadBits(b: byte): nat {
    if b < 0x80 then b
    else if b < 0xC0 then 0
    else if b < 0xE0 then b - 0xC0
    else if b < 0xF0 then b - 0xE0
    else if b < 0xF8 then b - 0xF0
    else 0
  }

  function TailBits(b: byte): nat {
    if IsTail(b) then b - 0x80 else 0
  }

  /** The lead octet's bits and the low six bits of each octet after it. */
  function Folded(b: Octets, k: nat): nat
    requires 1 <= k <= |b|
  {
    if k == 1 then LeadBits(b[0]) else Folded(b, k - 1) * 0x40 + TailBits(b[k - 1])
  }

  predicate ShortestForm(cp: nat, n: nat) {
    && (n == 2 ==> cp >= 0x80)
    && (n == 3 ==> cp >= 0x800)
    && (n == 4 ==> cp >= 0x10000)
  }

  function HeadOctets(b: Octets): (r: Head<Scalar>)
    ensures r.Read? ==> 1 <= r.n <= |b|
  {
    if b == [] then Refused
    else
      var n := SequenceLength(b[0]);
      if n == 0 || n > |b| then Refused
      else if exists k :: 1 <= k < n && !IsTail(b[k]) then Refused
      else
        var cp := Folded(b, n);
        if ShortestForm(cp, n) && IsScalar(cp) then Read(cp, n) else Refused
  }

  // ---- the codec on whole strings ------------------------------------------

  function Encode(cs: seq<Scalar>): Octets { Flat(EncodeScalar, cs) }

  function Decode(b: Octets): Option<seq<Scalar>> { Parse(HeadOctets, b) }

  function Units(cs: seq<Scalar>, w: Width): Wide { Flat(UnitCode(w), cs) }

  /** The scalars a wide string stands for, when it is well formed. */
  function Scalars(us: Wide, w: Width): Option<seq<Scalar>> { Parse(UnitHead(w), us) }

  /** What `Utf8FromWide` computes, as callers use it. */
  function Utf8Of(us: Wide, w: Width): Option<Octets> {
    match Scalars(us, w)
    case None => None
    case Some(cs) => Some(Encode(cs))
  }

  // ---- one scalar ----------------------------------------------------------

  /** Six-bit digits taken apart and put together again. */
  lemma Digits(x: nat, t: nat)
    requires t < 0x40
    ensures (x * 0x40 + t) / 0x40 == x && (x * 0x40 + t) % 0x40 == t
  {
  }

  lemma Shift(c: nat)
    ensures c / 0x1000 == c / 0x40 / 0x40 && c / 0x40000 == c / 0x40 / 0x40 / 0x40
  {
  }

  /** What `Folded` gives at each length, with the octets named. */
  lemma FoldedIs(b: Octets, n: nat)
    requires 1 <= n <= |b|
    ensures n == 1 ==> Folded(b, n) == LeadBits(b[0])
    ensures n == 2 ==> Folded(b, n) == LeadBits(b[0]) * 0x40 + TailBits(b[1])
    ensures n == 3 ==> Folded(b, n) == (LeadBits(b[0]) * 0x40 + TailBits(b[1])) * 0x40 + TailBits(b[2])
    ensures n == 4 ==> Folded(b, n) == ((LeadBits(b[0]) * 0x40 + TailBits(b[1])) * 0x40 + TailBits(b[2])) * 0x40
                                       + TailBits(b[3])
  {
    if n == 3 {
      assert Folded(b, 2) == LeadBits(b[0]) * 0x40 + TailBits(b[1]);
    } else if n == 4 {
      assert Folded(b, 2) == LeadBits(b[0]) * 0x40 + TailBits(b[1]);
      assert Folded(b, 3) == Folded(b, 2) * 0x40 + TailBits(b[2]);
    }
  }

  lemma FoldedEncoded(c: Scalar, b: Octets)
    requires EncodeScalar(c) <= b
    ensures Folded(b, |EncodeScalar(c)|) == c
  {
    var e := EncodeScalar(c);
    assert forall k :: 0 <= k < |e| ==> b[k] == e[k];
    FoldedIs(b, |e|);
    Shift(c);
    if |e| == 3 {
      assert LeadBits(b[0]) == c / 0x40 / 0x40;
      assert TailBits(b[1]) == c / 0x40 % 0x40;
    } else if |e| == 4 {
      assert LeadBits(b[0]) == c / 0x40 / 0x40 / 0x40;
      assert TailBits(b[1]) == c / 0x40 / 0x40 % 0x40;
      assert TailBits(b[2]) == c / 0x40 % 0x40;
    }
  }

  lemma HeadOfEncoded(c: Scalar, rest: Octets)
    ensures HeadOctets(EncodeScalar(c) + rest) == Read(c, |EncodeScalar(c)|)
  {
    var e := EncodeScalar(c);
    var b := e + rest;
    assert forall k :: 0 <= k < |e| ==> b[k] == e[k];
    assert forall k :: 1 <= k < |e| ==> IsTail(e[k]);
    FoldedEncoded(c, b);
  }

  lemma EncodedOfTwo(x: nat, t: nat)
    requires x < 0x20 && t < 0x40 && x * 0x40 + t >= 0x80
    ensures EncodeScalar(x * 0x40 + t) == [0xC0 + x, 0x80 + t]
  {
    Digits(x, t);
  }

  lemma EncodedOfThree(x: nat, t: nat, u: nat)
    requires x < 0x10 && t < 0x40 && u < 0x40
    requires IsScalar((x * 0x40 + t) * 0x40 + u) && (x * 0x40 + t) * 0x40 + u >= 0x800
    ensures EncodeScalar((x * 0x40 + t) * 0x40 + u) == [0xE0 + x, 0x80 + t, 0x80 + u]
  {
    Digits(x, t);
    Digits(x * 0x40 + t, u);
    Shift((x * 0x40 + t) * 0x40 + u);
  }

  lemma EncodedOfFour(x: nat, t: nat, u: nat, v: nat)
    requires x < 0x08 && t < 0x40 && u < 0x40 && v < 0x40
    requires 0x10000 <= ((x * 0x40 + t) * 0x40 + u) * 0x40 + v <= 0x10FFFF
    ensures EncodeScalar(((x * 0x40 + t) * 0x40 + u) * 0x40 + v) == [0xF0 + x, 0x80 + t, 0x80 + u, 0x80 + v]
  {
    Digits(x, t);
    Digits(x * 0x40 + t, u);
    Digits((x * 0x40 + t) * 0x40 + u, v);
    Shift(((x * 0x40 + t) * 0x40 + u) * 0x40 + v);
  }

  lemma EncodedOfHead(b: Octets)
    requires HeadOctets(b).Read?
    ensures EncodeScalar(HeadOctets(b).c) == b[..HeadOctets(b).n]
  {
    var n := HeadOctets(b).n;
    var x := LeadBits(b[0]);
    assert forall k :: 1 <= k < n ==> IsTail(b[k]);
    FoldedIs(b, n);
    if n == 2 {
      EncodedOfTwo(x, TailBits(b[1]));
    } else if n == 3 {
      EncodedOfThree(x, TailBits(b[1]), TailBits(b[2]));
    } else if n == 4 {
      EncodedOfFour(x, TailBits(b[1]), TailBits(b[2]), TailBits(b[3]));
    }
  }

  lemma HeadOfUnits(c: Scalar, w: Width, rest: Wide)
    ensures HeadUnits(UnitsOf(c, w) + rest, w) == Read(c, |UnitsOf(c, w)|)
  {
    var us := UnitsOf(c, w) + rest;
    assert us[0] == UnitsOf(c, w)[0];
    if |UnitsOf(c, w)| == 2 {
      assert us[1] == UnitsOf(c, w)[1];
    }
  }

  lemma UnitsOfHead(us: Wide, w: Width)
    requires HeadUnits(us, w).Read?
    ensures UnitsOf(HeadUnits(us, w).c, w) == us[..HeadUnits(us, w).n]
  {
    if HeadUnits(us, w).n == 2 {
      assert us[..2] == [us[0], us[1]];
    } else {
      assert us[..1] == [us[0]];
    }
  }

  lemma OctetCode()
    ensures Reads(EncodeScalar, HeadOctets) && ReadsOnly(EncodeScalar, HeadOctets)
  {
    forall c: Scalar, rest: Octets
      ensures EncodeScalar(c) != [] && HeadOctets(EncodeScalar(c) + rest) == Read(c, |EncodeScalar(c)|)
    {
      HeadOfEncoded(c, rest);
    }
    forall b: Octets | b != [] && HeadOctets(b).Read?
      ensures EncodeScalar(HeadOctets(b).c) == b[..HeadOctets(b).n]
    {
      EncodedOfHead(b);
    }
  }

  lemma WideCode(w: Width)
    ensures Reads(UnitCode(w), UnitHead(w)) && ReadsOnly(UnitCode(w), UnitHead(w))
  {
    forall c: Scalar, rest: Wide
      ensures UnitCode(w)(c) != [] && UnitHead(w)(UnitCode(w)(c) + rest) == Read(c, |UnitCode(w)(c)|)
    {
      HeadOfUnits(c, w, rest);
    }
    forall us: Wide | us != [] && UnitHead(w)(us).Read?
      ensures UnitHead(w)(us).n <= |us|
      ensures UnitCode(w)(UnitHead(w)(us).c) == us[..UnitHead(w)(us).n]
    {
      UnitsOfHead(us, w);
    }
  }

  // ---- whole strings -------------------------------------------------------

  /** Encoding is undone by decoding. */
  lemma DecodeEncode(cs: seq<Scalar>)
    ensures Decode(Encode(cs)) == Some(cs)
  {
    OctetCode();
    ParseFlat(EncodeScalar, HeadOctets, cs);
  }

  /** An accepted octet string is the encoding of what it decoded to: nothing
      overlong, truncated, surrogate or NUL is ever repaired into an address. */
  lemma EncodeDecode(b: Octets)
    requires Decode(b).Some?
    ensures Encode(Decode(b).value) == b
  {
    OctetCode();
    FlatParse(EncodeScalar, HeadOctets, b);
  }

  lemma ScalarsOfUnits(cs: seq<Scalar>, w: Width)
    ensures Scalars(Units(cs, w), w) == Some(cs)
  {
    WideCode(w);
    ParseFlat(UnitCode(w), UnitHead(w), cs);
  }

  lemma UnitsOfScalars(us: Wide, w: Width)
    requires Scalars(us, w).Some?
    ensures Units(Scalars(us, w).value, w) == us
  {
    WideCode(w);
    FlatParse(UnitCode(w), UnitHead(w), us);
  }

  lemma EncodeInjective(cs: seq<Scalar>, ds: seq<Scalar>)
    requires Encode(cs) == Encode(ds)
    ensures cs == ds
  {
    DecodeEncode(cs);
    DecodeEncode(ds);
  }

  /** A wide string survives the trip to UTF-8 and back at its own width. */
  lemma WideRoundTrip(us: Wide, w: Width)
    requires Utf8Of(us, w).Some?
    ensures Decode(Utf8Of(us, w).value).Some?
    ensures Units(Decode(Utf8Of(us, w).value).value, w) == us
  {
    DecodeEncode(Scalars(us, w).value);
    UnitsOfScalars(us, w);
  }

  /** Two ends of either width sign the same octets exactly when they mean the
      same scalars. */
  lemma SameBytesAcrossWidths(us: Wide, w: Width, vs: Wide, v: Width)
    requires Utf8Of(us, w).Some? && Utf8Of(vs, v).Some?
    ensures Utf8Of(us, w) == Utf8Of(vs, v) <==> Scalars(us, w) == Scalars(vs, v)
    ensures w == v ==> (Utf8Of(us, w) == Utf8Of(vs, v) <==> us == vs)
  {
    UnitsOfScalars(us, w);
    UnitsOfScalars(vs, v);
    if Utf8Of(us, w) == Utf8Of(vs, v) {
      EncodeInjective(Scalars(us, w).value, Scalars(vs, v).value);
    }
  }

  /** A decoded string never has more units than octets, under either width, so
      255 octets and a terminator fit a 256-unit buffer. */
  lemma {:induction false} UnitsFit(cs: seq<Scalar>, w: Width)
    ensures |Units(cs, w)| <= |Encode(cs)|
  {
    if cs != [] {
      UnitsFit(cs[1..], w);
      OneUnitFits(cs[0], w);
    }
  }

  lemma OneUnitFits(c: Scalar, w: Width)
    ensures |UnitCode(w)(c)| <= |EncodeScalar(c)|
  {
  }

  lemma WellFormedWide(us: Wide, w: Width)
    ensures Scalars(us, w).Some? <==> exists cs :: us == Units(cs, w)
  {
    if Scalars(us, w).Some? {
      UnitsOfScalars(us, w);
    }
    forall cs | us == Units(cs, w)
      ensures Scalars(us, w).Some?
    {
      ScalarsOfUnits(cs, w);
    }
  }

  // ---- the loops -------------------------------------------------------------

  /** The four store sequences of the encoder. */
  method StoreScalar(cp: Scalar, sOut: Octets) returns (out: Octets)
    ensures out == sOut + EncodeScalar(cp)
  {
    out := sOut;
    if cp < 0x80 {
      out := out + [cp];
    } else if cp < 0x800 {
      out := out + [0xC0 + cp / 0x40];
      out := out + [0x80 + cp % 0x40];
    } else if cp < 0x10000 {
      out := out + [0xE0 + cp / 0x1000];
      out := out + [0x80 + cp / 0x40 % 0x40];
      out := out + [0x80 + cp % 0x40];
    } else {
      out := out + [0xF0 + cp / 0x40000];
      out := out + [0x80 + cp / 0x1000 % 0x40];
      out := out + [0x80 + cp / 0x40 % 0x40];
      out := out + [0x80 + cp % 0x40];
    }
  }

  /** The encoder's reading of one unit or surrogate pair; past the last unit it
      finds the terminator. */
  method LoadUnits(us: Wide, i: nat, w: Width) returns (h: Head<Scalar>)
    requires i < |us|
    ensures h == HeadUnits(us[i..], w)
  {
    var cp: int := us[i];
    if w == W16 {
      if IsHigh(cp) {
        var lo: int := if i + 1 < |us| then us[i + 1] else 0;
        if !IsLow(lo) {
          return Refused;
        }
        return Read(FromPair(cp, lo), 2);
      } else if IsLow(cp) {
        return Refused;
      }
    } else if IsHigh(cp) || IsLow(cp) {
      return Refused;
    }
    if cp > UnitMax(w) {
      return Refused;
    }
    return Read(cp, 1);
  }

  /** Wide to UTF-8. `ok` is false exactly on an unpaired surrogate or a unit
      above the last scalar. */
  method Utf8FromWide(us: Wide, w: Width) returns (ok: bool, out: Octets)
    ensures ok <==> exists cs :: us == Units(cs, w)
    ensures Utf8Of(us, w) == if ok then Some(out) else None
  {
    WellFormedWide(us, w);
    out := [];
    ghost var done: seq<Scalar> := [];
    var i := 0;
    ReadingStarts(UnitHead(w), us);
    while i < |us|
      invariant Reading(UnitHead(w), us, done, i)
      invariant out == Encode(done)
    {
      var h := LoadUnits(us, i, w);
      if h.Refused? {
        ReadingStuck(UnitHead(w), us, done, i);
        return false, out;
      }
      out := StoreScalar(h.c, out);
      FlatSnoc(EncodeScalar, done, h.c);
      ReadingStep(UnitHead(w), us, done, i, h.c, h.n);
      done := done + [h.c];
      i := i + h.n;
    }
    ReadingEnds(UnitHead(w), us, done);
    ok := true;
  }

  /** The decoder's reading of one sequence: lead octet, continuation octets,
      then the shortest-form, range, surrogate and NUL refusals. */
  method LoadScalar(b: Octets) returns (h: Head<Scalar>)
    requires b != []
    ensures h == HeadOctets(b)
  {
    var n := SequenceLength(b[0]);
    if n == 0 || n > |b| {
      return Refused;
    }
    var cp := LeadBits(b[0]);
    var k := 1;
    while k < n
      invariant 1 <= k <= n
      invariant forall j :: 1 <= j < k ==> IsTail(b[j])
      invariant cp == Folded(b, k)
    {
      if !IsTail(b[k]) {
        return Refused;
      }
      cp := cp * 0x40 + TailBits(b[k]);
      k := k + 1;
    }
    if !ShortestForm(cp, n) || !IsScalar(cp) {
      return Refused;
    }
    return Read(cp, n);
  }

  /** The decoder's two stores, each refused when it would leave no room for the
      terminator. */
  method StoreUnits(cp: Scalar, w: Width, p: array<int>, at: nat) returns (ok: bool, wr: nat)
    requires at < p.Length
    modifies p
    ensures ok <==> at + |UnitsOf(cp, w)| < p.Length
    ensures ok ==> wr == at + |UnitsOf(cp, w)| && p[..wr] == old(p[..at]) + UnitsOf(cp, w)
  {
    if w == W16 && cp >= 0x10000 {
      if at + 2 >= p.Length {
        return false, at;
      }
      p[at] := 0xD800 + (cp - 0x10000) / 0x400;
      p[at + 1] := 0xDC00 + (cp - 0x10000) % 0x400;
      return true, at + 2;
    }
    if at + 1 >= p.Length {
      return false, at;
    }
    p[at] := cp;
    return true, at + 1;
  }

  lemma PrefixOfDecoded(b: Octets, w: Width, done: seq<Scalar>, i: nat)
    requires Reading(HeadOctets, b, done, i)
    ensures Decode(b).Some? ==> |Units(done, w)| <= |Units(Decode(b).value, w)|
  {
    if Decode(b).Some? {
      ReadingPrefix(HeadOctets, b, done, i);
      FlatPrefix(UnitCode(w), done, Decode(b).value);
    }
  }

  /** One more scalar read: the reading advances and its units follow the others. */
  lemma DecodeStep(b: Octets, w: Width, done: seq<Scalar>, i: nat, h: Head<Scalar>)
    requires Reading(HeadOctets, b, done, i) && i < |b| && h.Read? && h == HeadOctets(b[i..])
    ensures Reading(HeadOctets, b, done + [h.c], i + h.n)
    ensures Units(done + [h.c], w) == Units(done, w) + UnitsOf(h.c, w)
  {
    ReadingStep(HeadOctets, b, done, i, h.c, h.n);
    FlatSnoc(UnitCode(w), done, h.c);
  }

  /** UTF-8 to a wide buffer. Accepted exactly when the octets are the encoding
      of some scalars whose units, with the terminator, fit the buffer. */
  method WideFromUtf8(b: Octets, w: Width, p: array<int>) returns (ok: bool)
    modifies p
    ensures ok <==> Decode(b).Some? && |Units(Decode(b).value, w)| < p.Length
    ensures ok ==> p[..|Units(Decode(b).value, w)|] == Units(Decode(b).value, w)
    ensures ok ==> p[|Units(Decode(b).value, w)|] == 0
  {
    if p.Length == 0 {
      return false;
    }
    var wr := 0;
    ghost var done: seq<Scalar> := [];
    var i := 0;
    assert Units(done, w) == [];
    ReadingStarts(HeadOctets, b);
    hide Reading, HeadOctets, Units;
    while i < |b|
      invariant Reading(HeadOctets, b, done, i)
      invariant wr == |Units(done, w)| && wr < p.Length
      invariant p[..wr] == Units(done, w)
    {
      var h := LoadScalar(b[i..]);
      if h.Refused? {
        ReadingStuck(HeadOctets, b, done, i);
        return false;
      }
      DecodeStep(b, w, done, i, h);
      done := done + [h.c];
      i := i + h.n;
      PrefixOfDecoded(b, w, done, i);
      ok, wr := StoreUnits(h.c, w, p, wr);
      if !ok {
        return;
      }
    }
    ReadingEnds(HeadOctets, b, done);
    p[wr] := 0;
    return true;
  }
}
