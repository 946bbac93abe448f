/** The line-oriented files of the identity store: the peer allow-list and the
    revocation list, both changed by appending a line and read back whole. */
module TextStore {
  import opened Bytes
  import opened Primitives

  datatype IdResult =
    | IdOk | IdErrArgs | IdErrIo | IdErrNotFound | IdErrExists | IdErrFormat | IdErrVersion | IdErrIntegrity
    | IdErrProtect | IdErrUnprotect | IdErrKey | IdErrPerms | IdErrUnsupported | IdErrRevoked

  const MAX_TEXT_FILE := 4 * 1024 * 1024
  const MAX_LINE := 4096
  const MAX_IDENTITY := 255
  const PUB_HEX_CHARS := 128

  const TAB: byte := 9
  const NEWLINE: byte := 10
  const RETURN: byte := 13
  const SPACE: byte := 32
  const HASH: byte := 35

  predicate IsSpace(b: byte) { b == SPACE || 9 <= b <= 13 }

  predicate Ends(b: byte) { IsSpace(b) || b == HASH }

  // ---- tokens -----------------------------------------------------------------

  function SkipSpaces(s: Octets, i: nat): (j: nat)
    requires i <= |s|
    ensures i <= j <= |s|
    ensures j < |s| ==> !IsSpace(s[j])
    decreases |s| - i
  {
    if i < |s| && IsSpace(s[i]) then SkipSpaces(s, i + 1) else i
  }

  function TokenStop(s: Octets, i: nat): (j: nat)
    requires i <= |s|
    ensures i <= j <= |s|
    ensures forall k :: i <= k < j ==> !Ends(s[k])
    ensures j < |s| ==> Ends(s[j])
    decreases |s| - i
  {
    if i < |s| && !Ends(s[i]) then TokenStop(s, i + 1) else i
  }

  /** At most `n` tokens of the line from `i`; a '#' ends the line. */
  function Tokens(s: Octets, i: nat, n: nat): seq<Octets>
    requires i <= |s|
    decreases n
  {
    if n == 0 then []
    else
      var a := SkipSpaces(s, i);
      if a == |s| || s[a] == HASH then []
      else [s[a..TokenStop(s, a)]] + Tokens(s, TokenStop(s, a), n - 1)
  }

  /** Where the tokeniser stands: `toks` found, the line from `i` still to read. */
  ghost predicate Tokenising(s: Octets, nMax: nat, toks: seq<Octets>, i: nat) {
    i <= |s| && |toks| <= nMax && Tokens(s, 0, nMax) == toks + Tokens(s, i, nMax - |toks|)
  }

  lemma TokenisingStep(s: Octets, nMax: nat, toks: seq<Octets>, i: nat, start: nat)
    requires Tokenising(s, nMax, toks, i) && |toks| < nMax
    requires start == SkipSpaces(s, i) && start < |s| && s[start] != HASH
    ensures Tokenising(s, nMax, toks + [s[start..TokenStop(s, start)]], TokenStop(s, start))
  {
    var e := TokenStop(s, start);
    SnocToken(toks, s[start..e], Tokens(s, e, nMax - |toks| - 1));
  }

  lemma TokenisingEnds(s: Octets, nMax: nat, toks: seq<Octets>, i: nat)
    requires Tokenising(s, nMax, toks, i)
    requires |toks| == nMax || SkipSpaces(s, i) == |s| || s[SkipSpaces(s, i)] == HASH
    ensures Tokens(s, 0, nMax) == toks
  {
    assert Tokens(s, i, nMax - |toks|) == [];
    assert toks + [] == toks;
  }

  /** The tokeniser's loops. */
  method Tokenise(s: Octets, nMax: nat) returns (toks: seq<Octets>)
    ensures toks == Tokens(s, 0, nMax)
  {
    toks := [];
    var i := 0;
    assert [] + Tokens(s, 0, nMax) == Tokens(s, 0, nMax);
    assert Tokenising(s, nMax, toks, i);
    hide Tokenising, Tokens;
    while i < |s| && |toks| < nMax
      invariant Tokenising(s, nMax, toks, i)
    {
      ghost var from := i;
      while i < |s| && IsSpace(s[i])
        invariant from <= i <= |s| && SkipSpaces(s, i) == SkipSpaces(s, from)
      {
        i := i + 1;
      }
      if i >= |s| || s[i] == HASH {
        TokenisingEnds(s, nMax, toks, from);
        return;
      }
      TokenisingStep(s, nMax, toks, from, i);
      var start := i;
      while i < |s| && !IsSpace(s[i]) && s[i] != HASH
        invariant start <= i <= |s| && TokenStop(s, i) == TokenStop(s, start)
      {
        i := i + 1;
      }
      toks := toks + [s[start..i]];
    }
    TokenisingEnds(s, nMax, toks, i);
  }

  lemma SnocToken(toks: seq<Octets>, tok: Octets, rest: seq<Octets>)
    ensures toks + ([tok] + rest) == (toks + [tok]) + rest
  {
  }

  // ---- lines --------------------------------------------------------------------

  function LineStop(s: Octets, i: nat): (j: nat)
    requires i <= |s|
    ensures i <= j <= |s|
    ensures forall k :: i <= k < j ==> s[k] != NEWLINE
    ensures j < |s| ==> s[j] == NEWLINE
    decreases |s| - i
  {
    if i < |s| && s[i] != NEWLINE then LineStop(s, i + 1) else i
  }

  /** The lines of a text from `i`; a final newline does not begin another. */
  function LinesFrom(s: Octets, i: nat): seq<Octets>
    requires i <= |s|
    decreases |s| - i
  {
    if i == |s| then []
    else
      var e := LineStop(s, i);
      [s[i..e]] + if e < |s| then LinesFrom(s, e + 1) else []
  }

  function Lines(s: Octets): seq<Octets> { LinesFrom(s, 0) }

  /** What one line reads as: nothing, an entry, or a failure of the whole file. */
  datatype Reading<+E> = Blank | Entry(e: E) | Bad

  type LineParser<E> = seq<Octets> -> Option<E>

  function ReadLine<E>(parse: LineParser<E>, line: Octets): Reading<E> {
    if |line| > MAX_LINE then Bad
    else
      var toks := Tokens(line, 0, 4);
      if toks == [] then Blank
      else
        match parse(toks)
        case None => Bad
        case Some(e) => Entry(e)
  }

  function ReadLines<E>(parse: LineParser<E>, lines: seq<Octets>): Option<seq<E>> {
    if lines == [] then Some([])
    else
      match ReadLines(parse, lines[..|lines| - 1])
      case None => None
      case Some(es) =>
        match ReadLine(parse, lines[|lines| - 1])
        case Blank => Some(es)
        case Entry(e) => Some(es + [e])
        case Bad => None
  }

  /** The entries of a text, or None when any line fails. */
  function Load<E>(parse: LineParser<E>, text: Octets): Option<seq<E>> {
    ReadLines(parse, Lines(text))
  }

  lemma {:induction false} FailsEarly<E>(parse: LineParser<E>, lines: seq<Octets>, k: nat)
    requires k <= |lines| && ReadLines(parse, lines[..k]).None?
    ensures ReadLines(parse, lines).None?
  {
    if k < |lines| {
      assert lines[..|lines| - 1][..k] == lines[..k];
      FailsEarly(parse, lines[..|lines| - 1], k);
    } else {
      assert lines[..k] == lines;
    }
  }

  /** Where the walker stands: `done` read as `es`, the text from `i` to read. */
  ghost predicate Walking<E>(parse: LineParser<E>, text: Octets, done: seq<Octets>, es: seq<E>, i: nat) {
    i <= |text| && Lines(text) == done + LinesFrom(text, i) && ReadLines(parse, done) == Some(es)
  }

  lemma LinesStep(text: Octets, done: seq<Octets>, i: nat)
    requires i < |text| && Lines(text) == done + LinesFrom(text, i)
    ensures var e := LineStop(text, i);
            Lines(text) == (done + [text[i..e]]) + LinesFrom(text, After(text, e))
  {
    var e := LineStop(text, i);
    SnocToken(done, text[i..e], LinesFrom(text, After(text, e)));
  }

  /** The next position after a line that ends at `e`. */
  function After(text: Octets, e: nat): nat { if e < |text| then e + 1 else e }

  lemma ReadBlank<E>(parse: LineParser<E>, done: seq<Octets>, es: seq<E>, line: Octets)
    requires ReadLines(parse, done) == Some(es) && ReadLine(parse, line) == Blank
    ensures ReadLines(parse, done + [line]) == Some(es)
  {
    ReadSnoc(parse, done, line);
  }

  lemma ReadEntry<E>(parse: LineParser<E>, done: seq<Octets>, es: seq<E>, line: Octets, x: E)
    requires ReadLines(parse, done) == Some(es) && ReadLine(parse, line) == Entry(x)
    ensures ReadLines(parse, done + [line]) == Some(es + [x])
  {
    ReadSnoc(parse, done, line);
  }

  lemma WalkingFails<E>(parse: LineParser<E>, text: Octets, done: seq<Octets>, es: seq<E>, i: nat)
    requires Walking(parse, text, done, es, i) && i < |text|
    requires ReadLine(parse, text[i..LineStop(text, i)]).Bad?
    ensures Load(parse, text) == None
  {
    var line := text[i..LineStop(text, i)];
    LinesStep(text, done, i);
    ReadSnoc(parse, done, line);
    assert Lines(text)[..|done| + 1] == done + [line];
    FailsEarly(parse, Lines(text), |done| + 1);
  }

  lemma WalkingEnds<E>(parse: LineParser<E>, text: Octets, done: seq<Octets>, es: seq<E>)
    requires Walking(parse, text, done, es, |text|)
    ensures Load(parse, text) == Some(es)
  {
    assert done + [] == done;
  }

  /** The line walker: the first bad line abandons the whole file. */
  method ForEachLine<E>(parse: LineParser<E>, text: Octets) returns (r: Option<seq<E>>)
    ensures r == Load(parse, text)
  {
    var es: seq<E> := [];
    ghost var done: seq<Octets> := [];
    var i := 0;
    while i < |text|
      invariant Walking(parse, text, done, es, i)
    {
      var end := FindLineStop(text, i);
      var got := LineEntry(parse, text[i..end]);
      if got.Bad? {
        WalkingFails(parse, text, done, es, i);
        return None;
      }
      LinesStep(text, done, i);
      if got.Entry? {
        ReadEntry(parse, done, es, text[i..end], got.e);
        es := es + [got.e];
      } else {
        ReadBlank(parse, done, es, text[i..end]);
      }
      done := done + [text[i..end]];
      i := After(text, end);
    }
    WalkingEnds(parse, text, done, es);
    r := Some(es);
  }

  method FindLineStop(text: Octets, i: nat) returns (end: nat)
    requires i <= |text|
    ensures end == LineStop(text, i)
  {
    end := i;
    while end < |text| && text[end] != NEWLINE
      invariant i <= end <= |text| && LineStop(text, end) == LineStop(text, i)
    {
      end := end + 1;
    }
  }

  /** The length check, the tokeniser and the caller's function on one line. */
  method LineEntry<E>(parse: LineParser<E>, line: Octets) returns (r: Reading<E>)
    ensures r == ReadLine(parse, line)
  {
    if |line| > MAX_LINE {
      return Bad;
    }
    var toks := Tokenise(line, 4);
    if toks == [] {
      return Blank;
    }
    var e := parse(toks);
    r := if e.None? then Bad else Entry(e.value);
  }

  lemma ReadSnoc<E>(parse: LineParser<E>, done: seq<Octets>, line: Octets)
    ensures ReadLines(parse, done + [line])
            == match ReadLines(parse, done)
               case None => None
               case Some(es) =>
                 match ReadLine(parse, line)
                 case Blank => Some(es)
                 case Entry(e) => Some(es + [e])
                 case Bad => None
  {
    assert (done + [line])[..|done|] == done;
  }

  // ---- appending a line ------------------------------------------------------------

  predicate OneLine(line: Octets) { forall k :: 0 <= k < |line| ==> line[k] != NEWLINE }

  /** The text with its last line ended. */
  function Closed(text: Octets): Octets {
    if text != [] && text[|text| - 1] != NEWLINE then text + [NEWLINE] else text
  }

  function Appended(text: Octets, line: Octets): Octets { Closed(text) + line + [NEWLINE] }

  lemma {:induction false} LineStopIs(s: Octets, i: nat, e: nat)
    requires i <= e <= |s| && forall k :: i <= k < e ==> s[k] != NEWLINE
    requires e < |s| ==> s[e] == NEWLINE
    ensures LineStop(s, i) == e
    decreases e - i
  {
    if i < e {
      LineStopIs(s, i + 1, e);
    }
  }

  lemma LastLine(text: Octets, line: Octets)
    requires OneLine(line)
    ensures LinesFrom(Appended(text, line), |Closed(text)|) == [line]
  {
    var s, i := Appended(text, line), |Closed(text)|;
    assert forall k :: 0 <= k < |line| ==> s[i + k] == line[k];
    LineStopIs(s, i, i + |line|);
    assert s[i..i + |line|] == line;
  }

  /** A longer text has the lines of its front, then the lines from `c`, where the
      front's last line is ended. */
  lemma {:induction false} LinesExtend(text: Octets, s: Octets, c: nat, i: nat)
    requires text <= s && i <= |text| <= c <= |s|
    requires c == |text| || (c == |text| + 1 && s[|text|] == NEWLINE)
    requires c == |text| <==> text == [] || text[|text| - 1] == NEWLINE
    requires i == |text| ==> c == |text|
    ensures LinesFrom(s, i) == LinesFrom(text, i) + LinesFrom(s, c)
    decreases |text| - i
  {
    if i < |text| {
      var e := LineStop(text, i);
      SameFirstLine(text, s, i, e);
      if e < |text| {
        LinesExtend(text, s, c, e + 1);
        ConsLines(text[i..e], LinesFrom(text, e + 1), LinesFrom(s, c));
      } else {
        assert text[|text| - 1] != NEWLINE;
        assert c == e + 1;
      }
    }
  }

  lemma FirstLine(s: Octets, i: nat, e: nat, line: Octets)
    requires i < |s| && LineStop(s, i) == e && s[i..e] == line
    ensures LinesFrom(s, i) == [line] + if e < |s| then LinesFrom(s, e + 1) else []
  {
  }

  lemma SameFirstLine(text: Octets, s: Octets, i: nat, e: nat)
    requires text <= s && i < |text| && e == LineStop(text, i) && e < |s| && s[e] == NEWLINE
    ensures LinesFrom(s, i) == [text[i..e]] + LinesFrom(s, e + 1)
    ensures LinesFrom(text, i) == [text[i..e]] + if e < |text| then LinesFrom(text, e + 1) else []
  {
    FirstLine(text, i, e, text[i..e]);
    SameSlice(text, s, i, e);
    forall k | i <= k < e
      ensures s[k] != NEWLINE
    {
      assert s[k] == text[k];
    }
    LineStopIs(s, i, e);
    FirstLine(s, i, e, text[i..e]);
  }

  lemma SameSlice<T>(text: seq<T>, s: seq<T>, i: nat, e: nat)
    requires text <= s && i <= e <= |text|
    ensures s[i..e] == text[i..e]
  {
  }

  lemma ConsLines(line: Octets, more: seq<Octets>, rest: seq<Octets>)
    ensures [line] + (more + rest) == ([line] + more) + rest
  {
  }

  /** An appended line is the new last line, whether or not the text ended in a
      newline. */
  lemma LinesAppended(text: Octets, line: Octets)
    requires OneLine(line)
    ensures Lines(Appended(text, line)) == Lines(text) + [line]
  {
    LinesExtend(text, Appended(text, line), |Closed(text)|, 0);
    LastLine(text, line);
  }

  /** Loading after an append, for every text: the old outcome, then the line's. */
  lemma LoadAppended<E>(parse: LineParser<E>, text: Octets, line: Octets)
    requires OneLine(line)
    ensures Load(parse, Appended(text, line))
            == match Load(parse, text)
               case None => None
               case Some(es) =>
                 match ReadLine(parse, line)
                 case Blank => Some(es)
                 case Entry(e) => Some(es + [e])
                 case Bad => None
  {
    LinesAppended(text, line);
    ReadSnoc(parse, Lines(text), line);
  }

  // ---- hexadecimal -------------------------------------------------------------------

  function HexDigit(n: nat): byte
    requires n < 16
  {
    if n < 10 then 48 + n else 87 + n
  }

  function HexNibble(c: byte): (r: int)
    ensures -1 <= r < 16
  {
    if 48 <= c <= 57 then c - 48
    else if 97 <= c <= 102 then c - 87
    else if 65 <= c <= 70 then c - 55
    else -1
  }

  function Hex(b: Octets): (r: Octets)
    ensures |r| == 2 * |b|
  {
    if b == [] then [] else Hex(b[..|b| - 1]) + [HexDigit(b[|b| - 1] / 16), HexDigit(b[|b| - 1] % 16)]
  }

  /** Exactly `n` octets from exactly `2n` hexadecimal digits of either case. */
  function UnHex(h: Octets, n: nat): (r: Option<Octets>)
    ensures r.Some? ==> |r.value| == n && |h| == 2 * n
  {
    if |h| != 2 * n then None
    else if n == 0 then Some([])
    else
      var hi, lo := HexNibble(h[2 * n - 2]), HexNibble(h[2 * n - 1]);
      match UnHex(h[..2 * n - 2], n - 1)
      case None => None
      case Some(b) => if hi < 0 || lo < 0 then None else Some(b + [16 * hi + lo])
  }

  lemma NibbleRoundTrip(n: nat)
    requires n < 16
    ensures HexNibble(HexDigit(n)) == n
  {
  }

  lemma UnHexSnoc(h: Octets, n: nat, x: byte)
    requires |h| == 2 * n && UnHex(h, n).Some?
    ensures UnHex(h + [HexDigit(x / 16), HexDigit(x % 16)], n + 1) == Some(UnHex(h, n).value + [x])
  {
    var g := h + [HexDigit(x / 16), HexDigit(x % 16)];
    NibbleRoundTrip(x / 16);
    NibbleRoundTrip(x % 16);
    assert g[..2 * n] == h;
    assert g[2 * (n + 1) - 2] == HexDigit(x / 16) && g[2 * (n + 1) - 1] == HexDigit(x % 16);
  }

  lemma {:induction false} HexRoundTrip(b: Octets)
    ensures UnHex(Hex(b), |b|) == Some(b)
  {
    if b != [] {
      var front, x := b[..|b| - 1], b[|b| - 1];
      assert b == front + [x] && Hex(b) == Hex(front) + [HexDigit(x / 16), HexDigit(x % 16)];
      hide Hex, UnHex, HexDigit;
      HexRoundTrip(front);
      UnHexSnoc(Hex(front), |front|, x);
    }
  }

  lemma {:induction false} HexIsPlain(b: Octets)
    ensures forall k :: 0 <= k < |Hex(b)| ==> !Ends(Hex(b)[k])
  {
    if b != [] {
      HexIsPlain(b[..|b| - 1]);
    }
  }

  method HexEncode(b: Octets) returns (h: Octets)
    ensures h == Hex(b)
  {
    h := [];
    for i := 0 to |b|
      invariant h == Hex(b[..i])
    {
      assert b[..i + 1][..i] == b[..i];
      h := h + [HexDigit(b[i] / 16)];
      h := h + [HexDigit(b[i] % 16)];
    }
    assert b[..|b|] == b;
  }

  lemma {:induction false} UnHexFailsEarly(h: Octets, n: nat, i: nat)
    requires |h| == 2 * n && i < n && (HexNibble(h[2 * i]) < 0 || HexNibble(h[2 * i + 1]) < 0)
    ensures UnHex(h, n) == None
    decreases n
  {
    if i < n - 1 {
      UnHexFailsEarly(h[..2 * n - 2], n - 1, i);
    }
  }

  method HexDecodeExact(h: Octets, n: nat) returns (r: Option<Octets>)
    ensures r == UnHex(h, n)
  {
    if |h| != 2 * n {
      return None;
    }
    var out: Octets := [];
    for i := 0 to n
      invariant UnHex(h[..2 * i], i) == Some(out)
    {
      var hi, lo := HexNibble(h[2 * i]), HexNibble(h[2 * i + 1]);
      if hi < 0 || lo < 0 {
        UnHexFailsEarly(h, n, i);
        return None;
      }
      assert h[..2 * (i + 1)][..2 * i] == h[..2 * i];
      out := out + [16 * hi + lo];
    }
    assert h[..2 * n] == h;
    r := Some(out);
  }

  // ---- the stamp column --------------------------------------------------------------

  predicate IsDigit(c: byte) { 48 <= c <= 57 }

  function Decimal(n: nat): (r: Octets)
    ensures |r| >= 1
  {
    if n < 10 then [48 + n] else Decimal(n / 10) + [48 + n % 10]
  }

  function NextDigit(sofar: Option<nat>, c: byte): Option<nat> {
    match sofar
    case None => None
    case Some(n) => if IsDigit(c) then Some(10 * n + (c - 48)) else None
  }

  function Number(s: Octets): Option<nat> {
    if s == [] then Some(0) else NextDigit(Number(s[..|s| - 1]), s[|s| - 1])
  }

  /** One to nineteen decimal digits and nothing else. */
  function Epoch(s: Octets): Option<nat> {
    if s == [] || |s| > 19 then None else Number(s)
  }

  lemma {:induction false} NumberFailsEarly(s: Octets, i: nat)
    requires i < |s| && !IsDigit(s[i])
    ensures Number(s) == None
  {
    if i < |s| - 1 {
      NumberFailsEarly(s[..|s| - 1], i);
    }
  }

  method ParseEpoch(s: Octets) returns (r: Option<nat>)
    ensures r == Epoch(s)
  {
    if s == [] || |s| > 19 {
      return None;
    }
    var n := 0;
    for i := 0 to |s|
      invariant Number(s[..i]) == Some(n)
    {
      if !IsDigit(s[i]) {
        NumberFailsEarly(s, i);
        return None;
      }
      assert s[..i + 1][..i] == s[..i];
      var digit: int := s[i];
      n := 10 * n + (digit - 48);
    }
    assert s[..|s|] == s;
    r := Some(n);
  }

  function Pow10(k: nat): nat { if k == 0 then 1 else 10 * Pow10(k - 1) }

  lemma NumberSnoc(s: Octets, c: byte)
    ensures Number(s + [c]) == NextDigit(Number(s), c)
  {
    assert (s + [c])[..|s|] == s;
  }

  lemma OneDigit(n: nat)
    requires n < 10
    ensures Decimal(n) == [48 + n] && Number(Decimal(n)) == Some(n)
  {
    assert Decimal(n)[..0] == [];
  }

  /** One more digit, printed and read back. */
  lemma MoreDigits(n: nat)
    requires n >= 10 && Number(Decimal(n / 10)) == Some(n / 10)
    ensures Decimal(n) == Decimal(n / 10) + [48 + n % 10] && IsDigit(48 + n % 10)
    ensures Number(Decimal(n)) == Some(n)
  {
    hide Number;
    NumberSnoc(Decimal(n / 10), 48 + n % 10);
    assert 10 * (n / 10) + n % 10 == n;
  }

  lemma FewerDigits(n: nat, k: nat)
    requires n >= 10 && k >= 1 && n < Pow10(k)
    ensures k >= 2 && n / 10 < Pow10(k - 1)
  {
    assert Pow10(k) == 10 * Pow10(k - 1);
    assert Pow10(0) == 1;
  }

  lemma {:induction false} DecimalRoundTrip(n: nat, k: nat)
    requires k >= 1 && n < Pow10(k)
    ensures |Decimal(n)| <= k && Number(Decimal(n)) == Some(n)
    ensures forall i :: 0 <= i < |Decimal(n)| ==> IsDigit(Decimal(n)[i])
  {
    hide Number, Decimal, Pow10;
    if n < 10 {
      OneDigit(n);
    } else {
      FewerDigits(n, k);
      DecimalRoundTrip(n / 10, k - 1);
      MoreDigits(n);
    }
  }

  /** Every non-negative 64-bit stamp is printed so that it reads back. */
  lemma EpochRoundTrip(n: nat)
    requires IsI64(n)
    ensures Epoch(Decimal(n)) == Some(n)
    ensures forall i :: 0 <= i < |Decimal(n)| ==> IsDigit(Decimal(n)[i])
  {
    assert Pow10(19) == 10_000_000_000_000_000_000 by {
      assert Pow10(5) == 100_000;
      assert Pow10(10) == 10_000_000_000;
      assert Pow10(15) == 1_000_000_000_000_000;
    }
    DecimalRoundTrip(n, 19);
  }

  // ---- the tokens of a line we write ----------------------------------------------------

  predicate Plain(tok: Octets) { tok != [] && forall k :: 0 <= k < |tok| ==> !Ends(tok[k]) }

  /** `tok` stands in `s` at `i`. */
  predicate Stands(s: Octets, i: nat, tok: Octets) {
    i + |tok| <= |s| && forall k :: 0 <= k < |tok| ==> s[i + k] == tok[k]
  }

  predicate EndsAt(s: Octets, i: nat) { i < |s| ==> Ends(s[i]) }

  lemma {:induction false} StopAt(s: Octets, i: nat, e: nat)
    requires i <= e <= |s| && EndsAt(s, e) && forall k :: i <= k < e ==> !Ends(s[k])
    ensures TokenStop(s, i) == e
    decreases e - i
  {
    if i < e {
      StopAt(s, i + 1, e);
    }
  }

  /** A plain token standing at `i` is read, and then what follows it. */
  lemma TokenAt(s: Octets, i: nat, tok: Octets, n: nat)
    requires n > 0 && Plain(tok) && Stands(s, i, tok) && EndsAt(s, i + |tok|)
    ensures Tokens(s, i, n) == [tok] + Tokens(s, i + |tok|, n - 1)
  {
    var e := i + |tok|;
    forall k | i <= k < e
      ensures !Ends(s[k])
    {
      assert s[i + (k - i)] == tok[k - i];
    }
    StopAt(s, i, e);
    assert s[i + 0] == tok[0];
    assert SkipSpaces(s, i) == i;
    assert s[i..e] == tok;
  }

  /** The same behind a tab. */
  lemma TabToken(s: Octets, i: nat, tok: Octets, n: nat)
    requires n > 0 && Plain(tok) && i < |s| && s[i] == TAB && Stands(s, i + 1, tok) && EndsAt(s, i + 1 + |tok|)
    ensures Tokens(s, i, n) == [tok] + Tokens(s, i + 1 + |tok|, n - 1)
  {
    TokenAt(s, i + 1, tok, n);
    assert SkipSpaces(s, i) == SkipSpaces(s, i + 1);
  }

  lemma NoToken(s: Octets, i: nat, n: nat)
    requires i <= |s| && (i == |s| || (s[i] == TAB && i + 1 < |s| && s[i + 1] == HASH))
    ensures Tokens(s, i, n) == []
  {
    if i < |s| {
      assert SkipSpaces(s, i) == SkipSpaces(s, i + 1) == i + 1;
    }
  }

  // ---- the allow-list -------------------------------------------------------------------

  /** One peer: identity as written, its identity key, and its agreement key when
      the line has that column. */
  datatype Allow = Allow(identity: Octets, pub: Octets, agree: Option<Octets>)

  /** The part of a token before any NUL, which is all a C string keeps of it. */
  function CStr(s: Octets): (r: Octets)
    ensures 0 !in s ==> r == s
  {
    if s == [] || s[0] == 0 then [] else [s[0]] + CStr(s[1..])
  }

  function ParseAllow(toks: seq<Octets>): Option<Allow> {
    if |toks| < 2 || |toks[0]| > MAX_IDENTITY || |toks[1]| != PUB_HEX_CHARS then None
    else
      match UnHex(toks[1], POINT_LEN)
      case None => None
      case Some(pub) =>
        if |toks| < 3 then Some(Allow(CStr(toks[0]), pub, None))
        else
          match UnHex(toks[2], POINT_LEN)
          case None => None
          case Some(agree) => Some(Allow(CStr(toks[0]), pub, Some(agree)))
  }

  function AllowLine(e: Allow): Octets {
    e.identity + [TAB] + Hex(e.pub) + if e.agree.Some? then [TAB] + Hex(e.agree.value) else []
  }

  /** What the append accepts of its caller: C strings hold no NUL, points have
      their width, and the identity is one token. */
  predicate Appendable(e: Allow) {
    && Plain(e.identity) && |e.identity| <= MAX_IDENTITY && 0 !in e.identity
    && |e.pub| == POINT_LEN && (e.agree.Some? ==> |e.agree.value| == POINT_LEN)
  }

  lemma HexPlain(b: Octets)
    requires b != []
    ensures Plain(Hex(b))
  {
    HexIsPlain(b);
  }

  lemma FirstTwoTokens(e: Allow)
    requires Appendable(e)
    ensures var s := AllowLine(e);
            Tokens(s, 0, 4) == [e.identity] + ([Hex(e.pub)] + Tokens(s, |e.identity| + 1 + PUB_HEX_CHARS, 2))
  {
    var s := AllowLine(e);
    var i := |e.identity|;
    HexPlain(e.pub);
    assert Stands(s, 0, e.identity) && Stands(s, i + 1, Hex(e.pub));
    assert |Hex(e.pub)| == PUB_HEX_CHARS;
    TokenAt(s, 0, e.identity, 4);
    TabToken(s, i, Hex(e.pub), 3);
    assert Tokens(s, i, 3) == [Hex(e.pub)] + Tokens(s, i + 1 + PUB_HEX_CHARS, 2);
  }

  lemma AllowTokens(e: Allow)
    requires Appendable(e)
    ensures Tokens(AllowLine(e), 0, 4)
            == if e.agree.Some? then [e.identity, Hex(e.pub), Hex(e.agree.value)] else [e.identity, Hex(e.pub)]
  {
    var s := AllowLine(e);
    var j := |e.identity| + 1 + PUB_HEX_CHARS;
    FirstTwoTokens(e);
    if e.agree.Some? {
      HexPlain(e.agree.value);
      assert Stands(s, j + 1, Hex(e.agree.value));
      TabToken(s, j, Hex(e.agree.value), 2);
      NoToken(s, |s|, 1);
      assert Tokens(s, j, 2) == [Hex(e.agree.value)];
    } else {
      NoToken(s, j, 2);
    }
  }

  lemma OneLineConcat(a: Octets, b: Octets)
    requires OneLine(a) && OneLine(b)
    ensures OneLine(a + b)
  {
  }

  lemma AllowIsOneLine(e: Allow)
    requires Appendable(e)
    ensures OneLine(AllowLine(e))
  {
    HexPlain(e.pub);
    var front := e.identity + [TAB] + Hex(e.pub);
    OneLineConcat(e.identity, [TAB]);
    OneLineConcat(e.identity + [TAB], Hex(e.pub));
    if e.agree.Some? {
      HexPlain(e.agree.value);
      OneLineConcat([TAB], Hex(e.agree.value));
      OneLineConcat(front, [TAB] + Hex(e.agree.value));
    } else {
      assert front + [] == front;
    }
  }

  lemma AllowLineParses(e: Allow)
    requires Appendable(e)
    ensures ParseAllow(Tokens(AllowLine(e), 0, 4)) == Some(e)
  {
    AllowTokens(e);
    HexRoundTrip(e.pub);
    if e.agree.Some? {
      HexRoundTrip(e.agree.value);
    }
  }

  lemma AllowLineReads(e: Allow)
    requires Appendable(e)
    ensures ReadLine(ParseAllow, AllowLine(e)) == Entry(e) && OneLine(AllowLine(e))
  {
    AllowIsOneLine(e);
    AllowLineParses(e);
    AllowTokens(e);
  }

  /** Loading after an append, for every text, with or without a final newline:
      the old entries and exactly the new one. */
  lemma AllowAppendThenLoad(text: Octets, e: Allow)
    requires Appendable(e)
    ensures Load(ParseAllow, Appended(text, AllowLine(e)))
            == match Load(ParseAllow, text)
               case None => None
               case Some(es) => Some(es + [e])
  {
    AllowLineReads(e);
    LoadAppended(ParseAllow, text, AllowLine(e));
  }

  // ---- the revocation list -----------------------------------------------------------------

  datatype Revoked = Revoked(point: Octets, at: nat)

  function ParseRevoked(toks: seq<Octets>): Option<Revoked> {
    if |toks| < 1 || |toks| >= 3 || |toks[0]| != PUB_HEX_CHARS then None
    else
      match UnHex(toks[0], POINT_LEN)
      case None => None
      case Some(point) =>
        if |toks| < 2 then Some(Revoked(point, 0))
        else
          match Epoch(toks[1])
          case None => None
          case Some(at) => Some(Revoked(point, at))
  }

  lemma {:induction false} LoadedPoints(lines: seq<Octets>)
    ensures var es := ReadLines(ParseRevoked, lines);
            es.Some? ==> forall i :: 0 <= i < |es.value| ==> |es.value[i].point| == POINT_LEN
  {
    if lines != [] {
      LoadedPoints(lines[..|lines| - 1]);
    }
  }

  /** The reason with its line breaks left out. */
  function OnOneLine(s: Octets): (r: Octets)
    ensures OneLine(r)
  {
    if s == [] then []
    else OnOneLine(s[..|s| - 1]) + if s[|s| - 1] == NEWLINE || s[|s| - 1] == RETURN then [] else [s[|s| - 1]]
  }

  /** What follows the two columns: a comment with a fingerprint and a reason. */
  function Comment(fingerprint: Octets, reason: Octets): Octets {
    [TAB, HASH, SPACE] + fingerprint + OnOneLine(reason)
  }

  function RevokedLine(e: Revoked, fingerprint: Octets, reason: Octets): Octets {
    Hex(e.point) + [TAB] + Decimal(e.at) + Comment(fingerprint, reason)
  }

  lemma DigitsPlain(n: nat)
    requires IsI64(n)
    ensures Plain(Decimal(n))
  {
    EpochRoundTrip(n);
  }

  lemma RevokedTokens(e: Revoked, fingerprint: Octets, reason: Octets)
    requires |e.point| == POINT_LEN && IsI64(e.at)
    ensures Tokens(RevokedLine(e, fingerprint, reason), 0, 4) == [Hex(e.point), Decimal(e.at)]
  {
    var s := RevokedLine(e, fingerprint, reason);
    var d := Decimal(e.at);
    HexPlain(e.point);
    DigitsPlain(e.at);
    var i := PUB_HEX_CHARS;
    var j := i + 1 + |d|;
    assert s == Hex(e.point) + ([TAB] + d) + Comment(fingerprint, reason);
    assert Stands(s, 0, Hex(e.point)) && Stands(s, i + 1, d);
    assert s[j] == TAB && s[j + 1] == HASH;
    TokenAt(s, 0, Hex(e.point), 4);
    TabToken(s, i, d, 3);
    NoToken(s, j, 2);
  }

  lemma RevokedIsOneLine(e: Revoked, fingerprint: Octets, reason: Octets)
    requires |e.point| == POINT_LEN && IsI64(e.at) && OneLine(fingerprint)
    ensures OneLine(RevokedLine(e, fingerprint, reason))
  {
    HexPlain(e.point);
    DigitsPlain(e.at);
    OneLineConcat(Hex(e.point), [TAB]);
    OneLineConcat(Hex(e.point) + [TAB], Decimal(e.at));
    OneLineConcat([TAB, HASH, SPACE], fingerprint);
    OneLineConcat([TAB, HASH, SPACE] + fingerprint, OnOneLine(reason));
    OneLineConcat(Hex(e.point) + [TAB] + Decimal(e.at), Comment(fingerprint, reason));
  }

  lemma RevokedLineReads(e: Revoked, fingerprint: Octets, reason: Octets)
    requires |e.point| == POINT_LEN && IsI64(e.at)
    ensures var line := RevokedLine(e, fingerprint, reason);
            ReadLine(ParseRevoked, line) == if |line| <= MAX_LINE then Entry(e) else Bad
  {
    RevokedTokens(e, fingerprint, reason);
    HexRoundTrip(e.point);
    EpochRoundTrip(e.at);
    assert ParseRevoked([Hex(e.point), Decimal(e.at)]) == Some(e);
  }

  /** Loading after a revocation is appended, for every text: the old entries and
      exactly the new one, as long as the reason keeps the line within the limit
      the reader has; past it the whole file is refused. The writer does not check. */
  lemma RevokedAppendThenLoad(text: Octets, e: Revoked, fingerprint: Octets, reason: Octets)
    requires |e.point| == POINT_LEN && IsI64(e.at) && OneLine(fingerprint)
    ensures var line := RevokedLine(e, fingerprint, reason);
            Load(ParseRevoked, Appended(text, line))
            == match Load(ParseRevoked, text)
               case None => None
               case Some(es) => if |line| <= MAX_LINE then Some(es + [e]) else None
  {
    RevokedIsOneLine(e, fingerprint, reason);
    RevokedLineReads(e, fingerprint, reason);
    LoadAppended(ParseRevoked, text, RevokedLine(e, fingerprint, reason));
  }

  lemma {:induction false} UnbrokenReasonKept(s: Octets)
    requires forall k :: 0 <= k < |s| ==> s[k] != NEWLINE && s[k] != RETURN
    ensures OnOneLine(s) == s
  {
    if s != [] {
      UnbrokenReasonKept(s[..|s| - 1]);
      assert s == s[..|s| - 1] + [s[|s| - 1]];
    }
  }

  /** A reason of 4096 letters, appended to any file, leaves a file no entry of which can
      be read. */
  lemma LongReasonSpoilsFile(text: Octets, e: Revoked, fingerprint: Octets)
    requires |e.point| == POINT_LEN && IsI64(e.at) && OneLine(fingerprint)
    ensures Load(ParseRevoked, Appended(text, RevokedLine(e, fingerprint, Repeated(0x41, MAX_LINE)))) == None
  {
    var reason: Octets := Repeated(0x41, MAX_LINE);
    UnbrokenReasonKept(reason);
    RevokedAppendThenLoad(text, e, fingerprint, reason);
  }

  /** The reason the policy object gives, and a fingerprint, always fit. */
  lemma ShortReasonFits(e: Revoked, fingerprint: Octets, reason: Octets)
    requires |e.point| == POINT_LEN && IsI64(e.at) && |fingerprint| <= 40 && |reason| <= 3900
    ensures |RevokedLine(e, fingerprint, reason)| <= MAX_LINE
  {
    EpochRoundTrip(e.at);
    OnOneLineShorter(reason);
  }

  lemma {:induction false} OnOneLineShorter(s: Octets)
    ensures |OnOneLine(s)| <= |s|
  {
    if s != [] {
      OnOneLineShorter(s[..|s| - 1]);
    }
  }
}
