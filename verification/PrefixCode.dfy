/** Codes that read one symbol at a time from the front of a string. Both the
    UTF-8 and the UTF-16/UTF-32 forms of an address are codes of this kind. */
module PrefixCode {
  import opened Bytes

  /** What reading the front of a string gives: a symbol and how much it took. */
  datatype Head<+S> = Refused | Read(c: S, n: nat)

  /** The code words of `cs`, one after the other. */
  function Flat<S, T>(enc: S -> seq<T>, cs: seq<S>): seq<T> {
    if cs == [] then [] else enc(cs[0]) + Flat(enc, cs[1..])
  }

  /** Symbols read until the string is used up; None when one is refused. */
  function Parse<S, T>(head: seq<T> -> Head<S>, b: seq<T>): Option<seq<S>>
    decreases |b|
  {
    if b == [] then Some([])
    else
      match head(b)
      case Refused => None
      case Read(c, n) => if 1 <= n <= |b| then Prepend([c], Parse(head, b[n..])) else None
  }

  function Prepend<S>(done: seq<S>, rest: Option<seq<S>>): Option<seq<S>> {
    match rest
    case None => None
    case Some(cs) => Some(done + cs)
  }

  /** `head` recognises every code word in front of anything. */
  ghost predicate Reads<S(!new), T(!new)>(enc: S -> seq<T>, head: seq<T> -> Head<S>) {
    forall c, rest :: enc(c) != [] && head(enc(c) + rest) == Read(c, |enc(c)|)
  }

  /** What `head` recognises is a code word. */
  ghost predicate ReadsOnly<S(!new), T(!new)>(enc: S -> seq<T>, head: seq<T> -> Head<S>) {
    forall b :: b != [] && head(b).Read? ==> head(b).n <= |b| && enc(head(b).c) == b[..head(b).n]
  }

  lemma {:induction false} ParseFlat<S(!new), T(!new)>(enc: S -> seq<T>, head: seq<T> -> Head<S>, cs: seq<S>)
    requires Reads(enc, head)
    ensures Parse(head, Flat(enc, cs)) == Some(cs)
  {
    if cs != [] {
      var b := Flat(enc, cs);
      assert head(enc(cs[0]) + Flat(enc, cs[1..])) == Read(cs[0], |enc(cs[0])|);
      assert b[|enc(cs[0])|..] == Flat(enc, cs[1..]);
      ParseFlat(enc, head, cs[1..]);
      assert cs == [cs[0]] + cs[1..];
    }
  }

  lemma FlatCons<S, T>(enc: S -> seq<T>, c: S, cs: seq<S>)
    ensures Flat(enc, [c] + cs) == enc(c) + Flat(enc, cs)
  {
    assert ([c] + cs)[1..] == cs;
  }

  lemma {:induction false} FlatParse<S(!new), T(!new)>(enc: S -> seq<T>, head: seq<T> -> Head<S>, b: seq<T>)
    requires ReadsOnly(enc, head)
    requires Parse(head, b).Some?
    ensures Flat(enc, Parse(head, b).value) == b
    decreases |b|
  {
    if b != [] {
      var h := head(b);
      FlatParse(enc, head, b[h.n..]);
      FlatCons(enc, h.c, Parse(head, b[h.n..]).value);
      assert b == b[..h.n] + b[h.n..];
    }
  }

  lemma {:induction false} FlatAppend<S, T>(enc: S -> seq<T>, cs: seq<S>, ds: seq<S>)
    ensures Flat(enc, cs + ds) == Flat(enc, cs) + Flat(enc, ds)
  {
    if cs == [] {
      assert cs + ds == ds;
    } else {
      FlatAppend(enc, cs[1..], ds);
      assert (cs + ds)[0] == cs[0] && (cs + ds)[1..] == cs[1..] + ds;
    }
  }

  lemma FlatSnoc<S, T>(enc: S -> seq<T>, cs: seq<S>, c: S)
    ensures Flat(enc, cs + [c]) == Flat(enc, cs) + enc(c)
  {
    FlatAppend(enc, cs, [c]);
    assert Flat(enc, [c]) == enc(c) + Flat(enc, []);
  }

  /** Where a reading loop stands: `done` read, `b[i..]` still to read. */
  ghost predicate Reading<S, T>(head: seq<T> -> Head<S>, b: seq<T>, done: seq<S>, i: nat) {
    i <= |b| && Parse(head, b) == Prepend(done, Parse(head, b[i..]))
  }

  lemma ReadingStarts<S, T>(head: seq<T> -> Head<S>, b: seq<T>)
    ensures Reading(head, b, [], 0)
  {
    assert b[0..] == b;
    if Parse(head, b).Some? {
      assert [] + Parse(head, b).value == Parse(head, b).value;
    }
  }

  lemma ReadingStep<S, T>(head: seq<T> -> Head<S>, b: seq<T>, done: seq<S>, i: nat, c: S, n: nat)
    requires Reading(head, b, done, i) && i < |b|
    requires head(b[i..]) == Read(c, n) && 1 <= n <= |b| - i
    ensures Reading(head, b, done + [c], i + n)
  {
    assert b[i..][n..] == b[i + n..];
    var rest := Parse(head, b[i + n..]);
    if rest.Some? {
      assert done + ([c] + rest.value) == (done + [c]) + rest.value;
    }
  }

  lemma ReadingStuck<S, T>(head: seq<T> -> Head<S>, b: seq<T>, done: seq<S>, i: nat)
    requires Reading(head, b, done, i) && i < |b|
    requires head(b[i..]).Refused?
    ensures Parse(head, b) == None
  {
  }

  lemma ReadingEnds<S, T>(head: seq<T> -> Head<S>, b: seq<T>, done: seq<S>)
    requires Reading(head, b, done, |b|)
    ensures Parse(head, b) == Some(done)
  {
    assert b[|b|..] == [] && done + [] == done;
  }

  /** What has been read is a prefix of whatever the whole string reads as. */
  lemma ReadingPrefix<S, T>(head: seq<T> -> Head<S>, b: seq<T>, done: seq<S>, i: nat)
    requires Reading(head, b, done, i) && Parse(head, b).Some?
    ensures done <= Parse(head, b).value
  {
  }

  lemma FlatPrefix<S, T>(enc: S -> seq<T>, cs: seq<S>, ds: seq<S>)
    requires cs <= ds
    ensures |Flat(enc, cs)| <= |Flat(enc, ds)|
  {
    FlatAppend(enc, cs, ds[|cs|..]);
    assert ds == cs + ds[|cs|..];
  }
}
