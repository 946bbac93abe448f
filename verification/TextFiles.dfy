/** The allow-list and revocation-list files themselves: read whole, rewritten
    whole by an atomic replace, either of which the platform may fail. */
module TextFiles {
  import opened Bytes
  import opened Primitives
  import opened TextStore

  predicate Clean(s: string) { forall i :: 0 <= i < |s| ==> s[i] as int < 0x80 && s[i] != '\n' }

  predicate IsComment(line: Octets) { line != [] && line[0] == HASH && OneLine(line) && |line| <= MAX_LINE }

  predicate AreComments(lines: seq<Octets>) { forall i :: 0 <= i < |lines| ==> IsComment(lines[i]) }

  function CommentLine(s: string): (r: Octets)
    requires Clean(s) && 0 < |s| <= MAX_LINE && s[0] == '#'
    ensures IsComment(r)
  {
    Ascii(s)
  }

  const ALLOW_1 := CommentLine("# Targetcore peer allow-list:")
  const ALLOW_2 := CommentLine("#   <identity> <identity key, hex> " + "[<agreement key, hex>]")

  const HEAD_ALLOW := [ALLOW_1, ALLOW_2]

  const REVOKED_1 := CommentLine("# Targetcore revocation list:")
  const REVOKED_2 := CommentLine("#   <public point, hex> " + "[<revoked-at, epoch seconds>]  # why")
  const REVOKED_3 := CommentLine("# A listed point is refused " + "wherever it appears - login and")
  const REVOKED_4 := CommentLine("# sealing, identity keys and " + "agreement keys alike. The timestamp")
  const REVOKED_5 := CommentLine("# is a record, not a window: " + "it is never compared to the clock.")

  const HEAD_REVOKED := [REVOKED_1, REVOKED_2, REVOKED_3, REVOKED_4, REVOKED_5]

  lemma HeadingsAreComments()
    ensures AreComments(HEAD_ALLOW) && AreComments(HEAD_REVOKED)
  {
  }

  /** A new file begins with its comment lines. */
  function Heading(lines: seq<Octets>): Octets {
    if lines == [] then [] else Appended(Heading(lines[..|lines| - 1]), lines[|lines| - 1])
  }

  function TextOr(content: Option<Octets>, head: seq<Octets>): Octets {
    if content.Some? then content.value else Heading(head)
  }

  lemma CommentIsBlank<E>(parse: LineParser<E>, line: Octets)
    requires IsComment(line)
    ensures ReadLine(parse, line) == Blank
  {
    assert SkipSpaces(line, 0) == 0;
  }

  /** A heading holds no entry. */
  lemma {:induction false} HeadingIsEmpty<E>(parse: LineParser<E>, lines: seq<Octets>)
    requires AreComments(lines)
    ensures Load(parse, Heading(lines)) == Some([])
  {
    if lines != [] {
      HeadingIsEmpty(parse, lines[..|lines| - 1]);
      CommentIsBlank(parse, lines[|lines| - 1]);
      LoadAppended(parse, Heading(lines[..|lines| - 1]), lines[|lines| - 1]);
    }
  }

  class TextFile {
    /** None while the file does not exist. */
    var content: Option<Octets>

    constructor (initial: Option<Octets>)
      ensures content == initial
    {
      content := initial;
    }

    method ReadWholeFile(cbMax: nat) returns (r: IdResult, v: Octets)
      ensures r.IdOk? ==> content == Some(v) && |v| <= cbMax
      ensures r.IdErrNotFound? ==> content.None?
      ensures r.IdOk? || r.IdErrNotFound? || r.IdErrIo? || (r.IdErrFormat? && content.Some? && |content.value| > cbMax)
    {
      v := [];
      var failed: bool := *;
      if failed {
        return IdErrIo, v;
      }
      match content
      case None => r := IdErrNotFound;
      case Some(t) =>
        if |t| > cbMax {
          return IdErrFormat, v;
        }
        return IdOk, t;
    }

    /** The new content is in place or the old one is untouched. */
    method WriteWholeFile(v: Octets) returns (r: IdResult)
      modifies this
      ensures r.IdOk? || r.IdErrIo?
      ensures content == if r.IdOk? then Some(v) else old(content)
    {
      var failed: bool := *;
      if failed {
        return IdErrIo;
      }
      content := Some(v);
      return IdOk;
    }

    /** Read the file, or begin one with `head`, and add `line`. */
    method AppendLine(head: seq<Octets>, line: Octets) returns (r: IdResult)
      modifies this
      ensures content == if r.IdOk? then Some(Appended(TextOr(old(content), head), line)) else old(content)
      ensures r.IdOk? ==> old(content).None? || |old(content).value| <= MAX_TEXT_FILE
      ensures !r.IdErrNotFound? && !r.IdErrArgs?
    {
      var text;
      r, text := ReadWholeFile(MAX_TEXT_FILE);
      if r.IdErrNotFound? {
        text := Heading(head);
      } else if !r.IdOk? {
        return;
      }
      if text != [] && text[|text| - 1] != NEWLINE {
        text := text + [NEWLINE];
      }
      r := WriteWholeFile(text + line + [NEWLINE]);
    }

    /** Refused exactly when the identity is empty, too long, or not one token;
        otherwise the file gains the entry's line or is left as it was. */
    method AppendAllowList(e: Allow) returns (r: IdResult)
      requires 0 !in e.identity && |e.pub| == POINT_LEN && (e.agree.Some? ==> |e.agree.value| == POINT_LEN)
      modifies this
      ensures r.IdErrArgs? <==> !Appendable(e)
      ensures content == if r.IdOk? then Some(Appended(TextOr(old(content), HEAD_ALLOW), AllowLine(e)))
                         else old(content)
    {
      if e.identity == [] || |e.identity| > MAX_IDENTITY {
        return IdErrArgs;
      }
      for i := 0 to |e.identity|
        invariant forall k :: 0 <= k < i ==> !Ends(e.identity[k])
      {
        if IsSpace(e.identity[i]) || e.identity[i] == HASH {
          return IdErrArgs;
        }
      }
      var line := e.identity + [TAB];
      var h := HexEncode(e.pub);
      line := line + h;
      if e.agree.Some? {
        var a := HexEncode(e.agree.value);
        line := line + [TAB] + a;
        assert line == AllowLine(e);
      } else {
        assert line + [] == line;
      }
      r := AppendLine(HEAD_ALLOW, line);
    }

    /** A zero stamp means now; a negative one is refused. The reason's length is
        not looked at. */
    method AppendRevocationList(point: Octets, revokedAt: int, now: int, fingerprint: Octets, reason: Octets)
      returns (r: IdResult)
      requires |point| == POINT_LEN && IsI64(revokedAt) && IsI64(now)
      modifies this
      ensures var at := if revokedAt == 0 then now else revokedAt;
              && (r.IdErrArgs? <==> at < 0)
              && content == if r.IdOk? then Some(Appended(TextOr(old(content), HEAD_REVOKED),
                                                          RevokedLine(Revoked(point, at), fingerprint, reason)))
                            else old(content)
    {
      var at := if revokedAt == 0 then now else revokedAt;
      if at < 0 {
        return IdErrArgs;
      }
      var line := HexEncode(point);
      line := line + [TAB] + Decimal(at);
      var kept: Octets := [];
      for i := 0 to |reason|
        invariant kept == OnOneLine(reason[..i])
      {
        assert reason[..i + 1][..i] == reason[..i];
        if reason[i] != NEWLINE && reason[i] != RETURN {
          kept := kept + [reason[i]];
        }
      }
      assert reason[..|reason|] == reason;
      line := line + ([TAB, HASH, SPACE] + fingerprint + kept);
      r := AppendLine(HEAD_REVOKED, line);
    }

    /** The whole file's entries, or no entry at all. */
    method LoadEntries<E>(parse: LineParser<E>) returns (r: IdResult, es: seq<E>)
      ensures r.IdOk? ==> content.Some? && |content.value| <= MAX_TEXT_FILE && Load(parse, content.value) == Some(es)
      ensures r.IdErrFormat? ==> content.Some? && (|content.value| > MAX_TEXT_FILE || Load(parse, content.value).None?)
      ensures r.IdOk? || r.IdErrFormat? || r.IdErrIo? || (r.IdErrNotFound? && content.None?)
    {
      es := [];
      var text;
      r, text := ReadWholeFile(MAX_TEXT_FILE);
      if !r.IdOk? {
        return;
      }
      var got := ForEachLine(parse, text);
      if got.None? {
        return IdErrFormat, es;
      }
      es := got.value;
    }
  }

  /** A file that did not exist holds, after the first append, that entry alone. */
  lemma FirstAllowed(e: Allow)
    requires Appendable(e)
    ensures Load(ParseAllow, Appended(TextOr(None, HEAD_ALLOW), AllowLine(e))) == Some([e])
  {
    HeadingsAreComments();
    HeadingIsEmpty(ParseAllow, HEAD_ALLOW);
    AllowAppendThenLoad(Heading(HEAD_ALLOW), e);
    assert [] + [e] == [e];
  }

  lemma FirstRevoked(v: Revoked, fingerprint: Octets, reason: Octets)
    requires |v.point| == POINT_LEN && IsI64(v.at) && OneLine(fingerprint)
    ensures var line := RevokedLine(v, fingerprint, reason);
            Load(ParseRevoked, Appended(TextOr(None, HEAD_REVOKED), line))
            == if |line| <= MAX_LINE then Some([v]) else None
  {
    HeadingsAreComments();
    HeadingIsEmpty(ParseRevoked, HEAD_REVOKED);
    RevokedAppendThenLoad(Heading(HEAD_REVOKED), v, fingerprint, reason);
    assert [] + [v] == [v];
  }
}
