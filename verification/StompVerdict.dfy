/** What any buffer is decoded to, well formed or not (crates/oa-gateway-stomp/src/codec.rs). */
module StompVerdict {
  import opened Wrappers
  import opened Utf8
  import opened StompCodec
  import opened StompStream
  import Decimal

  // ---- One header line -----------------------------------------------------------------

  /** A line spells a header: escaped name, the first colon, escaped value. */
  ghost predicate SpellsHeader(line: Text, h: Header) {
    exists i :: 0 <= i < |line| && line[i] == COLON && COLON !in line[..i]
                && Unescape(line[..i]) == Ok(h.0) && Unescape(line[i + 1..]) == Ok(h.1)
  }

  lemma {:induction false} UnescapeFails(s: Text)
    ensures Unescape(s).Err? ==> Unescape(s).error == BadEscape
  {
    if s != [] {
      UnescapeFails(s[1..]);
      if |s| > 1 { UnescapeFails(s[2..]); }
    }
  }

  lemma NoColon(line: Text)
    ensures IndexOf(line, COLON) == |line| <==> COLON !in line
  {
    var i := IndexOf(line, COLON);
    if i == |line| { assert line[..i] == line; } else { assert line[i] in line; }
  }

  /** How one line is read: refused without a colon, refused when a part cannot be unescaped,
      refused when it is a length that is no number; else it is the header it spells. */
  lemma LineVerdict(line: Text)
    ensures ParseLine(line) == Err(BadHeader) <==> COLON !in line
    ensures ParseLine(line) == Err(BadEscape) <==> COLON in line && forall h :: !SpellsHeader(line, h)
    ensures ParseLine(line) == Err(BadContentLength) <==>
            exists h :: SpellsHeader(line, h) && h.0 == LENGTH_NAME && Decimal.ParseUnsigned(h.1).None?
    ensures ParseLine(line).Ok? ==>
              var r := ParseLine(line).value;
              && |r.headers| == 1 && SpellsHeader(line, r.headers[0])
              && r.length == if r.headers[0].0 == LENGTH_NAME then Decimal.ParseUnsigned(r.headers[0].1) else None
  {
    NoColon(line);
    if COLON in line {
      var i := IndexOf(line, COLON);
      UnescapeFails(line[..i]);
      UnescapeFails(line[i + 1..]);
      forall h ensures SpellsHeader(line, h) <==> Unescape(line[..i]) == Ok(h.0) && Unescape(line[i + 1..]) == Ok(h.1) { SpelledOnce(line, h); }
      if Unescape(line[..i]).Ok? && Unescape(line[i + 1..]).Ok? {
        var h := (Unescape(line[..i]).value, Unescape(line[i + 1..]).value);
        assert SpellsHeader(line, h);
      }
    }
  }

  lemma SpelledOnce(line: Text, h: Header)
    requires COLON in line
    ensures var i := IndexOf(line, COLON);
            i < |line| && (SpellsHeader(line, h) <==> Unescape(line[..i]) == Ok(h.0) && Unescape(line[i + 1..]) == Ok(h.1))
  {
    NoColon(line);
    if SpellsHeader(line, h) {
      var i :| 0 <= i < |line| && line[i] == COLON && COLON !in line[..i]
               && Unescape(line[..i]) == Ok(h.0) && Unescape(line[i + 1..]) == Ok(h.1);
      IndexOfAt(line, COLON, i);
    }
  }

  // ---- All lines -----------------------------------------------------------------------

  /** Lines that are not blank. */
  function NonBlank(lines: seq<Text>): seq<Text> {
    if lines == [] then [] else (if lines[0] == [] then [] else [lines[0]]) + NonBlank(lines[1..])
  }

  ghost predicate SpellHeaders(lines: seq<Text>, headers: seq<Header>) {
    |lines| == |headers| && forall i :: 0 <= i < |lines| ==> SpellsHeader(lines[i], headers[i])
  }

  /** Every line that is not blank is one header, in order; the last length counts. */
  lemma {:induction false} LinesSay(lines: seq<Text>)
    requires ParseLines(lines).Ok?
    ensures var r := ParseLines(lines).value;
            && SpellHeaders(NonBlank(lines), r.headers)
            && LengthsParse(r.headers) && r.length == LastLength(r.headers)
  {
    if lines != [] {
      LinesSay(lines[1..]);
      if lines[0] != [] {
        LineVerdict(lines[0]);
        var h, rest := ParseLine(lines[0]).value.headers, ParseLines(lines[1..]).value.headers;
        assert h == [h[0]] && (h + rest)[1..] == rest;
        LengthsParseSplit(h + rest);
        SpellCons(lines[0], NonBlank(lines[1..]), h[0], rest);
      }
    }
  }

  lemma SpellCons(line: Text, lines: seq<Text>, h: Header, headers: seq<Header>)
    requires SpellsHeader(line, h) && SpellHeaders(lines, headers)
    ensures SpellHeaders([line] + lines, [h] + headers)
  {
  }

  /** The first of the lines to be refused is refused with `e`. */
  predicate FirstRefused(lines: seq<Text>, e: CodecError) {
    exists k :: 0 <= k < |lines| && RefusedAt(lines, k, e)
  }

  predicate RefusedAt(lines: seq<Text>, k: nat, e: CodecError) {
    k < |lines| && ParseLine(lines[k]) == Err(e) && forall j :: 0 <= j < k ==> ParseLine(lines[j]).Ok?
  }

  lemma FirstRefusedCons(line: Text, lines: seq<Text>, e: CodecError)
    ensures FirstRefused([line] + lines, e) <==> ParseLine(line) == Err(e) || (ParseLine(line).Ok? && FirstRefused(lines, e))
  {
    var all := [line] + lines;
    assert all[0] == line && forall i :: 0 <= i < |lines| ==> all[i + 1] == lines[i];
    if ParseLine(line) == Err(e) { assert RefusedAt(all, 0, e); }
    if k :| 0 <= k < |lines| && RefusedAt(lines, k, e) {
      if ParseLine(line).Ok? {
        forall j | 0 <= j < k + 1 ensures ParseLine(all[j]).Ok? { if j > 0 { assert all[j] == lines[j - 1]; } }
        assert RefusedAt(all, k + 1, e);
      }
    }
    if k :| 0 <= k < |all| && RefusedAt(all, k, e) {
      if k > 0 {
        assert ParseLine(all[0]).Ok?;
        forall j | 0 <= j < k - 1 ensures ParseLine(lines[j]).Ok? { assert lines[j] == all[j + 1]; }
        assert RefusedAt(lines, k - 1, e);
      }
    }
  }

  /** The first line that is refused decides, and blank lines are passed over. */
  lemma {:induction false} LinesRefused(lines: seq<Text>, e: CodecError)
    ensures ParseLines(lines) == Err(e) <==> FirstRefused(NonBlank(lines), e)
  {
    if lines != [] {
      LinesRefused(lines[1..], e);
      assert lines[0] == [] ==> NonBlank(lines) == NonBlank(lines[1..]);
      FirstRefusedCons(lines[0], NonBlank(lines[1..]), e);
    }
  }

  lemma LinesFail(lines: seq<Text>)
    requires ParseLines(lines).Err?
    ensures ParseLines(lines).error in {BadHeader, BadEscape, BadContentLength}
  {
    var e := ParseLines(lines).error;
    LinesRefused(lines, e);
    var k :| 0 <= k < |NonBlank(lines)| && RefusedAt(NonBlank(lines), k, e);
    var line := NonBlank(lines)[k];
    LineVerdict(line);
    UnescapeFails(line[..IndexOf(line, COLON)]);
    if IndexOf(line, COLON) < |line| { UnescapeFails(line[IndexOf(line, COLON) + 1..]); }
  }

  // ---- The command ---------------------------------------------------------------------

  lemma {:induction false} SkipStops(buf: seq<byte>)
    ensures var r := SkipHeartbeats(buf);
            && (r != [] ==> r[0] !in {LF, CR, NUL})
            && OnlyHeartbeats(buf[..|buf| - |r|]) && buf == buf[..|buf| - |r|] + r
  {
    if buf != [] && IsHeartbeat(buf[0]) {
      SkipStops(buf[1..]);
      var r := SkipHeartbeats(buf[1..]);
      var n := |buf| - |r|;
      assert buf[..n] == [buf[0]] + buf[1..][..n - 1];
    }
  }

  lemma {:induction false} TrimKeepsFirst(s: Text)
    requires s != [] && s[0] != CR
    ensures TrimCr(s) != [] && TrimCr(s)[0] == s[0]
  {
    if s[|s| - 1] == CR { TrimKeepsFirst(s[..|s| - 1]); }
  }

  /** A first line is never blank: heartbeats are gone before it is looked at. */
  lemma CommandIsThere(block: Text)
    requires block != [] && block[0] !in {LF, CR, NUL}
    ensures TrimmedLines(block)[0] != []
  {
    var i := IndexOf(block, LF);
    assert i > 0;
    TrimKeepsFirst(Split(block)[0]);
  }

  // ---- The verdict ---------------------------------------------------------------------

  /** What the buffer holds of a frame's headers: nothing yet, or a block that ends at `end`. */
  ghost predicate BlockIn(buf: seq<byte>, end: nat, max: nat) {
    HeaderEndFrom(SkipHeartbeats(buf), 0) == Some(end) && end <= max && SkipHeartbeats(buf) != []
  }

  /** Without a whole block the buffer is kept, up to the limit and no further. */
  lemma WaitVerdict(buf: seq<byte>, max: nat)
    requires HeaderEndFrom(SkipHeartbeats(buf), 0).None?
    ensures var there := SkipHeartbeats(buf);
            Decode(buf, max) == if |there| <= max then Decoded(Ok(None), there) else Refuse(FrameTooLarge(max), there)
  {
  }

  /** A block is refused for a NUL before it is refused as no UTF-8, and for that before any of
      its lines; a missing command is never what is wrong with it. */
  lemma BlockVerdict(buf: seq<byte>, max: nat, end: nat)
    requires BlockIn(buf, end, max)
    ensures var block, r := SkipHeartbeats(buf)[..end], Decode(buf, max).result;
            var lines := TrimmedLines(block)[1..];
            && (NUL in block <==> r == Err(NulInHeaders))
            && (NUL !in block && !Valid(block) <==> r == Err(NotUtf8))
            && (NUL !in block && Valid(block) && ParseLines(lines).Err? <==>
                  r in {Err(BadHeader), Err(BadEscape), Err(BadContentLength)})
            && (NUL !in block && Valid(block) && ParseLines(lines).Err? ==> r == Err(ParseLines(lines).error))
  {
    BlockDecides(buf, max, end);
    var lines := TrimmedLines(SkipHeartbeats(buf)[..end]);
    if ParseLines(lines[1..]).Err? { LinesFail(lines[1..]); }
    else { BodyErrors(SkipHeartbeats(buf), end, lines[0], ParseLines(lines[1..]).value, max); }
  }

  /** Decoding a buffer with a whole block in it, without the question for the command. */
  lemma BlockDecides(buf: seq<byte>, max: nat, end: nat)
    requires BlockIn(buf, end, max)
    ensures var there := SkipHeartbeats(buf);
            var lines := TrimmedLines(there[..end]);
            Decode(buf, max) ==
            if NUL in there[..end] then Refuse(NulInHeaders, there)
            else if !Valid(there[..end]) then Refuse(NotUtf8, there)
            else match ParseLines(lines[1..])
                 case Err(e) => Refuse(e, there)
                 case Ok(parsed) => TakeBody(there, end, lines[0], parsed, max)
  {
    SkipStops(buf);
    CommandIsThere(SkipHeartbeats(buf)[..end]);
  }

  lemma BodyErrors(buf: seq<byte>, start: nat, command: Text, parsed: Parsed, max: nat)
    requires start <= |buf|
    ensures var r := TakeBody(buf, start, command, parsed, max).result;
            r.Ok? || r.error == FrameTooLarge(max) || r.error == MissingNull
  {
  }

  lemma NeverMissingCommand(buf: seq<byte>, max: nat)
    ensures Decode(buf, max).result != Err(MissingCommand)
  {
    var rest := SkipHeartbeats(buf);
    if rest != [] && HeaderEndFrom(rest, 0).Some? && HeaderEndFrom(rest, 0).value <= max {
      var end := HeaderEndFrom(rest, 0).value;
      var lines := TrimmedLines(rest[..end]);
      BlockDecides(buf, max, end);
      if ParseLines(lines[1..]).Err? { LinesFail(lines[1..]); }
      else { BodyErrors(rest, end, lines[0], ParseLines(lines[1..]).value, max); }
    }
  }

  /** A length that is declared has to be followed by NUL. */
  lemma LengthVerdict(buf: seq<byte>, max: nat, end: nat, parsed: Parsed)
    requires BlockIn(buf, end, max) && NUL !in SkipHeartbeats(buf)[..end] && Valid(SkipHeartbeats(buf)[..end])
    requires ParseLines(TrimmedLines(SkipHeartbeats(buf)[..end])[1..]) == Ok(parsed)
    requires parsed.length.Some? && end + parsed.length.value < Decimal.U64_LIMIT
    ensures var there, n, r := SkipHeartbeats(buf), parsed.length.value, Decode(buf, max).result;
            && (n > max <==> r == Err(FrameTooLarge(max)))
            && (n <= max && |there| <= end + n <==> r == Ok(None))
            && (n <= max && |there| > end + n && there[end + n] != NUL <==> r == Err(MissingNull))
  {
    BlockDecides(buf, max, end);
    DeclaredBody(SkipHeartbeats(buf), end, TrimmedLines(SkipHeartbeats(buf)[..end])[0], parsed, max);
  }

  lemma DeclaredBody(buf: seq<byte>, start: nat, command: Text, parsed: Parsed, max: nat)
    requires start <= |buf| && parsed.length.Some? && start + parsed.length.value < Decimal.U64_LIMIT
    ensures var n, r := parsed.length.value, TakeBody(buf, start, command, parsed, max).result;
            && (n > max <==> r == Err(FrameTooLarge(max)))
            && (n <= max && |buf| <= start + n <==> r == Ok(None))
            && (n <= max && |buf| > start + n && buf[start + n] != NUL <==> r == Err(MissingNull))
  {
  }

  /** Whatever is decoded was in the buffer: heartbeats, a block of a command and the lines of
      the frame's headers, the body, a NUL, and then what is left. The body is as long as the
      last length says, or holds no NUL if there is none. */
  lemma DecodedWasThere(buf: seq<byte>, max: nat, f: Frame, rest: seq<byte>) returns (beats: seq<byte>, block: Text)
    requires Decode(buf, max) == Decoded(Ok(Some(f)), rest)
    ensures buf == beats + block + f.body + [NUL] + rest && OnlyHeartbeats(beats)
    ensures |block| <= max && Valid(block) && NUL !in block && TrimmedLines(block)[0] == f.command
    ensures SpellHeaders(NonBlank(TrimmedLines(block)[1..]), f.headers) && LengthsParse(f.headers)
    ensures match LastLength(f.headers) case Some(n) => n == |f.body| <= max case None => NUL !in f.body
  {
    SkipStops(buf);
    var there := SkipHeartbeats(buf);
    var end := HeaderEndFrom(there, 0).value;
    beats, block := buf[..|buf| - |there|], there[..end];
    var lines := TrimmedLines(block);
    LinesSay(lines[1..]);
    BodyWasThere(there, end, lines[0], ParseLines(lines[1..]).value, max, f, rest);
    assert buf == beats + there;
    Regroup(beats, block, f.body, rest);
  }

  lemma BodyWasThere(buf: seq<byte>, start: nat, command: Text, parsed: Parsed, max: nat, f: Frame, rest: seq<byte>)
    requires start <= |buf| && TakeBody(buf, start, command, parsed, max) == Decoded(Ok(Some(f)), rest)
    ensures f.command == command && f.headers == parsed.headers && buf == buf[..start] + f.body + [NUL] + rest
    ensures match parsed.length case Some(n) => n == |f.body| <= max case None => NUL !in f.body
  {
    var end := start + |f.body|;
    assert end < |buf| && buf[start..end] == f.body && buf[end] == NUL && buf[end + 1..] == rest;
    InFour(buf, start, end);
  }

  lemma InFour(buf: seq<byte>, start: nat, end: nat)
    requires start <= end < |buf|
    ensures buf == buf[..start] + buf[start..end] + [buf[end]] + buf[end + 1..]
  {
  }

  lemma Regroup(a: seq<byte>, b: seq<byte>, c: seq<byte>, d: seq<byte>)
    ensures a + (b + c + [NUL] + d) == a + b + c + [NUL] + d
  {
  }
}
