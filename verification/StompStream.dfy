/** What crosses the socket: encodings of many frames, cut into reads anywhere, and the
    buffer loop that reassembles them (crates/oa-gateway-stomp/src/client.rs). */
module StompStream {
  import opened Wrappers
  import opened Utf8
  import opened StompCodec
  import Decimal

  /** Longest `Vec<u8>` Rust allocates: `isize::MAX` bytes. */
  const VEC_LIMIT: int := 0x7FFF_FFFF_FFFF_FFFF

  /** `[0u8; 8192]` in `FrameReader::recv`. */
  const READ_SIZE: nat := 8192

  // ---- Which frames survive the wire ---------------------------------------------------

  predicate SafeText(s: Text) {
    Valid(s) && NUL !in s
  }

  predicate SafeCommand(c: Text) {
    SafeText(c) && c != [] && LF !in c && c[0] != CR && c[|c| - 1] != CR
  }

  predicate SafeHeaders(headers: seq<Header>) {
    forall i :: 0 <= i < |headers| ==> SafeText(headers[i].0) && SafeText(headers[i].1)
  }

  /** Text fields fit the header block; nothing is said about `content-length` yet. */
  predicate WireSafe(f: Frame, max: nat) {
    && SafeCommand(f.command)
    && SafeHeaders(f.headers)
    && |HeaderBlock(f)| <= max
    && |f.body| <= max
    && |Encode(f)| <= VEC_LIMIT
  }

  predicate LengthsParse(headers: seq<Header>) {
    forall i :: 0 <= i < |headers| && headers[i].0 == LENGTH_NAME ==> Decimal.ParseUnsigned(headers[i].1).Some?
  }

  /** The number the last `content-length` carries. */
  function LastLength(headers: seq<Header>): Option<nat> {
    if headers == [] then None
    else
      var later := LastLength(headers[1..]);
      if later.Some? then later
      else if headers[0].0 == LENGTH_NAME then Decimal.ParseUnsigned(headers[0].1)
      else None
  }

  /** The frame names no length of its own, or names the true one last. */
  predicate HonestLength(f: Frame) {
    NamesLength(f.headers) ==> LengthsParse(f.headers) && LastLength(f.headers) == Some(|f.body|)
  }

  /** The frame the peer sees: the same, with the length that went on the wire. */
  function AsReceived(f: Frame): Frame {
    Frame(f.command, Sent(f), f.body)
  }

  // ---- The header block is found and read back -----------------------------------------

  /** Lines that cannot be mistaken for, or merge into, a blank line. */
  predicate CleanLine(l: Text) {
    l != [] && LF !in l && l[|l| - 1] != CR
  }

  predicate CleanLines(lines: seq<Text>) {
    forall i :: 0 <= i < |lines| ==> CleanLine(lines[i])
  }

  lemma HeaderLineIsClean(h: Header)
    ensures CleanLine(HeaderLine(h))
  {
    EscapeIsPlain(h.0);
    EscapeIsPlain(h.1);
  }

  lemma HeaderLinesAreClean(headers: seq<Header>)
    ensures CleanLines(HeaderLines(headers))
  {
    var lines := HeaderLines(headers);
    forall i | 0 <= i < |lines| ensures CleanLine(lines[i]) {
      HeaderLineIsClean(headers[i]);
      assert lines[i] == HeaderLine(headers[i]);
    }
  }

  lemma CleanCons(line: Text, lines: seq<Text>)
    requires CleanLine(line) && CleanLines(lines)
    ensures CleanLines([line] + lines)
  {
  }

  lemma BlockLinesAreClean(command: Text, headers: seq<Header>)
    requires CleanLine(command)
    ensures CleanLines([command] + HeaderLines(headers))
  {
    HeaderLinesAreClean(headers);
    CleanCons(command, HeaderLines(headers));
  }

  /** In joined clean lines every LF ends a non-empty line that has no trailing CR. */
  lemma {:induction false} JoinHasNoBlank(lines: seq<Text>)
    requires CleanLines(lines)
    ensures forall i :: 0 <= i < |Join(lines)| && Join(lines)[i] == LF
              ==> i > 0 && Join(lines)[i - 1] != LF && Join(lines)[i - 1] != CR
    ensures lines != [] ==> |Join(lines)| > 1 && Join(lines)[|Join(lines)| - 1] == LF
  {
    if lines != [] {
      var l := lines[0];
      var rest := Join(lines[1..]);
      assert CleanLine(lines[0]);
      assert forall i :: 0 <= i < |lines[1..]| ==> lines[1..][i] == lines[i + 1];
      JoinHasNoBlank(lines[1..]);
      var j := Join(lines);
      assert j == l + [LF] + rest;
      forall i | 0 <= i < |j| && j[i] == LF
        ensures i > 0 && j[i - 1] != LF && j[i - 1] != CR
      {
        assert forall k :: 0 <= k < |l| ==> j[k] == l[k] && l[k] in l;
        if i > |l| {
          assert j[i] == rest[i - |l| - 1];
          assert i - |l| - 1 > 0;
          assert j[i - 1] == rest[i - |l| - 2];
        }
      }
    }
  }

  /** `HeaderEndFrom` sees the block's blank line and nothing before it. */
  lemma {:induction false} HeaderEndOfBlock(buf: seq<byte>, block: Text, i: nat)
    requires |block| >= 2 && i <= |block| - 2
    requires block[|block| - 2] == LF && block[|block| - 1] == LF
    requires forall k :: 0 < k < |block| - 1 && block[k] == LF ==> block[k - 1] != LF && block[k - 1] != CR
    requires buf <= block || block <= buf
    requires i <= |buf|
    ensures HeaderEndFrom(buf, i) == if |buf| < |block| then None else Some(|block|)
    decreases |block| - i
  {
    if i == |buf| {
    } else if i == |block| - 2 {
      if |buf| >= |block| {
        assert BlankAt(buf, i);
      } else {
        assert HeaderEndFrom(buf, i + 1) == None;
      }
    } else {
      if i + 1 < |buf| { assert buf[i] == block[i] && buf[i + 1] == block[i + 1]; }
      assert !BlankAt(buf, i) && !CrlfBlankAt(buf, i);
      HeaderEndOfBlock(buf, block, i + 1);
    }
  }

  lemma {:induction false} SplitLine(a: Text, b: Text)
    requires LF !in a
    ensures Split(a + [LF] + b) == [a] + Split(b)
  {
    var s := a + [LF] + b;
    assert s[..|a|] == a && s[|a|] == LF && s[|a| + 1..] == b;
    IndexOfAt(s, LF, |a|);
  }

  lemma {:induction false} SplitOfJoin(lines: seq<Text>, tail: Text)
    requires CleanLines(lines)
    ensures Split(Join(lines) + tail) == lines + Split(tail)
  {
    if lines == [] {
      assert Join(lines) + tail == tail;
    } else {
      CleanTail(lines);
      FirstLine(lines[0], Join(lines[1..]), tail);
      SplitLine(lines[0], Join(lines[1..]) + tail);
      SplitOfJoin(lines[1..], tail);
      Reassociate(lines, Split(tail));
    }
  }

  lemma CleanTail(lines: seq<Text>)
    requires CleanLines(lines) && lines != []
    ensures CleanLine(lines[0]) && LF !in lines[0] && CleanLines(lines[1..])
  {
    assert forall i :: 0 <= i < |lines[1..]| ==> lines[1..][i] == lines[i + 1];
  }

  lemma FirstLine(first: Text, rest: Text, tail: Text)
    ensures first + [LF] + rest + tail == first + [LF] + (rest + tail)
  {
  }

  lemma Reassociate<T>(s: seq<T>, t: seq<T>)
    requires s != []
    ensures [s[0]] + (s[1..] + t) == s + t
  {
  }

  lemma SplitOfBlock(lines: seq<Text>)
    requires CleanLines(lines)
    ensures TrimmedLines(Join(lines) + [LF]) == lines + [[], []]
  {
    SplitOfJoin(lines, [LF]);
    assert [LF] == [] + [LF] + [];
    SplitLine([], []);
    assert Split([LF]) == [[], []];
    var raw := lines + [[], []];
    assert Split(Join(lines) + [LF]) == raw;
    forall i | 0 <= i < |raw|
      ensures TrimCr(raw[i]) == raw[i]
    {
      if i < |lines| { assert CleanLine(lines[i]); }
    }
    assert TrimmedLines(Join(lines) + [LF]) == raw;
  }

  /** What a header's own line is read as. */
  function LineOf(h: Header): Result<Parsed, CodecError> {
    if h.0 != LENGTH_NAME then Ok(Parsed([h], None))
    else if Decimal.ParseUnsigned(h.1).None? then Err(BadContentLength)
    else Ok(Parsed([h], Decimal.ParseUnsigned(h.1)))
  }

  /** A written header line reads back as the header it came from. */
  lemma ParseOfLine(h: Header)
    ensures ParseLine(HeaderLine(h)) == LineOf(h)
  {
    LineParts(h);
    UnescapeOfEscape(h.0);
    UnescapeOfEscape(h.1);
  }

  lemma LineParts(h: Header)
    ensures var line := HeaderLine(h);
            var i := IndexOf(line, COLON);
            i < |line| && line[..i] == Escape(h.0) && line[i + 1..] == Escape(h.1)
  {
    var line := HeaderLine(h);
    var name, value := Escape(h.0), Escape(h.1);
    EscapeIsPlain(h.0);
    assert line[|name|] == COLON && line[..|name|] == name && line[|name| + 1..] == value;
    IndexOfAt(line, COLON, |name|);
  }

  lemma {:induction false} ParseOfLines(headers: seq<Header>)
    ensures ParseLines(HeaderLines(headers) + [[], []]) ==
            if LengthsParse(headers) then Ok(Parsed(headers, LastLength(headers))) else Err(BadContentLength)
  {
    var lines := HeaderLines(headers) + [[], []];
    if headers == [] {
      BlankLines(lines);
    } else {
      ParseOfLine(headers[0]);
      HeaderLineIsClean(headers[0]);
      ParseOfLines(headers[1..]);
      LinesCons(headers, [[], []]);
      ParseStep(lines, headers);
    }
  }

  lemma LinesCons(headers: seq<Header>, tail: seq<Text>)
    requires headers != []
    ensures var lines := HeaderLines(headers) + tail;
            lines != [] && lines[0] == HeaderLine(headers[0]) && lines[1..] == HeaderLines(headers[1..]) + tail
  {
  }

  lemma BlankLines(lines: seq<Text>)
    requires lines == [[], []]
    ensures ParseLines(lines) == Ok(Parsed([], None))
  {
    var last := lines[1..];
    assert last == [[]] && |last[1..]| == 0;
    assert ParseLines(last) == ParseLines(last[1..]);
  }

  lemma ParseStep(lines: seq<Text>, headers: seq<Header>)
    requires headers != [] && lines != [] && lines[0] != []
    requires ParseLine(lines[0]) == LineOf(headers[0])
    requires ParseLines(lines[1..]) ==
             if LengthsParse(headers[1..]) then Ok(Parsed(headers[1..], LastLength(headers[1..]))) else Err(BadContentLength)
    ensures ParseLines(lines) ==
            if LengthsParse(headers) then Ok(Parsed(headers, LastLength(headers))) else Err(BadContentLength)
  {
    assert headers == [headers[0]] + headers[1..];
    LengthsParseSplit(headers);
  }

  lemma LengthsParseSplit(headers: seq<Header>)
    requires headers != []
    ensures LengthsParse(headers) <==>
            (headers[0].0 == LENGTH_NAME ==> Decimal.ParseUnsigned(headers[0].1).Some?) && LengthsParse(headers[1..])
  {
    assert forall i :: 0 <= i < |headers[1..]| ==> headers[1..][i] == headers[i + 1];
    assert forall i :: 0 < i < |headers| ==> headers[i] == headers[1..][i - 1];
  }

  lemma {:induction false} ValidJoin(lines: seq<Text>)
    requires forall i :: 0 <= i < |lines| ==> SafeText(lines[i])
    ensures SafeText(Join(lines))
  {
    if lines != [] {
      assert SafeText(lines[0]);
      assert forall i :: 0 <= i < |lines[1..]| ==> lines[1..][i] == lines[i + 1];
      ValidJoin(lines[1..]);
      ValidAscii([LF]);
      ValidConcat(lines[0], [LF]);
      ValidConcat(lines[0] + [LF], Join(lines[1..]));
    }
  }

  lemma HeaderLineIsSafe(h: Header)
    requires SafeText(h.0) && SafeText(h.1)
    ensures SafeText(HeaderLine(h))
  {
    EscapeKeepsUtf8(h.0);
    EscapeKeepsUtf8(h.1);
    EscapeIsPlain(h.0);
    EscapeIsPlain(h.1);
    ValidAscii([COLON]);
    ValidConcat(Escape(h.0), [COLON]);
    ValidConcat(Escape(h.0) + [COLON], Escape(h.1));
  }

  lemma AsciiIsSafe(s: Text)
    requires forall i :: 0 <= i < |s| ==> 0 < s[i] < 0x80
    ensures SafeText(s)
  {
    ValidAscii(s);
  }

  lemma AppendSafe(headers: seq<Header>, name: Text, value: Text)
    requires SafeHeaders(headers)
    requires forall i :: 0 <= i < |name| ==> 0 < name[i] < 0x80
    requires forall i :: 0 <= i < |value| ==> 0 < value[i] < 0x80
    ensures SafeHeaders(headers + [(name, value)])
  {
    AsciiIsSafe(name);
    AsciiIsSafe(value);
  }

  lemma SentIsSafe(f: Frame)
    requires SafeHeaders(f.headers)
    ensures SafeHeaders(Sent(f))
  {
    var digits := Decimal.Print(|f.body|);
    assert forall i :: 0 <= i < |digits| ==> Decimal.IsDigit(digits[i]);
    AppendSafe(f.headers, LENGTH_NAME, digits);
  }

  lemma BlockIsSafe(command: Text, headers: seq<Header>)
    requires SafeText(command) && SafeHeaders(headers)
    ensures SafeText(Block(command, headers))
  {
    var lines := [command] + HeaderLines(headers);
    forall i | 0 <= i < |lines|
      ensures SafeText(lines[i])
    {
      if i > 0 { HeaderLineIsSafe(headers[i - 1]); }
    }
    ValidJoin(lines);
    ValidAscii([LF]);
    ValidConcat(Join(lines), [LF]);
  }

  lemma BlockEnds(command: Text, headers: seq<Header>, buf: seq<byte>)
    requires CleanLine(command)
    requires buf <= Block(command, headers) || Block(command, headers) <= buf
    ensures |Block(command, headers)| >= 2
    ensures HeaderEndFrom(buf, 0) == if |buf| < |Block(command, headers)| then None else Some(|Block(command, headers)|)
  {
    var lines := [command] + HeaderLines(headers);
    BlockLinesAreClean(command, headers);
    JoinHasNoBlank(lines);
    var j, block := Join(lines), Block(command, headers);
    assert forall k :: 0 <= k < |j| ==> block[k] == j[k];
    HeaderEndOfBlock(buf, block, 0);
  }

  /** A block's lines come back as the command and the headers it was written from. */
  lemma BlockReadsBack(command: Text, headers: seq<Header>)
    requires CleanLine(command)
    ensures var lines := TrimmedLines(Block(command, headers));
            && lines[0] == command
            && ParseLines(lines[1..]) ==
               if LengthsParse(headers) then Ok(Parsed(headers, LastLength(headers))) else Err(BadContentLength)
  {
    BlockLinesAreClean(command, headers);
    SplitOfBlock([command] + HeaderLines(headers));
    assert TrimmedLines(Block(command, headers))[1..] == HeaderLines(headers) + [[], []];
    ParseOfLines(headers);
  }

  lemma BlockStarts(command: Text, headers: seq<Header>, buf: seq<byte>)
    requires SafeCommand(command)
    requires buf != [] && (buf <= Block(command, headers) || Block(command, headers) <= buf)
    ensures SkipHeartbeats(buf) == buf
  {
    assert Block(command, headers)[0] == command[0];
    assert command[0] in command;
    assert buf[0] == command[0];
  }

  /** With the whole block in the buffer, decoding gets as far as the body, or fails on an
      unreadable length the caller wrote. */
  lemma BlockDecodes(command: Text, headers: seq<Header>, max: nat, buf: seq<byte>)
    requires SafeCommand(command) && SafeHeaders(headers)
    requires Block(command, headers) <= buf && |Block(command, headers)| <= max
    ensures Decode(buf, max) ==
            if LengthsParse(headers)
            then TakeBody(buf, |Block(command, headers)|, command, Parsed(headers, LastLength(headers)), max)
            else Refuse(BadContentLength, buf)
  {
    var block := Block(command, headers);
    BlockEnds(command, headers, buf);
    BlockStarts(command, headers, buf);
    assert buf[..|block|] == block;
    BlockIsSafe(command, headers);
    BlockReadsBack(command, headers);
  }

  lemma {:induction false} LastLengthAppend(headers: seq<Header>, h: Header)
    requires h.0 == LENGTH_NAME && Decimal.ParseUnsigned(h.1).Some?
    ensures LastLength(headers + [h]) == Decimal.ParseUnsigned(h.1)
  {
    if headers == [] {
      assert headers + [h] == [h] && [h][1..] == [];
    } else {
      assert (headers + [h])[1..] == headers[1..] + [h];
      LastLengthAppend(headers[1..], h);
    }
  }

  /** An honest frame declares its body's length, whoever wrote the header. */
  lemma SentLength(f: Frame)
    requires |f.body| < Decimal.U64_LIMIT
    ensures HonestLength(f) <==> LengthsParse(Sent(f)) && LastLength(Sent(f)) == Some(|f.body|)
  {
    if !NamesLength(f.headers) {
      Decimal.ParseOfPrint(|f.body|);
      LastLengthAppend(f.headers, (LENGTH_NAME, Decimal.Print(|f.body|)));
    }
  }

  // ---- One frame -----------------------------------------------------------------------

  /** With the body and its NUL in place, the body is taken whole exactly when the length
      declared for it is right. */
  lemma TakeBodyAt(block: Text, body: seq<byte>, rest: seq<byte>, command: Text, parsed: Parsed, max: nat)
    requires |body| <= max && |block| + |body| < Decimal.U64_LIMIT && parsed.length.Some?
    ensures parsed.length == Some(|body|) <==>
            TakeBody(block + body + [NUL] + rest, |block|, command, parsed, max) ==
            Decoded(Ok(Some(Frame(command, parsed.headers, body))), rest)
  {
    var buf := block + body + [NUL] + rest;
    var end := |block| + |body|;
    assert buf[end] == NUL && buf[|block|..end] == body && buf[end + 1..] == rest;
  }

  /** A complete encoding decodes to the frame that was sent, exactly when that frame did
      not lie about its length; whatever follows stays in the buffer. */
  lemma DecodeOfEncode(f: Frame, max: nat, rest: seq<byte>)
    requires WireSafe(f, max)
    ensures HonestLength(f) <==> Decode(Encode(f) + rest, max) == Decoded(Ok(Some(AsReceived(f))), rest)
  {
    SentLength(f);
    SentNamesLength(f);
    EncodedDecodes(f, max, rest);
    if LengthsParse(Sent(f)) {
      TakeBodyAt(HeaderBlock(f), f.body, rest, f.command, Parsed(Sent(f), LastLength(Sent(f))), max);
    }
  }

  lemma EncodedDecodes(f: Frame, max: nat, rest: seq<byte>)
    requires WireSafe(f, max)
    ensures var buf := HeaderBlock(f) + f.body + [NUL] + rest;
            && Encode(f) + rest == buf
            && Decode(buf, max) ==
               if LengthsParse(Sent(f))
               then TakeBody(buf, |HeaderBlock(f)|, f.command, Parsed(Sent(f), LastLength(Sent(f))), max)
               else Refuse(BadContentLength, buf)
  {
    var block := HeaderBlock(f);
    var buf := block + f.body + [NUL] + rest;
    assert buf[..|block|] == block;
    SentIsSafe(f);
    BlockDecodes(f.command, Sent(f), max, buf);
  }

  /** Something on the wire always states a length. */
  lemma SentNamesLength(f: Frame)
    ensures LengthsParse(Sent(f)) ==> LastLength(Sent(f)).Some?
  {
    var sent := Sent(f);
    if LengthsParse(sent) {
      if !NamesLength(f.headers) { assert sent[|f.headers|].0 == LENGTH_NAME; }
      var i :| 0 <= i < |sent| && sent[i].0 == LENGTH_NAME;
      LastLengthFound(sent, i);
    }
  }

  lemma {:induction false} LastLengthFound(headers: seq<Header>, i: nat)
    requires i < |headers| && headers[i].0 == LENGTH_NAME && LengthsParse(headers)
    ensures LastLength(headers).Some?
  {
    LengthsParseSplit(headers);
    if i > 0 { LastLengthFound(headers[1..], i - 1); }
  }

  /** A cut encoding is never refused and never loses a byte: the reader just waits. */
  lemma DecodeOfPrefix(f: Frame, max: nat, p: seq<byte>)
    requires WireSafe(f, max) && HonestLength(f)
    requires p != [] && p < Encode(f)
    ensures Decode(p, max) == Decoded(Ok(None), p)
  {
    var block := HeaderBlock(f);
    assert Encode(f) == block + (f.body + [NUL]);
    if |p| < |block| {
      assert p <= block;
      BlockStarts(f.command, Sent(f), p);
      BlockEnds(f.command, Sent(f), p);
    } else {
      assert block <= p;
      SentIsSafe(f);
      BlockDecodes(f.command, Sent(f), max, p);
      SentLength(f);
    }
  }

  // ---- The buffer loop -----------------------------------------------------------------

  /** How `recv` ended: a frame, end of stream, or a codec error. */
  datatype Reception = Reception(result: Result<Option<Frame>, CodecError>, buf: seq<byte>, incoming: seq<seq<byte>>)

  /** What `recv` denotes when the socket will deliver `incoming`, one read at a time. A read
      of no bytes is the end of the stream. */
  function Receive(buf: seq<byte>, incoming: seq<seq<byte>>, max: nat): Reception
    decreases |incoming|
  {
    var d := Decode(buf, max);
    if d.result != Ok(None) then Reception(d.result, d.rest, incoming)
    else if incoming == [] || incoming[0] == [] then Reception(Ok(None), d.rest, incoming)
    else Receive(d.rest + incoming[0], incoming[1..], max)
  }

  /** Reads that each bring something. */
  predicate Reads(incoming: seq<seq<byte>>) {
    forall i :: 0 <= i < |incoming| ==> incoming[i] != []
  }

  lemma ReadsTail(incoming: seq<seq<byte>>)
    requires Reads(incoming) && incoming != []
    ensures incoming[0] != [] && Reads(incoming[1..])
  {
    assert forall i :: 0 <= i < |incoming[1..]| ==> incoming[1..][i] == incoming[i + 1];
  }

  function Concat(chunks: seq<seq<byte>>): seq<byte> {
    if chunks == [] then [] else chunks[0] + Concat(chunks[1..])
  }

  lemma {:induction false} SkipOnlyHeartbeats(gap: seq<byte>, rest: seq<byte>)
    requires forall i :: 0 <= i < |gap| ==> IsHeartbeat(gap[i])
    ensures SkipHeartbeats(gap + rest) == SkipHeartbeats(rest)
  {
    if gap == [] {
      assert gap + rest == rest;
    } else {
      assert (gap + rest)[1..] == gap[1..] + rest;
      SkipOnlyHeartbeats(gap[1..], rest);
    }
  }

  /** Whatever the bytes: an undecided buffer holds at most a header block and a body, and
      a returned frame takes at least its NUL with it. */
  lemma DecodeBounds(buf: seq<byte>, max: nat)
    ensures |Decode(buf, max).rest| <= |buf|
    ensures Decode(buf, max).result == Ok(None) ==> |Decode(buf, max).rest| <= 2 * max
    ensures Decode(buf, max).result.Ok? && Decode(buf, max).result.value.Some? ==> |Decode(buf, max).rest| < |buf|
  {
    var rest := SkipHeartbeats(buf);
    SkipShrinks(buf);
    if rest != [] && HeaderEndFrom(rest, 0).Some? && HeaderEndFrom(rest, 0).value <= max {
      var end := HeaderEndFrom(rest, 0).value;
      var lines := TrimmedLines(rest[..end]);
      if ParseLines(lines[1..]).Ok? { TakeBodyBounds(rest, end, lines[0], ParseLines(lines[1..]).value, max); }
    }
  }

  lemma {:induction false} SkipShrinks(buf: seq<byte>)
    ensures |SkipHeartbeats(buf)| <= |buf|
  {
  }

  lemma TakeBodyBounds(buf: seq<byte>, start: nat, command: Text, parsed: Parsed, max: nat)
    requires start <= |buf| && start <= max
    ensures var d := TakeBody(buf, start, command, parsed, max);
            && |d.rest| <= |buf|
            && (d.result == Ok(None) ==> |d.rest| <= 2 * max)
            && (d.result.Ok? && d.result.value.Some? ==> |d.rest| < |buf|)
  {
  }

  lemma {:induction false} ReceiveShrinks(buf: seq<byte>, incoming: seq<seq<byte>>, max: nat)
    ensures var r := Receive(buf, incoming, max);
            && |r.buf| + |Concat(r.incoming)| <= |buf| + |Concat(incoming)|
            && (r.result.Ok? && r.result.value.Some? ==> |r.buf| + |Concat(r.incoming)| < |buf| + |Concat(incoming)|)
    decreases |incoming|
  {
    DecodeBounds(buf, max);
    var d := Decode(buf, max);
    if d.result == Ok(None) && incoming != [] && incoming[0] != [] {
      ReceiveShrinks(d.rest + incoming[0], incoming[1..], max);
    }
  }

  /** How a reading session ended. */
  datatype Ending = Closed | Failed(error: CodecError)

  /** Every frame `recv` returns until it returns anything else. */
  ghost function ReceiveAll(buf: seq<byte>, incoming: seq<seq<byte>>, max: nat): (seq<Frame>, Ending)
    decreases |buf| + |Concat(incoming)|
  {
    ReceiveShrinks(buf, incoming, max);
    var r := Receive(buf, incoming, max);
    match r.result
    case Err(e) => ([], Failed(e))
    case Ok(None) => ([], Closed)
    case Ok(Some(f)) =>
      var (more, ending) := ReceiveAll(r.buf, r.incoming, max);
      ([f] + more, ending)
  }

  /** Heartbeats, a frame, heartbeats, a frame, ..., heartbeats. */
  function Wire(gaps: seq<seq<byte>>, frames: seq<Frame>): seq<byte>
    requires |gaps| == |frames| + 1
  {
    if frames == [] then gaps[0] else gaps[0] + Encode(frames[0]) + Wire(gaps[1..], frames[1..])
  }

  /** Line ends, and the NULs some peers add. */
  predicate OnlyHeartbeats(s: seq<byte>) {
    forall i :: 0 <= i < |s| ==> s[i] in {LF, CR, NUL}
  }

  predicate Sendable(gaps: seq<seq<byte>>, frames: seq<Frame>, max: nat) {
    && |gaps| == |frames| + 1
    && (forall i :: 0 <= i < |gaps| ==> OnlyHeartbeats(gaps[i]))
    && (forall i :: 0 <= i < |frames| ==> WireSafe(frames[i], max) && HonestLength(frames[i]))
  }

  function ReceivedFrames(frames: seq<Frame>): seq<Frame> {
    seq(|frames|, i requires 0 <= i < |frames| => AsReceived(frames[i]))
  }

  /** What follows the first gap. */
  function AfterGap(gaps: seq<seq<byte>>, frames: seq<Frame>): seq<byte>
    requires |gaps| == |frames| + 1
  {
    if frames == [] then [] else Encode(frames[0]) + Wire(gaps[1..], frames[1..])
  }

  lemma AfterGapGrows(gaps: seq<seq<byte>>, frames: seq<Frame>)
    requires |gaps| == |frames| + 1
    ensures frames == [] <==> AfterGap(gaps, frames) == []
  {
    if frames != [] { assert |Encode(frames[0])| > 0; }
  }

  lemma WireByGap(gaps: seq<seq<byte>>, frames: seq<Frame>, gap: seq<byte>)
    requires |gaps| == |frames| + 1
    ensures Wire(gaps, frames) == gaps[0] + AfterGap(gaps, frames)
    ensures Wire(gaps[0 := gap], frames) == gap + AfterGap(gaps, frames)
  {
    if frames == [] {
      assert gap + [] == gap && gaps[0] + [] == gaps[0];
    } else {
      assert gaps[0 := gap][1..] == gaps[1..];
      assert gap + (Encode(frames[0]) + Wire(gaps[1..], frames[1..])) == gap + Encode(frames[0]) + Wire(gaps[1..], frames[1..]);
    }
  }

  /** One `recv`, with the stream cut anywhere: it returns the next frame sent, and what
      is left, buffered or unread, is exactly the rest of the stream. */
  lemma {:induction false} ReceiveNext(
      buf: seq<byte>, incoming: seq<seq<byte>>, gaps: seq<seq<byte>>, frames: seq<Frame>, max: nat)
    requires Sendable(gaps, frames, max) && Reads(incoming)
    requires buf + Concat(incoming) == Wire(gaps, frames)
    ensures var r := Receive(buf, incoming, max);
            && Reads(r.incoming)
            && if frames == [] then r.result == Ok(None) && r.incoming == []
               else r.result == Ok(Some(AsReceived(frames[0]))) && r.buf + Concat(r.incoming) == Wire(gaps[1..], frames[1..])
    decreases |incoming|
  {
    if incoming != [] { ReadsTail(incoming); }
    var gap := gaps[0];
    assert OnlyHeartbeats(gaps[0]);
    WireByGap(gaps, frames, gap);
    var after := AfterGap(gaps, frames);
    assert buf + Concat(incoming) == gap + after;
    if |buf| <= |gap| {
      InsideGap(buf, Concat(incoming), gap, after, max);
      if incoming == [] {
        AfterGapGrows(gaps, frames);
      } else {
        KeepReading([], incoming, gap[|buf|..], after);
        Resume([], incoming, gaps, frames, gap[|buf|..], max);
      }
    } else {
      var p := buf[|gap|..];
      PastGap(buf, Concat(incoming), gap, after, max);
      assert frames != [];
      var f, tail := frames[0], Wire(gaps[1..], frames[1..]);
      assert WireSafe(frames[0], max) && HonestLength(frames[0]);
      assert p + Concat(incoming) == Encode(f) + tail;
      if |p| < |Encode(f)| {
        CutLeft(p, Concat(incoming), Encode(f), tail);
        DecodeOfPrefix(f, max, p);
        if incoming != [] {
          assert [] + after == after;
          KeepReading(p, incoming, [], after);
          Resume(p, incoming, gaps, frames, [], max);
        }
      } else {
        CutLeft(Encode(f), tail, p, Concat(incoming));
        DecodeOfEncode(f, max, p[|Encode(f)|..]);
      }
    }
  }

  /** Two ways of cutting the same bytes: the longer left part extends the shorter. */
  lemma CutLeft(a: seq<byte>, b: seq<byte>, c: seq<byte>, d: seq<byte>)
    requires a + b == c + d && |a| <= |c|
    ensures c == a + c[|a|..] && b == c[|a|..] + d && a == c[..|a|]
  {
    assert (a + b)[..|a|] == a && (c + d)[..|a|] == c[..|a|];
    assert (a + b)[|a|..] == b && (c + d)[|a|..] == c[|a|..] + d;
  }

  /** A buffer that has not outgrown the heartbeats is emptied. */
  lemma InsideGap(buf: seq<byte>, unread: seq<byte>, gap: seq<byte>, after: seq<byte>, max: nat)
    requires buf + unread == gap + after && |buf| <= |gap| && OnlyHeartbeats(gap)
    ensures Decode(buf, max) == Decoded(Ok(None), [])
    ensures unread == gap[|buf|..] + after && OnlyHeartbeats(gap[|buf|..])
  {
    CutLeft(buf, unread, gap, after);
    assert buf + [] == buf;
    SkipOnlyHeartbeats(buf, []);
  }

  /** Past the heartbeats, decoding sees what follows them. */
  lemma PastGap(buf: seq<byte>, unread: seq<byte>, gap: seq<byte>, after: seq<byte>, max: nat)
    requires buf + unread == gap + after && |buf| > |gap| && OnlyHeartbeats(gap)
    ensures Decode(buf, max) == Decode(buf[|gap|..], max)
    ensures buf[|gap|..] + unread == after
  {
    CutLeft(gap, after, buf, unread);
    SkipOnlyHeartbeats(gap, buf[|gap|..]);
  }

  /** The next read extends what is kept of the buffer by the next bytes of the stream. */
  lemma KeepReading(kept: seq<byte>, incoming: seq<seq<byte>>, gap: seq<byte>, after: seq<byte>)
    requires incoming != [] && kept + Concat(incoming) == gap + after
    ensures kept + incoming[0] + Concat(incoming[1..]) == gap + after
  {
    assert kept + (incoming[0] + Concat(incoming[1..])) == kept + incoming[0] + Concat(incoming[1..]);
  }

  lemma {:induction false} Resume(
      kept: seq<byte>, incoming: seq<seq<byte>>, gaps: seq<seq<byte>>, frames: seq<Frame>, gap: seq<byte>, max: nat)
    requires incoming != [] && Reads(incoming[1..]) && Sendable(gaps, frames, max) && OnlyHeartbeats(gap)
    requires kept + incoming[0] + Concat(incoming[1..]) == gap + AfterGap(gaps, frames)
    ensures var r := Receive(kept + incoming[0], incoming[1..], max);
            && Reads(r.incoming)
            && if frames == [] then r.result == Ok(None) && r.incoming == []
               else r.result == Ok(Some(AsReceived(frames[0]))) && r.buf + Concat(r.incoming) == Wire(gaps[1..], frames[1..])
    decreases |incoming|, 0
  {
    WireByGap(gaps, frames, gap);
    assert gaps[0 := gap][1..] == gaps[1..];
    ReceiveNext(kept + incoming[0], incoming[1..], gaps[0 := gap], frames, max);
  }

  lemma {:induction false} Reassemble(
      buf: seq<byte>, incoming: seq<seq<byte>>, gaps: seq<seq<byte>>, frames: seq<Frame>, max: nat)
    requires Sendable(gaps, frames, max) && Reads(incoming)
    requires buf + Concat(incoming) == Wire(gaps, frames)
    ensures ReceiveAll(buf, incoming, max) == (ReceivedFrames(frames), Closed)
    decreases |frames|
  {
    ReceiveNext(buf, incoming, gaps, frames, max);
    if frames == [] {
      ReceiveAllStop(buf, incoming, max);
      assert ReceivedFrames(frames) == [];
    } else {
      var r := Receive(buf, incoming, max);
      TailSendable(gaps, frames, max);
      Reassemble(r.buf, r.incoming, gaps[1..], frames[1..], max);
      ReceiveAllStep(buf, incoming, max, AsReceived(frames[0]));
      ReceivedCons(frames);
    }
  }

  lemma TailSendable(gaps: seq<seq<byte>>, frames: seq<Frame>, max: nat)
    requires Sendable(gaps, frames, max) && frames != []
    ensures Sendable(gaps[1..], frames[1..], max)
  {
    assert forall i :: 0 <= i < |gaps[1..]| ==> gaps[1..][i] == gaps[i + 1];
    assert forall i :: 0 <= i < |frames[1..]| ==> frames[1..][i] == frames[i + 1];
  }

  lemma ReceivedCons(frames: seq<Frame>)
    requires frames != []
    ensures ReceivedFrames(frames) == [AsReceived(frames[0])] + ReceivedFrames(frames[1..])
  {
  }

  lemma ReceiveAllStop(buf: seq<byte>, incoming: seq<seq<byte>>, max: nat)
    requires Receive(buf, incoming, max).result == Ok(None)
    ensures ReceiveAll(buf, incoming, max) == ([], Closed)
  {
  }

  lemma ReceiveAllStep(buf: seq<byte>, incoming: seq<seq<byte>>, max: nat, f: Frame)
    requires Receive(buf, incoming, max).result == Ok(Some(f))
    ensures var r := Receive(buf, incoming, max);
            var rest := ReceiveAll(r.buf, r.incoming, max);
            ReceiveAll(buf, incoming, max) == ([f] + rest.0, rest.1)
  {
  }

  /** Frames in, frames out: encode any list of frames, put heartbeats anywhere between
      them, cut the bytes into reads anywhere, and the reader returns exactly those
      frames, in order, then end of stream. */
  lemma StreamRoundTrip(incoming: seq<seq<byte>>, gaps: seq<seq<byte>>, frames: seq<Frame>, max: nat)
    requires Sendable(gaps, frames, max) && Reads(incoming)
    requires Concat(incoming) == Wire(gaps, frames)
    ensures ReceiveAll([], incoming, max) == (ReceivedFrames(frames), Closed)
  {
    assert [] + Concat(incoming) == Concat(incoming);
    Reassemble([], incoming, gaps, frames, max);
  }

  // ---- Frames without a length ---------------------------------------------------------

  lemma {:induction false} NoLength(headers: seq<Header>)
    requires !NamesLength(headers)
    ensures LengthsParse(headers) && LastLength(headers) == None
  {
    if headers != [] {
      assert forall i :: 0 <= i < |headers[1..]| ==> headers[1..][i] == headers[i + 1];
      NoLength(headers[1..]);
    }
  }

  lemma UnsizedBody(block: Text, body: seq<byte>, rest: seq<byte>, command: Text, headers: seq<Header>, max: nat)
    requires NUL !in body
    ensures TakeBody(block + body + [NUL] + rest, |block|, command, Parsed(headers, None), max) ==
            Decoded(Ok(Some(Frame(command, headers, body))), rest)
    ensures TakeBody(block + body, |block|, command, Parsed(headers, None), max) ==
            if |block| + |body| > max then Refuse(FrameTooLarge(max), block + body) else Decoded(Ok(None), block + body)
  {
    var buf := block + body + [NUL] + rest;
    var after := body + [NUL] + rest;
    assert buf[|block|..] == after && (block + body)[|block|..] == body;
    assert after[..|body|] == body && after[|body|] == NUL;
    IndexOfAt(after, NUL, |body|);
    IndexOfNone(body, NUL);
    assert buf[|block|..|block| + |body|] == body && buf[|block| + |body| + 1..] == rest;
  }

  lemma {:induction false} IndexOfNone(s: seq<byte>, b: byte)
    requires b !in s
    ensures IndexOf(s, b) == |s|
  {
    if s != [] { IndexOfNone(s[1..], b); }
  }

  /** A frame that names no length, spelled but for its NUL. */
  predicate Unsized(command: Text, headers: seq<Header>, body: seq<byte>, max: nat) {
    && SafeCommand(command) && SafeHeaders(headers) && !NamesLength(headers)
    && |Block(command, headers)| <= max && NUL !in body
  }

  /** Without its NUL, such a frame is waited for up to the limit and refused past it. */
  lemma UnsizedPrefix(command: Text, headers: seq<Header>, body: seq<byte>, p: seq<byte>, max: nat)
    requires Unsized(command, headers, body, max) && p != [] && p <= Block(command, headers) + body
    ensures Decode(p, max) == if |p| > max then Refuse(FrameTooLarge(max), p) else Decoded(Ok(None), p)
  {
    var block := Block(command, headers);
    if |p| < |block| {
      assert p <= block;
      BlockStarts(command, headers, p);
      BlockEnds(command, headers, p);
    } else {
      var part := p[|block|..];
      assert block <= p && p == block + part && part == body[..|part|];
      NoLength(headers);
      BlockDecodes(command, headers, max, p);
      UnsizedBody(block, part, [], command, headers, max);
    }
  }

  lemma UnsizedWhole(command: Text, headers: seq<Header>, body: seq<byte>, rest: seq<byte>, max: nat)
    requires Unsized(command, headers, body, max)
    ensures Decode(Block(command, headers) + body + [NUL] + rest, max) == Decoded(Ok(Some(Frame(command, headers, body))), rest)
  {
    var block := Block(command, headers);
    NoLength(headers);
    assert block <= block + body + [NUL] + rest;
    BlockDecodes(command, headers, max, block + body + [NUL] + rest);
    UnsizedBody(block, body, rest, command, headers, max);
  }

  /** With `at` bytes read, some read up to now or later ends past `lo` and not past `hi`. */
  predicate CutAt(at: nat, incoming: seq<seq<byte>>, lo: nat, hi: nat)
    decreases |incoming|
  {
    lo < at <= hi || (incoming != [] && CutAt(at + |incoming[0]|, incoming[1..], lo, hi))
  }

  /** Some read ends at an offset past `lo` and not past `hi`. */
  predicate SomeReadEnds(incoming: seq<seq<byte>>, lo: nat, hi: nat) {
    exists i :: 0 <= i <= |incoming| && lo < |Concat(incoming[..i])| <= hi
  }

  lemma {:induction false} CutMeansRead(at: nat, incoming: seq<seq<byte>>, lo: nat, hi: nat)
    ensures CutAt(at, incoming, lo, hi) <==> exists i :: 0 <= i <= |incoming| && lo < at + |Concat(incoming[..i])| <= hi
    decreases |incoming|
  {
    assert Concat(incoming[..0]) == [];
    if incoming != [] {
      var first, rest := incoming[0], incoming[1..];
      CutMeansRead(at + |first|, rest, lo, hi);
      forall i | 0 <= i <= |rest| ensures |Concat(incoming[..i + 1])| == |first| + |Concat(rest[..i])| {
        assert incoming[..i + 1][1..] == rest[..i];
      }
      if i :| 0 <= i <= |rest| && lo < at + |first| + |Concat(rest[..i])| <= hi {
        assert lo < at + |Concat(incoming[..i + 1])| <= hi;
      }
      if i :| 0 <= i <= |incoming| && lo < at + |Concat(incoming[..i])| <= hi {
        if i > 0 { assert |Concat(incoming[..i - 1 + 1])| == |first| + |Concat(rest[..i - 1])|; }
      }
    }
  }

  lemma {:induction false} PastIsUncut(at: nat, incoming: seq<seq<byte>>, lo: nat, hi: nat)
    requires at > hi
    ensures !CutAt(at, incoming, lo, hi)
    decreases |incoming|
  {
    if incoming != [] { PastIsUncut(at + |incoming[0]|, incoming[1..], lo, hi); }
  }

  /** `recv` over any decoder. */
  function ReceiveBy(decode: seq<byte> -> Decoded, buf: seq<byte>, incoming: seq<seq<byte>>): Reception
    decreases |incoming|
  {
    var d := decode(buf);
    if d.result != Ok(None) then Reception(d.result, d.rest, incoming)
    else if incoming == [] || incoming[0] == [] then Reception(Ok(None), d.rest, incoming)
    else ReceiveBy(decode, d.rest + incoming[0], incoming[1..])
  }

  lemma {:induction false} ReceiveIsBy(decode: seq<byte> -> Decoded, buf: seq<byte>, incoming: seq<seq<byte>>, max: nat)
    requires forall b :: decode(b) == Decode(b, max)
    ensures Receive(buf, incoming, max) == ReceiveBy(decode, buf, incoming)
    decreases |incoming|
  {
    var d := decode(buf);
    if d.result == Ok(None) && incoming != [] && incoming[0] != [] {
      ReceiveIsBy(decode, d.rest + incoming[0], incoming[1..], max);
    }
  }

  predicate WaitsAt(decode: seq<byte> -> Decoded, p: seq<byte>, max: nat) {
    decode(p) == if |p| > max then Refuse(FrameTooLarge(max), p) else Decoded(Ok(None), p)
  }

  predicate TakenBefore(decode: seq<byte> -> Decoded, most: seq<byte>, f: Frame, rest: seq<byte>) {
    decode(most + [NUL] + rest) == Decoded(Ok(Some(f)), rest)
  }

  /** Bytes that are waited for up to the limit, refused past it, and a frame once their NUL
      has come. */
  ghost predicate Pending(decode: seq<byte> -> Decoded, most: seq<byte>, f: Frame, max: nat) {
    (forall p :: p <= most ==> WaitsAt(decode, p, max)) && forall rest :: TakenBefore(decode, most, f, rest)
  }

  lemma UnsizedIsPending(decode: seq<byte> -> Decoded, command: Text, headers: seq<Header>, body: seq<byte>, max: nat)
    requires Unsized(command, headers, body, max) && forall b :: decode(b) == Decode(b, max)
    ensures Pending(decode, Block(command, headers) + body, Frame(command, headers, body), max)
  {
    forall p | p <= Block(command, headers) + body ensures WaitsAt(decode, p, max) {
      if p != [] { UnsizedPrefix(command, headers, body, p, max); }
    }
    forall rest ensures TakenBefore(decode, Block(command, headers) + body, Frame(command, headers, body), rest) {
      UnsizedWhole(command, headers, body, rest, max);
    }
  }

  lemma PendingDone(
      decode: seq<byte> -> Decoded, most: seq<byte>, f: Frame, rest: seq<byte>, buf: seq<byte>, unread: seq<byte>, max: nat)
    requires Pending(decode, most, f, max) && |buf| > |most| && buf + unread == most + [NUL] + rest
    ensures decode(buf).result == Ok(Some(f)) && decode(buf).rest + unread == rest
  {
    var whole := most + [NUL];
    CutLeft(whole, rest, buf, unread);
    assert TakenBefore(decode, most, f, buf[|whole|..]);
  }

  lemma PendingWaits(
      decode: seq<byte> -> Decoded, most: seq<byte>, f: Frame, rest: seq<byte>, buf: seq<byte>, unread: seq<byte>, max: nat)
    requires Pending(decode, most, f, max) && |buf| <= |most| && buf + unread == most + [NUL] + rest
    ensures unread != [] && WaitsAt(decode, buf, max)
  {
    assert most + [NUL] + rest == most + ([NUL] + rest);
    CutLeft(buf, unread, most, [NUL] + rest);
    assert buf <= most;
  }

  lemma NextRead(buf: seq<byte>, incoming: seq<seq<byte>>)
    requires incoming != []
    ensures buf + incoming[0] + Concat(incoming[1..]) == buf + Concat(incoming)
  {
  }

  lemma {:induction false} PendingFrom(
      decode: seq<byte> -> Decoded, most: seq<byte>, f: Frame, rest: seq<byte>, buf: seq<byte>, incoming: seq<seq<byte>>, max: nat)
    requires Pending(decode, most, f, max) && Reads(incoming) && buf + Concat(incoming) == most + [NUL] + rest
    ensures var r := ReceiveBy(decode, buf, incoming);
            if CutAt(|buf|, incoming, max, |most|) then r.result == Err(FrameTooLarge(max))
            else r.result == Ok(Some(f)) && r.buf + Concat(r.incoming) == rest
    decreases |incoming|
  {
    if |buf| > |most| {
      PastIsUncut(|buf|, incoming, max, |most|);
      PendingDone(decode, most, f, rest, buf, Concat(incoming), max);
    } else {
      PendingWaits(decode, most, f, rest, buf, Concat(incoming), max);
      assert incoming != [];
      ReadsTail(incoming);
      if |buf| <= max {
        NextRead(buf, incoming);
        PendingFrom(decode, most, f, rest, buf + incoming[0], incoming[1..], max);
      }
    }
  }

  /** A frame that names no length, with anything behind it and cut into reads anywhere, is
      received exactly when no read ends past the limit and before its NUL; otherwise it is
      refused as too large. */
  lemma UnsizedArrivesExactly(
      command: Text, headers: seq<Header>, body: seq<byte>, rest: seq<byte>, incoming: seq<seq<byte>>, max: nat)
    requires Unsized(command, headers, body, max) && Reads(incoming)
    requires Concat(incoming) == Block(command, headers) + body + [NUL] + rest
    ensures var r := Receive([], incoming, max);
            if SomeReadEnds(incoming, max, |Block(command, headers) + body|) then r.result == Err(FrameTooLarge(max))
            else r.result == Ok(Some(Frame(command, headers, body))) && r.buf + Concat(r.incoming) == rest
  {
    assert [] + Concat(incoming) == Concat(incoming);
    var most := Block(command, headers) + body;
    var decode := b => Decode(b, max);
    UnsizedIsPending(decode, command, headers, body, max);
    PendingFrom(decode, most, Frame(command, headers, body), rest, [], incoming, max);
    ReceiveIsBy(decode, [], incoming, max);
    CutMeansRead(0, incoming, max, |most|);
  }

  /** It is received under every cutting exactly when block and body together are within the
      limit. */
  lemma UnsizedInvariantExactly(command: Text, headers: seq<Header>, body: seq<byte>, rest: seq<byte>, max: nat)
    requires Unsized(command, headers, body, max)
    ensures (forall incoming ::
               Reads(incoming) && Concat(incoming) == Block(command, headers) + body + [NUL] + rest ==>
                 Receive([], incoming, max).result == Ok(Some(Frame(command, headers, body))))
            <==> |Block(command, headers) + body| <= max
  {
    var most := Block(command, headers) + body;
    if |most| <= max {
      forall incoming | Reads(incoming) && Concat(incoming) == most + [NUL] + rest
        ensures Receive([], incoming, max).result == Ok(Some(Frame(command, headers, body)))
      {
        UnsizedArrivesExactly(command, headers, body, rest, incoming, max);
      }
    } else {
      var cut := [most, [NUL] + rest];
      TwoReads(most, [NUL] + rest);
      assert most + ([NUL] + rest) == most + [NUL] + rest;
      UnsizedArrivesExactly(command, headers, body, rest, cut, max);
      assert SomeReadEnds(cut, max, |most|) by { assert |Concat(cut[..1])| == |most|; }
    }
  }

  lemma TwoReads(a: seq<byte>, b: seq<byte>)
    ensures Concat([a, b]) == a + b && Concat([a, b][..1]) == a
  {
    var cut := [a, b];
    assert cut[1..] == [b] && [b][1..] == [] && cut[..1] == [a] && [a][1..] == [];
    assert Concat([b]) == b + [] && Concat([a]) == a + [];
  }

  // ---- The reader ----------------------------------------------------------------------

  /** The receiving end, with the bytes still to come in `incoming`, one element per read; once
      those are used up a read brings nothing. */
  class FrameReader {
    var buf: seq<byte>
    var incoming: seq<seq<byte>>
    const maxFrameSize: nat

    /** Every read fits the read array, and the buffer fits the bound it implies. */
    ghost predicate Valid()
      reads this
    {
      && (forall i :: 0 <= i < |incoming| ==> 0 < |incoming[i]| <= READ_SIZE)
      && |buf| <= 2 * maxFrameSize + READ_SIZE
    }

    constructor (max: nat, socket: seq<seq<byte>>)
      requires forall i :: 0 <= i < |socket| ==> 0 < |socket[i]| <= READ_SIZE
      ensures Valid() && buf == [] && incoming == socket && maxFrameSize == max
    {
      buf, incoming, maxFrameSize := [], socket, max;
    }

    /** `recv`: decode, else read and try again. The buffer bound is an invariant of the
        loop, so it holds after every read, not only on return. */
    method Recv() returns (r: Result<Option<Frame>, CodecError>)
      requires Valid()
      modifies this
      ensures Valid()
      ensures Reception(r, buf, incoming) == Receive(old(buf), old(incoming), maxFrameSize)
      ensures r.Ok? && r.value.Some? ==> |buf| + |Concat(incoming)| < |old(buf)| + |Concat(old(incoming))|
    {
      ReceiveShrinks(buf, incoming, maxFrameSize);
      while true
        invariant Valid()
        invariant Receive(buf, incoming, maxFrameSize) == Receive(old(buf), old(incoming), maxFrameSize)
        decreases |incoming|
      {
        DecodeBounds(buf, maxFrameSize);
        r, buf := DecodeOne(buf, maxFrameSize);
        if r.Err? || r.value.Some? { return; }
        if incoming == [] { return; }
        buf, incoming := buf + incoming[0], incoming[1..];
      }
    }
  }
}
