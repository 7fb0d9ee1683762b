/** Frames as other implementations spell them: lines that end in CR LF as well as in LF, and
    with or without a `content-length` (crates/oa-gateway-stomp/src/codec.rs). */
module StompLineEnds {
  import opened Wrappers
  import opened Utf8
  import opened StompCodec
  import opened StompStream
  import Decimal

  // ---- Lines that end in any number of CRs and an LF -----------------------------------

  function Returns(n: nat): (s: Text)
    ensures |s| == n && forall i :: 0 <= i < n ==> s[i] == CR
  {
    seq(n, i => CR)
  }

  /** A line and the CRs before its LF. */
  datatype Ended = Ended(line: Text, crs: nat)

  function Raw(e: Ended): Text {
    e.line + Returns(e.crs)
  }

  function RawLines(es: seq<Ended>): seq<Text> {
    seq(|es|, i requires 0 <= i < |es| => Raw(es[i]))
  }

  function Lines(es: seq<Ended>): seq<Text> {
    seq(|es|, i requires 0 <= i < |es| => es[i].line)
  }

  /** Command and headers, each line with an end of its own. */
  predicate Spells(es: seq<Ended>, command: Text, headers: seq<Header>) {
    Lines(es) == [command] + HeaderLines(headers)
  }

  function Blank(crlf: bool): Text {
    if crlf then [CR, LF] else [LF]
  }

  function Spelled(es: seq<Ended>, crlf: bool): Text {
    Join(RawLines(es)) + Blank(crlf)
  }

  /** The blank line is recognized: it is LF alone, or CR LF after a line that ended in CR LF. */
  predicate Recognized(es: seq<Ended>, crlf: bool) {
    crlf ==> es != [] && es[|es| - 1].crs > 0
  }

  // ---- Where the header block ends -----------------------------------------------------

  /** The two ways a blank line is seen. */
  predicate Gap(s: seq<byte>, i: nat) {
    BlankAt(s, i) || CrlfBlankAt(s, i)
  }

  lemma {:induction false} NoGapBefore(buf: seq<byte>, i: nat, p: nat)
    requires i <= p <= |buf| && forall k :: i <= k < p ==> !Gap(buf, k)
    ensures HeaderEndFrom(buf, i) == HeaderEndFrom(buf, p)
    decreases p - i
  {
    if i < p {
      assert !Gap(buf, i);
      NoGapBefore(buf, i + 1, p);
    }
  }

  /** An LF is followed by neither LF nor CR LF. */
  predicate Unbroken(s: Text) {
    forall i :: 0 <= i < |s| - 1 && s[i] == LF ==> s[i + 1] != LF && !(i + 2 < |s| && s[i + 1] == CR && s[i + 2] == LF)
  }

  predicate CleanEnds(es: seq<Ended>) {
    forall i :: 0 <= i < |es| ==> CleanLine(es[i].line)
  }

  lemma RawCons(es: seq<Ended>)
    requires es != []
    ensures RawLines(es) == [Raw(es[0])] + RawLines(es[1..])
    ensures Join(RawLines(es)) == Raw(es[0]) + [LF] + Join(RawLines(es[1..]))
    ensures CleanEnds(es) ==> CleanLine(es[0].line) && CleanEnds(es[1..])
  {
    assert RawLines(es)[1..] == RawLines(es[1..]);
    assert forall i :: 0 <= i < |es[1..]| ==> es[1..][i] == es[i + 1];
  }

  lemma UnbrokenCons(e: Ended, rest: Text)
    requires CleanLine(e.line) && Unbroken(rest) && (rest != [] ==> Begins(rest))
    ensures Unbroken(Raw(e) + [LF] + rest) && Begins(Raw(e) + [LF] + rest)
  {
    var raw := Raw(e);
    var s := raw + [LF] + rest;
    assert forall i :: 0 <= i < |e.line| ==> raw[i] == e.line[i] && e.line[i] in e.line;
    assert forall i :: 0 <= i < |raw| ==> raw[i] != LF;
    forall i | 0 <= i < |s| - 1 && s[i] == LF
      ensures s[i + 1] != LF && !(i + 2 < |s| && s[i + 1] == CR && s[i + 2] == LF)
    {
      var j := i - |raw| - 1;
      assert i >= |raw|;
      assert s[i + 1] == rest[j + 1];
      if i + 2 < |s| { assert s[i + 2] == rest[j + 2]; }
      if j >= 0 { assert s[i] == rest[j]; }
    }
  }

  /** Begins with neither LF nor CR LF. */
  predicate Begins(s: Text) {
    s != [] && s[0] != LF && !(|s| > 1 && s[0] == CR && s[1] == LF)
  }

  lemma {:induction false} LinesAreUnbroken(es: seq<Ended>)
    requires CleanEnds(es)
    ensures var s := Join(RawLines(es));
            && Unbroken(s)
            && (es != [] ==> Begins(s) && |s| >= 2 && s[|s| - 1] == LF && (s[|s| - 2] == CR <==> es[|es| - 1].crs > 0))
  {
    if es != [] {
      RawCons(es);
      LinesAreUnbroken(es[1..]);
      UnbrokenCons(es[0], Join(RawLines(es[1..])));
      LastTwo(es[0], Join(RawLines(es[1..])));
      if |es| == 1 { assert RawLines(es[1..]) == []; }
    }
  }

  lemma LastTwo(e: Ended, rest: Text)
    requires CleanLine(e.line) && |rest| != 1
    ensures var s := Raw(e) + [LF] + rest;
            && |s| >= 2
            && (rest != [] ==> s[|s| - 1] == rest[|rest| - 1] && s[|s| - 2] == rest[|rest| - 2])
            && (rest == [] ==> s[|s| - 1] == LF && (s[|s| - 2] == CR <==> e.crs > 0))
  {
    var raw := Raw(e);
    assert raw[|raw| - 1] == if e.crs > 0 then CR else e.line[|e.line| - 1];
  }

  /** The blank line ends the block exactly when it is recognized; else the block is taken to
      go on into the body. */
  lemma BlockEndExactly(es: seq<Ended>, crlf: bool, tail: seq<byte>)
    requires CleanEnds(es) && es != []
    ensures var block := Spelled(es, crlf);
            var end := HeaderEndFrom(block + tail, 0);
            if Recognized(es, crlf) then end == Some(|block|) else end.Some? ==> end.value > |block|
  {
    var s := Join(RawLines(es));
    var buf := Spelled(es, crlf) + tail;
    LinesAreUnbroken(es);
    assert forall i :: 0 <= i < |s| ==> buf[i] == s[i];
    assert buf[|s|] == Blank(crlf)[0] && (crlf ==> buf[|s| + 1] == LF);
    var p := if !crlf then |s| - 1 else if Recognized(es, crlf) then |s| - 2 else |s|;
    forall k | 0 <= k < p ensures !Gap(buf, k) { NoGapInside(s, buf, crlf, k); }
    NoGapBefore(buf, 0, p);
    if Recognized(es, crlf) { assert Gap(buf, p); }
    else { PastBlank(buf, |s|); }
  }

  lemma NoGapInside(s: Text, buf: seq<byte>, crlf: bool, k: nat)
    requires Unbroken(s) && |s| >= 2 && s[|s| - 1] == LF && |buf| >= |s| + |Blank(crlf)|
    requires forall i :: 0 <= i < |s| ==> buf[i] == s[i]
    requires buf[|s|] == Blank(crlf)[0] && (crlf ==> buf[|s| + 1] == LF)
    requires k < if !crlf then |s| - 1 else if s[|s| - 2] == CR then |s| - 2 else |s|
    ensures !Gap(buf, k)
  {
  }

  lemma PastBlank(buf: seq<byte>, i: nat)
    requires i + 1 < |buf| && buf[i] == CR
    ensures var end := HeaderEndFrom(buf, i);
            end.Some? ==> end.value > i + 2
  {
    assert !BlankAt(buf, i);
    assert HeaderEndFrom(buf, i + 1).Some? ==> HeaderEndFrom(buf, i + 1).value > i + 2;
  }

  // ---- The lines are read back ---------------------------------------------------------

  lemma {:induction false} TrimOfRaw(line: Text, n: nat)
    requires line == [] || line[|line| - 1] != CR
    ensures TrimCr(line + Returns(n)) == line
  {
    var s := line + Returns(n);
    if n == 0 {
      assert s == line;
    } else {
      assert s[..|s| - 1] == line + Returns(n - 1);
      TrimOfRaw(line, n - 1);
    }
  }

  lemma {:induction false} SplitOfEnded(es: seq<Ended>, tail: Text)
    requires CleanEnds(es)
    ensures Split(Join(RawLines(es)) + tail) == RawLines(es) + Split(tail)
  {
    if es == [] {
      assert Join(RawLines(es)) + tail == tail;
    } else {
      RawCons(es);
      FirstLine(Raw(es[0]), Join(RawLines(es[1..])), tail);
      SplitLine(Raw(es[0]), Join(RawLines(es[1..])) + tail);
      SplitOfEnded(es[1..], tail);
      assert RawLines(es)[1..] == RawLines(es[1..]);
      Reassociate(RawLines(es), Split(tail));
    }
  }

  /** The lines of a block, whatever they ended in. */
  lemma TrimmedAre(es: seq<Ended>, crlf: bool)
    requires CleanEnds(es)
    ensures TrimmedLines(Spelled(es, crlf)) == Lines(es) + [[], []]
  {
    SplitOfEnded(es, Blank(crlf));
    var cr: Text := if crlf then [CR] else [];
    assert Blank(crlf) == cr + [LF] + [];
    SplitLine(cr, []);
    assert Split(Spelled(es, crlf)) == RawLines(es) + [cr, []];
    TrimmedEach(es, cr);
  }

  lemma TrimmedEach(es: seq<Ended>, cr: Text)
    requires CleanEnds(es) && (cr == [] || cr == [CR])
    ensures var raw := RawLines(es) + [cr, []];
            seq(|raw|, i requires 0 <= i < |raw| => TrimCr(raw[i])) == Lines(es) + [[], []]
  {
    var raw := RawLines(es) + [cr, []];
    forall i | 0 <= i < |raw| ensures TrimCr(raw[i]) == (Lines(es) + [[], []])[i] {
      if i < |es| {
        TrimOfRaw(es[i].line, es[i].crs);
      } else if i == |es| {
        assert cr == [] + Returns(|cr|);
        TrimOfRaw([], |cr|);
      }
    }
  }

  lemma {:induction false} SafeEnded(es: seq<Ended>)
    requires forall i :: 0 <= i < |es| ==> SafeText(es[i].line)
    ensures SafeText(Join(RawLines(es)))
  {
    var raw := RawLines(es);
    forall i | 0 <= i < |raw| ensures SafeText(raw[i]) {
      AsciiIsSafe(Returns(es[i].crs));
      ValidConcat(es[i].line, Returns(es[i].crs));
    }
    ValidJoin(raw);
  }

  lemma SpelledIsSafe(es: seq<Ended>, crlf: bool, command: Text, headers: seq<Header>)
    requires Spells(es, command, headers) && SafeText(command) && SafeHeaders(headers)
    ensures SafeText(Spelled(es, crlf))
  {
    forall i | 0 <= i < |es| ensures SafeText(es[i].line) {
      assert es[i].line == Lines(es)[i];
      if i > 0 { HeaderLineIsSafe(headers[i - 1]); }
    }
    SafeEnded(es);
    AsciiIsSafe(Blank(crlf));
    ValidConcat(Join(RawLines(es)), Blank(crlf));
  }

  lemma SpelledIsClean(es: seq<Ended>, command: Text, headers: seq<Header>)
    requires Spells(es, command, headers) && CleanLine(command)
    ensures CleanEnds(es) && es != [] && es[0].line == command
  {
    BlockLinesAreClean(command, headers);
    assert |Lines(es)| == |es| && forall i :: 0 <= i < |es| ==> es[i].line == Lines(es)[i];
  }

  // ---- A whole frame -------------------------------------------------------------------

  /** The body is where the headers say: of the length they give last, or up to the first NUL if
      they give none. */
  predicate BodyMarked(headers: seq<Header>, body: seq<byte>) {
    && LengthsParse(headers)
    && match LastLength(headers)
       case Some(n) => n == |body|
       case None => NUL !in body
  }

  /** With a recognized block in the buffer, decoding gets as far as the body. */
  lemma SpelledDecodes(es: seq<Ended>, crlf: bool, command: Text, headers: seq<Header>, tail: seq<byte>, max: nat)
    requires Spells(es, command, headers) && SafeCommand(command) && SafeHeaders(headers)
    requires Recognized(es, crlf) && |Spelled(es, crlf)| <= max
    ensures var block := Spelled(es, crlf);
            Decode(block + tail, max) ==
            if LengthsParse(headers)
            then TakeBody(block + tail, |block|, command, Parsed(headers, LastLength(headers)), max)
            else Refuse(BadContentLength, block + tail)
  {
    var block := Spelled(es, crlf);
    var buf := block + tail;
    SpelledIsClean(es, command, headers);
    BlockEndExactly(es, crlf, tail);
    SpelledStarts(es, crlf, tail);
    assert buf[..|block|] == block;
    SpelledIsSafe(es, crlf, command, headers);
    SpelledReadsBack(es, crlf, command, headers);
  }

  lemma SpelledReadsBack(es: seq<Ended>, crlf: bool, command: Text, headers: seq<Header>)
    requires Spells(es, command, headers) && CleanEnds(es)
    ensures var lines := TrimmedLines(Spelled(es, crlf));
            && lines[0] == command
            && ParseLines(lines[1..]) ==
               if LengthsParse(headers) then Ok(Parsed(headers, LastLength(headers))) else Err(BadContentLength)
  {
    TrimmedAre(es, crlf);
    AfterFirst(command, HeaderLines(headers), [[], []]);
    ParseOfLines(headers);
  }

  lemma AfterFirst<T>(x: T, xs: seq<T>, end: seq<T>)
    ensures ([x] + xs + end)[0] == x && ([x] + xs + end)[1..] == xs + end
  {
  }

  lemma SpelledStarts(es: seq<Ended>, crlf: bool, tail: seq<byte>)
    requires es != [] && SafeCommand(es[0].line)
    ensures SkipHeartbeats(Spelled(es, crlf) + tail) == Spelled(es, crlf) + tail
  {
    RawCons(es);
    assert es[0].line[0] in es[0].line;
    assert (Spelled(es, crlf) + tail)[0] == es[0].line[0];
  }

  lemma BodyTaken(block: Text, body: seq<byte>, rest: seq<byte>, command: Text, headers: seq<Header>, max: nat)
    requires |body| <= max && |block| + |body| < Decimal.U64_LIMIT && LengthsParse(headers)
    ensures var buf := block + (body + [NUL] + rest);
            var taken := TakeBody(buf, |block|, command, Parsed(headers, LastLength(headers)), max);
            taken == Decoded(Ok(Some(Frame(command, headers, body))), rest) <==> BodyMarked(headers, body)
  {
    if LastLength(headers).Some? {
      assert block + (body + [NUL] + rest) == block + body + [NUL] + rest;
      TakeBodyAt(block, body, rest, command, Parsed(headers, LastLength(headers)), max);
    } else {
      UpToNul(block, body, rest);
    }
  }

  lemma UpToNul(block: Text, body: seq<byte>, rest: seq<byte>)
    ensures var buf := block + (body + [NUL] + rest);
            var end := |block| + IndexOf(buf[|block|..], NUL);
            && end < |buf| && (NUL in body <==> end < |block| + |body|)
            && (NUL !in body ==> buf[|block|..end] == body && buf[end + 1..] == rest)
  {
    var buf, tail := block + (body + [NUL] + rest), body + [NUL] + rest;
    assert buf[|block|..] == tail;
    FirstNul(body, rest);
    if NUL !in body { assert buf[|block|..|block| + |body|] == body && buf[|block| + |body| + 1..] == rest; }
  }

  lemma {:induction false} FirstNul(body: seq<byte>, rest: seq<byte>)
    ensures var i := IndexOf(body + [NUL] + rest, NUL);
            i <= |body| && (i == |body| <==> NUL !in body)
  {
    if body != [] && body[0] != NUL {
      assert (body + [NUL] + rest)[1..] == body[1..] + [NUL] + rest;
      FirstNul(body[1..], rest);
    }
  }

  /** What a frame leaves behind is at most what follows its header block. */
  lemma TakesPastEnd(buf: seq<byte>, max: nat)
    requires SkipHeartbeats(buf) == buf && buf != []
    ensures var d, end := Decode(buf, max), HeaderEndFrom(buf, 0);
            d.result.Ok? && d.result.value.Some? ==> end.Some? && |d.rest| + |d.result.value.value.body| + 1 + end.value == |buf|
  {
    var end := HeaderEndFrom(buf, 0);
    if end.Some? {
      var lines := TrimmedLines(buf[..end.value]);
      var parsed := ParseLines(lines[1..]);
      if parsed.Ok? { BodyFollows(buf, end.value, lines[0], parsed.value, max); }
    }
  }

  lemma BodyFollows(buf: seq<byte>, start: nat, command: Text, parsed: Parsed, max: nat)
    requires start <= |buf|
    ensures var d := TakeBody(buf, start, command, parsed, max);
            d.result.Ok? && d.result.value.Some? ==> |d.rest| + |d.result.value.value.body| + 1 + start == |buf|
  {
  }

  /** However its lines end: a frame is decoded, and what follows is left in the buffer, exactly
      when its blank line is recognized and its body is where its headers say. */
  lemma DecodeOfSpelled(
      es: seq<Ended>, crlf: bool, command: Text, headers: seq<Header>, body: seq<byte>, rest: seq<byte>, max: nat)
    requires Spells(es, command, headers) && SafeCommand(command) && SafeHeaders(headers)
    requires |Spelled(es, crlf)| <= max && |body| <= max && |Spelled(es, crlf)| + |body| < VEC_LIMIT
    ensures Decode(Spelled(es, crlf) + (body + [NUL] + rest), max) == Decoded(Ok(Some(Frame(command, headers, body))), rest) <==>
            Recognized(es, crlf) && BodyMarked(headers, body)
  {
    var block, tail := Spelled(es, crlf), body + [NUL] + rest;
    SpelledIsClean(es, command, headers);
    if Recognized(es, crlf) {
      SpelledDecodes(es, crlf, command, headers, tail, max);
      if LengthsParse(headers) { BodyTaken(block, body, rest, command, headers, max); }
    } else {
      BlockEndExactly(es, crlf, tail);
      SpelledStarts(es, crlf, tail);
      TakesPastEnd(block + tail, max);
    }
  }

  /** The header block of a frame with CR LF where the encoder writes LF. */
  function CrlfBlock(f: Frame): Text {
    Spelled(AllCrlf([f.command] + HeaderLines(Sent(f))), true)
  }

  /** A frame written with CR LF is read as the one written with LF, on the same condition. */
  lemma DecodeOfCrlf(f: Frame, max: nat, rest: seq<byte>)
    requires WireSafe(f, max) && |CrlfBlock(f)| <= max && |CrlfBlock(f)| + |f.body| < VEC_LIMIT
    ensures HonestLength(f) <==> Decode(CrlfBlock(f) + f.body + [NUL] + rest, max) == Decoded(Ok(Some(AsReceived(f))), rest)
  {
    var es := AllCrlf([f.command] + HeaderLines(Sent(f)));
    CrlfSpells([f.command] + HeaderLines(Sent(f)));
    SentIsSafe(f);
    MarkedIsHonest(f);
    InOneGo(CrlfBlock(f), f.body, rest);
    DecodeOfSpelled(es, true, f.command, Sent(f), f.body, rest, max);
  }

  lemma CrlfSpells(lines: seq<Text>)
    requires lines != []
    ensures Lines(AllCrlf(lines)) == lines && Recognized(AllCrlf(lines), true)
  {
  }

  lemma MarkedIsHonest(f: Frame)
    requires |f.body| < Decimal.U64_LIMIT
    ensures BodyMarked(Sent(f), f.body) <==> HonestLength(f)
  {
    SentLength(f);
    SentNamesLength(f);
  }

  lemma InOneGo(block: Text, body: seq<byte>, rest: seq<byte>)
    ensures block + (body + [NUL] + rest) == block + body + [NUL] + rest
  {
  }

  function AllCrlf(lines: seq<Text>): seq<Ended> {
    seq(|lines|, i requires 0 <= i < |lines| => Ended(lines[i], 1))
  }

  /** A blank line of CR LF after a line that ends in LF alone is missed: the frame is not
      decoded, however much follows it. */
  lemma MixedBlankIsMissed(command: Text, body: seq<byte>, rest: seq<byte>, max: nat)
    requires SafeCommand(command) && |command| + 3 <= max && |body| <= max && |command| + 3 + |body| < VEC_LIMIT
    ensures var bytes := command + [LF, CR, LF] + (body + [NUL] + rest);
            Decode(bytes, max) != Decoded(Ok(Some(Frame(command, [], body))), rest)
  {
    var es := [Ended(command, 0)];
    assert Lines(es) == [command] + HeaderLines([]);
    RawCons(es);
    assert Raw(es[0]) == command && RawLines(es[1..]) == [] && Join([]) == [];
    assert Spelled(es, true) == command + [LF, CR, LF];
    DecodeOfSpelled(es, true, command, [], body, rest, max);
  }
}
