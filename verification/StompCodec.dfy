/** STOMP 1.2 frames: what `Frame::encode` prints and what `decode_one_with_limit` takes
    back out of a buffer (crates/oa-gateway-stomp/src/codec.rs). */
module StompCodec {
  import opened Wrappers
  import opened Utf8
  import Decimal

  const NUL: byte := 0
  const LF: byte := 10
  const CR: byte := 13
  const COLON: byte := 58
  const BACKSLASH: byte := 92

  /** `content-length` */
  const LENGTH_NAME: Text := [99, 111, 110, 116, 101, 110, 116, 45, 108, 101, 110, 103, 116, 104]

  type Header = (Text, Text)

  datatype Frame = Frame(command: Text, headers: seq<Header>, body: seq<byte>)

  datatype CodecError =
    | NotUtf8
    | MissingCommand
    | BadHeader
    | BadEscape
    | BadContentLength
    | NulInHeaders
    | FrameTooLarge(max: nat)
    | MissingNull

  /** `Frame::header`: of several headers with one name, the first counts. */
  function HeaderOf(headers: seq<Header>, name: Text): Option<Text> {
    if headers == [] then None
    else if headers[0].0 == name then Some(headers[0].1)
    else HeaderOf(headers[1..], name)
  }

  // ---- Header escapes ------------------------------------------------------------------

  function EscapeByte(b: byte): Text {
    if b == BACKSLASH then [BACKSLASH, BACKSLASH]
    else if b == COLON then [BACKSLASH, 99]
    else if b == LF then [BACKSLASH, 110]
    else if b == CR then [BACKSLASH, 114]
    else [b]
  }

  /** What `escape_header` denotes: every byte replaced by its escape. */
  function Escape(s: Text): Text {
    if s == [] then [] else EscapeByte(s[0]) + Escape(s[1..])
  }

  /** What `unescape_header` denotes. */
  function Unescape(s: Text): Result<Text, CodecError> {
    if s == [] then Ok([])
    else if s[0] != BACKSLASH then
      Prepend([s[0]], Unescape(s[1..]))
    else if |s| == 1 || s[1] !in [BACKSLASH, 99, 110, 114] then Err(BadEscape)
    else
      var b: byte := if s[1] == BACKSLASH then BACKSLASH else if s[1] == 99 then COLON else if s[1] == 110 then LF else CR;
      Prepend([b], Unescape(s[2..]))
  }

  function Prepend(done: Text, r: Result<Text, CodecError>): Result<Text, CodecError> {
    if r.Ok? then Ok(done + r.value) else r
  }

  lemma PrependTwice(a: Text, b: Text, r: Result<Text, CodecError>)
    ensures Prepend(a, Prepend(b, r)) == Prepend(a + b, r)
    ensures Prepend([], r) == r
  {
    if r.Ok? {
      assert a + (b + r.value) == a + b + r.value;
      assert [] + r.value == r.value;
    }
  }

  lemma {:induction false} EscapeAppend(a: Text, b: Text)
    ensures Escape(a + b) == Escape(a) + Escape(b)
  {
    if a == [] {
      assert a + b == b;
    } else {
      EscapeAppend(a[1..], b);
      TailOfConcat(a, b);
      Associate(EscapeByte(a[0]), Escape(a[1..]), Escape(b));
    }
  }

  lemma TailOfConcat(a: Text, b: Text)
    requires a != []
    ensures (a + b)[0] == a[0] && (a + b)[1..] == a[1..] + b
  {
  }

  /** The character loop of `escape_header`. */
  method EscapeHeader(s: Text) returns (out: Text)
    ensures out == Escape(s)
  {
    out := [];
    for i := 0 to |s|
      invariant out == Escape(s[..i])
    {
      EscapeAppend(s[..i], [s[i]]);
      assert s[..i + 1] == s[..i] + [s[i]];
      assert Escape([s[i]]) == EscapeByte(s[i]);
      out := out + EscapeByte(s[i]);
    }
    assert s[..|s|] == s;
  }

  /** The iterator loop of `unescape_header`. */
  method UnescapeHeader(s: Text) returns (r: Result<Text, CodecError>)
    ensures r == Unescape(s)
  {
    var out: Text := [];
    var i := 0;
    assert s[0..] == s;
    PrependTwice([], [], Unescape(s));
    while i < |s|
      invariant 0 <= i <= |s|
      invariant Unescape(s) == Prepend(out, Unescape(s[i..]))
    {
      assert s[i..][1..] == s[i + 1..];
      if s[i] != BACKSLASH {
        PrependTwice(out, [s[i]], Unescape(s[i + 1..]));
        out := out + [s[i]];
        i := i + 1;
      } else {
        if i + 1 == |s| { return Err(BadEscape); }
        assert s[i..][2..] == s[i + 2..] && s[i..][1] == s[i + 1];
        var b: byte;
        match s[i + 1] {
          case 92 => b := BACKSLASH;
          case 99 => b := COLON;
          case 110 => b := LF;
          case 114 => b := CR;
          case _ => return Err(BadEscape);
        }
        PrependTwice(out, [b], Unescape(s[i + 2..]));
        out := out + [b];
        i := i + 2;
      }
    }
    assert out + [] == out;
    r := Ok(out);
  }

  /** Unescaping undoes escaping, on every string. */
  lemma {:induction false} UnescapeOfEscape(s: Text)
    ensures Unescape(Escape(s)) == Ok(s)
  {
    if s != [] {
      UnescapeOfEscape(s[1..]);
      var e := EscapeByte(s[0]);
      assert (e + Escape(s[1..]))[|e|..] == Escape(s[1..]);
      assert s == [s[0]] + s[1..];
    }
  }

  /** Escaped text holds none of the bytes that structure a header block. */
  lemma {:induction false} EscapeIsPlain(s: Text)
    ensures LF !in Escape(s) && CR !in Escape(s) && COLON !in Escape(s)
    ensures NUL !in s ==> NUL !in Escape(s)
  {
    if s != [] { EscapeIsPlain(s[1..]); }
  }

  /** The escapes of STOMP 1.2, "Value Encoding": `\r`, `\n`, `\c` and `\\`. */
  lemma EscapesAreStomp()
    ensures Escape([13]) == [92, 114] && Escape([10]) == [92, 110] && Escape([58]) == [92, 99] && Escape([92]) == [92, 92]
    ensures Unescape([92, 114]) == Ok([13]) && Unescape([92, 110]) == Ok([10])
    ensures Unescape([92, 99]) == Ok([58]) && Unescape([92, 92]) == Ok([92])
    ensures forall b: byte :: b !in {114, 110, 99, 92} ==> Unescape([92, b]) == Err(BadEscape)
  {
    EscapeOne(13);
    EscapeOne(10);
    EscapeOne(58);
    EscapeOne(92);
    UnescapePair(13, 114);
    UnescapePair(10, 110);
    UnescapePair(58, 99);
    UnescapePair(92, 92);
  }

  lemma EscapeOne(b: byte)
    ensures Escape([b]) == EscapeByte(b)
  {
    var s: Text := [b];
    assert s[1..] == [];
  }

  lemma UnescapePair(b: byte, c: byte)
    requires EscapeByte(b) == [BACKSLASH, c]
    ensures Unescape([BACKSLASH, c]) == Ok([b])
  {
    UnescapeOfEscape([b]);
    EscapeOne(b);
  }

  lemma {:induction false} EscapeOfPlain(s: Text)
    requires forall i :: 0 <= i < |s| ==> EscapeByte(s[i]) == [s[i]]
    ensures Escape(s) == s
  {
    if s != [] {
      EscapeOfPlain(s[1..]);
    }
  }

  lemma {:induction false} EscapeKeepsUtf8(s: Text)
    requires Valid(s)
    ensures Valid(Escape(s))
  {
    if s != [] {
      var n := ScalarLength(s);
      assert s == s[..n] + s[n..];
      EscapeAppend(s[..n], s[n..]);
      EscapeKeepsUtf8(s[n..]);
      ScalarEscapes(s);
      ValidConcat(Escape(s[..n]), Escape(s[n..]));
    }
  }

  lemma ScalarEscapes(s: Text)
    requires s != [] && ScalarLength(s) > 0
    ensures Valid(Escape(s[..ScalarLength(s)]))
  {
    var n := ScalarLength(s);
    var c := s[..n];
    if n == 1 {
      assert c == [s[0]] && c[1..] == [];
      assert Escape(c) == EscapeByte(s[0]) + [];
      ValidAscii(Escape(c));
    } else {
      assert forall i :: 0 <= i < n ==> c[i] >= 0x80;
      EscapeOfPlain(c);
      assert ScalarLength(c) == n && c[n..] == [];
    }
  }

  lemma {:induction false} UnescapeKeepsUtf8(s: Text)
    requires Valid(s) && Unescape(s).Ok?
    ensures Valid(Unescape(s).value)
  {
    if s != [] {
      if s[0] == BACKSLASH {
        assert Valid(s[1..]);
        assert s[1..][1..] == s[2..];
        UnescapeKeepsUtf8(s[2..]);
      } else {
        var n := ScalarLength(s);
        assert s == s[..n] + s[n..];
        UnescapePlainPrefix(s[..n], s[n..]);
        UnescapeKeepsUtf8(s[n..]);
        assert ScalarLength(s[..n]) == n;
        ValidConcat(s[..n], Unescape(s[n..]).value);
      }
    }
  }

  lemma {:induction false} UnescapePlainPrefix(a: Text, b: Text)
    requires BACKSLASH !in a && Unescape(a + b).Ok?
    ensures Unescape(b).Ok? && Unescape(a + b).value == a + Unescape(b).value
  {
    if a == [] {
      assert a + b == b;
    } else {
      assert (a + b)[1..] == a[1..] + b;
      UnescapePlainPrefix(a[1..], b);
    }
  }

  // ---- Encoding ------------------------------------------------------------------------

  predicate Names(headers: seq<Header>, name: Text) {
    exists i :: 0 <= i < |headers| && headers[i].0 == name
  }

  predicate NamesLength(headers: seq<Header>) {
    Names(headers, LENGTH_NAME)
  }

  /** The headers that go on the wire: the frame's own, and a length if they name none. */
  function Sent(f: Frame): seq<Header> {
    if NamesLength(f.headers) then f.headers else f.headers + [(LENGTH_NAME, Decimal.Print(|f.body|))]
  }

  /** One header as it is written, without its line end. */
  function HeaderLine(h: Header): Text {
    Escape(h.0) + [COLON] + Escape(h.1)
  }

  function HeaderLines(headers: seq<Header>): seq<Text> {
    seq(|headers|, i requires 0 <= i < |headers| => HeaderLine(headers[i]))
  }

  /** Each line followed by LF. */
  function Join(lines: seq<Text>): Text {
    if lines == [] then [] else lines[0] + [LF] + Join(lines[1..])
  }

  /** Command, headers and the blank line. */
  function Block(command: Text, headers: seq<Header>): Text {
    Join([command] + HeaderLines(headers)) + [LF]
  }

  function HeaderBlock(f: Frame): Text {
    Block(f.command, Sent(f))
  }

  function Encode(f: Frame): seq<byte> {
    HeaderBlock(f) + f.body + [NUL]
  }

  lemma {:induction false} JoinAppend(a: seq<Text>, b: seq<Text>)
    ensures Join(a + b) == Join(a) + Join(b)
  {
    if a == [] {
      assert a + b == b;
    } else {
      JoinAppend(a[1..], b);
      assert (a + b)[1..] == a[1..] + b;
    }
  }

  /** The header loop of `Frame::encode`, which also notes whether a length was named. */
  method EncodeHeaders(f: Frame, lengthName: Text) returns (out: Text, hasLength: bool)
    ensures hasLength == Names(f.headers, lengthName)
    ensures out == Join([f.command] + HeaderLines(f.headers))
  {
    out := f.command + [LF];
    hasLength := false;
    StartLine(f.command, f.headers[..0]);
    for i := 0 to |f.headers|
      invariant hasLength == Names(f.headers[..i], lengthName)
      invariant out == Join([f.command] + HeaderLines(f.headers[..i]))
    {
      var h := f.headers[i];
      if h.0 == lengthName { hasLength := true; }
      AppendLine(f.command, f.headers[..i], h);
      NamesAppend(f.headers[..i], h, lengthName);
      assert f.headers[..i + 1] == f.headers[..i] + [h];
      out := PushHeader(out, h);
    }
    assert f.headers[..|f.headers|] == f.headers;
  }

  /** One header, escaped, and its line end. */
  method PushHeader(before: Text, h: Header) returns (out: Text)
    ensures out == before + HeaderLine(h) + [LF]
  {
    var name := EscapeHeader(h.0);
    var value := EscapeHeader(h.1);
    out := before + (name + [COLON] + value) + [LF];
  }

  /** `Frame::encode`. */
  method EncodeFrame(f: Frame) returns (out: seq<byte>)
    ensures out == Encode(f)
  {
    var hasLength;
    out, hasLength := EncodeHeaders(f, LENGTH_NAME);
    if !hasLength {
      LengthNameIsPlain();
      LengthLine(f, LENGTH_NAME);
      out := out + (LENGTH_NAME + [COLON] + Decimal.Print(|f.body|)) + [LF];
    }
    out := out + [LF] + f.body + [NUL];
  }

  lemma LengthLine(f: Frame, name: Text)
    requires Escape(name) == name
    ensures Join([f.command] + HeaderLines(f.headers + [(name, Decimal.Print(|f.body|))])) ==
            Join([f.command] + HeaderLines(f.headers)) + (name + [COLON] + Decimal.Print(|f.body|)) + [LF]
  {
    PlainLine(name, |f.body|);
    AppendLine(f.command, f.headers, (name, Decimal.Print(|f.body|)));
  }

  lemma StartLine(command: Text, headers: seq<Header>)
    requires headers == []
    ensures Join([command] + HeaderLines(headers)) == command + [LF]
  {
    assert [command] + HeaderLines(headers) == [command];
    assert [command][1..] == [];
  }

  lemma NamesAppend(headers: seq<Header>, h: Header, name: Text)
    ensures Names(headers + [h], name) == (Names(headers, name) || h.0 == name)
  {
    assert (headers + [h])[|headers|] == h;
    assert forall i :: 0 <= i < |headers| ==> (headers + [h])[i] == headers[i];
  }

  lemma AppendLine(command: Text, headers: seq<Header>, h: Header)
    ensures Join([command] + HeaderLines(headers + [h])) == Join([command] + HeaderLines(headers)) + HeaderLine(h) + [LF]
  {
    var lines := [command] + HeaderLines(headers);
    assert [command] + HeaderLines(headers + [h]) == lines + [HeaderLine(h)];
    JoinAppend(lines, [HeaderLine(h)]);
    assert [HeaderLine(h)][1..] == [];
    assert Join([HeaderLine(h)]) == HeaderLine(h) + [LF];
  }

  lemma PlainLine(name: Text, n: nat)
    requires Escape(name) == name
    ensures HeaderLine((name, Decimal.Print(n))) == name + [COLON] + Decimal.Print(n)
  {
    var d := Decimal.Print(n);
    assert forall i :: 0 <= i < |d| ==> Decimal.IsDigit(d[i]);
    EscapeOfPlain(d);
  }

  lemma LengthNameIsPlain()
    ensures Escape(LENGTH_NAME) == LENGTH_NAME
  {
    EscapeOfPlain(LENGTH_NAME);
  }

  // ---- Decoding ------------------------------------------------------------------------

  predicate IsHeartbeat(b: byte) {
    b == LF || b == CR || b == NUL
  }

  function SkipHeartbeats(buf: seq<byte>): (r: seq<byte>)
    ensures |r| <= |buf|
  {
    if buf == [] then [] else if IsHeartbeat(buf[0]) then SkipHeartbeats(buf[1..]) else buf
  }

  predicate BlankAt(buf: seq<byte>, i: nat) {
    i + 1 < |buf| && buf[i] == LF && buf[i + 1] == LF
  }

  predicate CrlfBlankAt(buf: seq<byte>, i: nat) {
    i + 3 < |buf| && buf[i] == CR && buf[i + 1] == LF && buf[i + 2] == CR && buf[i + 3] == LF
  }

  /** Offset just past the first blank line at or after `i`. */
  function HeaderEndFrom(buf: seq<byte>, i: nat): (r: Option<nat>)
    requires i <= |buf|
    ensures r.Some? ==> i < r.value <= |buf|
    decreases |buf| - i
  {
    if i == |buf| then None
    else if BlankAt(buf, i) then Some(i + 2)
    else if CrlfBlankAt(buf, i) then Some(i + 4)
    else HeaderEndFrom(buf, i + 1)
  }

  /** The index loop of `find_header_end`. */
  method FindHeaderEnd(buf: seq<byte>) returns (r: Option<nat>)
    ensures r == HeaderEndFrom(buf, 0)
  {
    var i := 0;
    while i + 1 < |buf|
      invariant 0 <= i <= |buf|
      invariant HeaderEndFrom(buf, 0) == HeaderEndFrom(buf, i)
    {
      if buf[i] == LF && buf[i + 1] == LF { return Some(i + 2); }
      if i + 3 < |buf| && buf[i] == CR && buf[i + 1] == LF && buf[i + 2] == CR && buf[i + 3] == LF {
        return Some(i + 4);
      }
      i := i + 1;
    }
    r := None;
  }

  /** Index of the first `b`, or the length if there is none. */
  function IndexOf(s: seq<byte>, b: byte): (i: nat)
    ensures i <= |s|
    ensures i < |s| ==> s[i] == b
    ensures b !in s[..i]
  {
    if s == [] || s[0] == b then 0 else 1 + IndexOf(s[1..], b)
  }

  lemma {:induction false} IndexOfAt(s: seq<byte>, b: byte, i: nat)
    requires i < |s| && s[i] == b && b !in s[..i]
    ensures IndexOf(s, b) == i
  {
    if i > 0 {
      assert s[..i][0] == s[0];
      assert s[1..][..i - 1] == s[..i][1..];
      IndexOfAt(s[1..], b, i - 1);
    }
  }

  /** `split('\n')`. */
  function Split(s: Text): (lines: seq<Text>)
    ensures |lines| > 0
    decreases |s|
  {
    var i := IndexOf(s, LF);
    if i == |s| then [s] else [s[..i]] + Split(s[i + 1..])
  }

  /** `trim_end_matches('\r')`. */
  function TrimCr(s: Text): Text {
    if s != [] && s[|s| - 1] == CR then TrimCr(s[..|s| - 1]) else s
  }

  function TrimmedLines(s: Text): (lines: seq<Text>)
    ensures |lines| > 0
  {
    var raw := Split(s);
    seq(|raw|, i requires 0 <= i < |raw| => TrimCr(raw[i]))
  }

  datatype Parsed = Parsed(headers: seq<Header>, length: Option<nat>)

  /** One non-empty header line: name, value and, for `content-length`, the number. */
  function ParseLine(line: Text): Result<Parsed, CodecError> {
    var i := IndexOf(line, COLON);
    if i == |line| then Err(BadHeader)
    else
      match Unescape(line[..i])
      case Err(e) => Err(e)
      case Ok(name) =>
        match Unescape(line[i + 1..])
        case Err(e) => Err(e)
        case Ok(value) =>
          if name != LENGTH_NAME then Ok(Parsed([(name, value)], None))
          else
            match Decimal.ParseUnsigned(value)
            case None => Err(BadContentLength)
            case Some(n) => Ok(Parsed([(name, value)], Some(n)))
  }

  /** All headers in order, and the number from the last `content-length`. */
  function ParseLines(lines: seq<Text>): Result<Parsed, CodecError> {
    if lines == [] then Ok(Parsed([], None))
    else if lines[0] == [] then ParseLines(lines[1..])
    else
      match ParseLine(lines[0])
      case Err(e) => Err(e)
      case Ok(first) =>
        Combine(first, ParseLines(lines[1..]))
  }

  /** Headers read so far, followed by what the later lines give. */
  function Combine(done: Parsed, rest: Result<Parsed, CodecError>): Result<Parsed, CodecError> {
    if rest.Err? then rest
    else Ok(Parsed(done.headers + rest.value.headers, if rest.value.length.Some? then rest.value.length else done.length))
  }

  lemma CombineTwice(a: Parsed, b: Parsed, r: Result<Parsed, CodecError>)
    ensures Combine(a, Combine(b, r)) ==
            Combine(Parsed(a.headers + b.headers, if b.length.Some? then b.length else a.length), r)
    ensures Combine(Parsed([], None), r) == r
  {
    if r.Ok? {
      assert a.headers + (b.headers + r.value.headers) == a.headers + b.headers + r.value.headers;
      assert [] + r.value.headers == r.value.headers;
    }
  }

  /** What one call leaves behind: its answer and the bytes still in the buffer. */
  datatype Decoded = Decoded(result: Result<Option<Frame>, CodecError>, rest: seq<byte>)

  function Refuse(e: CodecError, buf: seq<byte>): Decoded {
    Decoded(Err(e), buf)
  }

  /** Where the body ends once the header block is known: at the declared length, which
      has to be followed by NUL, or at the first NUL. */
  function TakeBody(buf: seq<byte>, start: nat, command: Text, parsed: Parsed, max: nat): Decoded
    requires start <= |buf|
  {
    match parsed.length
    case Some(n) =>
      var end := start + n;
      if n > max || end >= Decimal.U64_LIMIT then Refuse(FrameTooLarge(max), buf)
      else if |buf| <= end then Decoded(Ok(None), buf)
      else if buf[end] != NUL then Refuse(MissingNull, buf)
      else Decoded(Ok(Some(Frame(command, parsed.headers, buf[start..end]))), buf[end + 1..])
    case None =>
      var end := start + IndexOf(buf[start..], NUL);
      if end < |buf| then Decoded(Ok(Some(Frame(command, parsed.headers, buf[start..end]))), buf[end + 1..])
      else if |buf| > max then Refuse(FrameTooLarge(max), buf)
      else Decoded(Ok(None), buf)
  }

  /** What `decode_one_with_limit` denotes on a buffer whose heartbeats are gone. */
  function DecodeFrame(buf: seq<byte>, max: nat): Decoded {
    match HeaderEndFrom(buf, 0)
    case None => if |buf| > max then Refuse(FrameTooLarge(max), buf) else Decoded(Ok(None), buf)
    case Some(end) =>
      if end > max then Refuse(FrameTooLarge(max), buf)
      else if NUL in buf[..end] then Refuse(NulInHeaders, buf)
      else if !Valid(buf[..end]) then Refuse(NotUtf8, buf)
      else
        var lines := TrimmedLines(buf[..end]);
        if lines[0] == [] then Refuse(MissingCommand, buf)
        else
          match ParseLines(lines[1..])
          case Err(e) => Refuse(e, buf)
          case Ok(parsed) => TakeBody(buf, end, lines[0], parsed, max)
  }

  /** What `decode_one_with_limit` denotes. */
  function Decode(buf: seq<byte>, max: nat): Decoded {
    var rest := SkipHeartbeats(buf);
    if rest == [] then Decoded(Ok(None), []) else DecodeFrame(rest, max)
  }

  /** The index of the first byte that is not a heartbeat. */
  method FirstNonHeartbeat(buf: seq<byte>) returns (start: nat)
    ensures start <= |buf|
    ensures SkipHeartbeats(buf) == buf[start..]
  {
    start := 0;
    while start < |buf| && IsHeartbeat(buf[start])
      invariant start <= |buf|
      invariant SkipHeartbeats(buf) == SkipHeartbeats(buf[start..])
    {
      start := start + 1;
    }
  }

  /** The header-line loop of `decode_one_with_limit`: the last length wins. */
  method CollectHeaders(lines: seq<Text>) returns (r: Result<Parsed, CodecError>)
    ensures r == ParseLines(lines)
  {
    var headers: seq<Header> := [];
    var length: Option<nat> := None;
    assert lines[0..] == lines;
    CombineTwice(Parsed([], None), Parsed([], None), ParseLines(lines));
    for i := 0 to |lines|
      invariant ParseLines(lines) == Combine(Parsed(headers, length), ParseLines(lines[i..]))
    {
      assert lines[i..][0] == lines[i] && lines[i..][1..] == lines[i + 1..];
      var line := lines[i];
      if line == [] { continue; }
      var colon := IndexOf(line, COLON);
      if colon == |line| { return Err(BadHeader); }
      var name := UnescapeHeader(line[..colon]);
      if name.Err? { return Err(name.error); }
      var value := UnescapeHeader(line[colon + 1..]);
      if value.Err? { return Err(value.error); }
      if name.value == LENGTH_NAME {
        var n := Decimal.ParseUnsigned(value.value);
        if n.None? { return Err(BadContentLength); }
        CombineTwice(Parsed(headers, length), Parsed([(name.value, value.value)], n), ParseLines(lines[i + 1..]));
        length := n;
      } else {
        CombineTwice(Parsed(headers, length), Parsed([(name.value, value.value)], None), ParseLines(lines[i + 1..]));
      }
      headers := headers + [(name.value, value.value)];
    }
    assert headers + [] == headers;
    r := Ok(Parsed(headers, length));
  }

  /** `decode_one_with_limit`: drops heartbeats, then drains one complete frame. */
  method DecodeOne(buf: seq<byte>, max: nat) returns (r: Result<Option<Frame>, CodecError>, rest: seq<byte>)
    ensures Decoded(r, rest) == Decode(buf, max)
  {
    var start := FirstNonHeartbeat(buf);
    if start == |buf| { return Ok(None), []; }
    rest := buf[start..];
    var found := FindHeaderEnd(rest);
    if found.None? {
      if |rest| > max { return Err(FrameTooLarge(max)), rest; }
      return Ok(None), rest;
    }
    var headerEnd := found.value;
    if headerEnd > max { return Err(FrameTooLarge(max)), rest; }
    var block := rest[..headerEnd];
    if NUL in block { return Err(NulInHeaders), rest; }
    if !Valid(block) { return Err(NotUtf8), rest; }
    var lines := TrimmedLines(block);
    if lines[0] == [] { return Err(MissingCommand), rest; }
    var parsed := CollectHeaders(lines[1..]);
    if parsed.Err? { return Err(parsed.error), rest; }
    r, rest := DrainBody(rest, headerEnd, lines[0], parsed.value, max);
  }

  /** The end of `decode_one_with_limit`: the body, once the headers are known. */
  method DrainBody(buf: seq<byte>, headerEnd: nat, command: Text, parsed: Parsed, max: nat)
      returns (r: Result<Option<Frame>, CodecError>, rest: seq<byte>)
    requires headerEnd <= |buf|
    ensures Decoded(r, rest) == TakeBody(buf, headerEnd, command, parsed, max)
  {
    rest := buf;
    var bodyEnd;
    if parsed.length.Some? {
      var len := parsed.length.value;
      if len > max || headerEnd + len >= Decimal.U64_LIMIT { return Err(FrameTooLarge(max)), rest; }
      bodyEnd := headerEnd + len;
      if |rest| <= bodyEnd { return Ok(None), rest; }
      if rest[bodyEnd] != NUL { return Err(MissingNull), rest; }
    } else {
      bodyEnd := headerEnd + IndexOf(rest[headerEnd..], NUL);
      if bodyEnd == |rest| {
        if |rest| > max { return Err(FrameTooLarge(max)), rest; }
        return Ok(None), rest;
      }
    }
    r := Ok(Some(Frame(command, parsed.headers, rest[headerEnd..bodyEnd])));
    rest := rest[bodyEnd + 1..];
  }
}
