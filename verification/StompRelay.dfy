/** An envelope from one gateway to another through a STOMP broker
    (`forward_outbound` and `inbound_publish` in crates/oa-gateway-stomp/src/adapter.rs,
    crates/oa-gateway-stomp/src/dest.rs). */
module StompRelay {
  import opened Wrappers
  import opened Utf8
  import opened Routing
  import opened StompCodec
  import opened StompStream
  import opened AgraWrapper
  import Hex

  const SLASH: byte := 47
  const SEMICOLON: byte := 59

  const DESTINATION := Ascii("destination")
  const CONTENT_TYPE := Ascii("content-type")
  const MESSAGE_ID := Ascii("message-id")
  const HDR_ORIGIN := Ascii("oag.origin_adapter")
  const HDR_TOPIC := Ascii("oag.topic")
  const HDR_ID := Ascii("oag.id")
  const HDR_TYPE_HINT := Ascii("oag.type_hint")
  const HDR_STOMP_DEST := Ascii("stomp.destination")
  const HDR_STOMP_ID := Ascii("stomp.message-id")
  const STOMP_DOT := Ascii("stomp.")
  const SEND := Ascii("SEND")
  const MESSAGE := Ascii("MESSAGE")

  datatype Config = Config(id: Text, prefix: Text, suppressEcho: bool, unwrap: bool)

  datatype InboundError = NoDestination | OutsidePrefix | BadWrapper(error: AgraError)

  // ---- Destinations --------------------------------------------------------------------

  /** `DestinationMap::new` */
  function Prefix(p: Text): Text {
    if p != [] && p[|p| - 1] == SLASH then p else p + [SLASH]
  }

  /** One slash at the end, whether it was there or not. */
  lemma PrefixExactly(p: Text)
    ensures Prefix(p) != [] && Prefix(p)[|Prefix(p)| - 1] == SLASH
    ensures Prefix(p) == p <==> p != [] && p[|p| - 1] == SLASH
    ensures Prefix(p) == p || Prefix(p) == p + [SLASH]
    ensures Prefix(Prefix(p)) == Prefix(p)
  {
  }

  function TrimSlashes(t: Text): Text {
    if t != [] && t[0] == SLASH then TrimSlashes(t[1..]) else t
  }

  function ToStomp(prefix: Text, topic: Text): Text {
    prefix + TrimSlashes(topic)
  }

  function FromStomp(prefix: Text, dest: Text): Option<Text> {
    if prefix <= dest && |dest| > |prefix| then Some(dest[|prefix|..]) else None
  }

  lemma {:induction false} TrimSlashesFixed(t: Text)
    ensures TrimSlashes(t) == t <==> t == [] || t[0] != SLASH
    ensures |TrimSlashes(t)| <= |t|
  {
    if t != [] && t[0] == SLASH { TrimSlashesFixed(t[1..]); }
  }

  /** A destination leads back to its topic exactly when the topic is not empty and has no
      leading slash. */
  lemma FromOfToStomp(prefix: Text, topic: Text)
    ensures FromStomp(prefix, ToStomp(prefix, topic)) == if TrimSlashes(topic) == [] then None else Some(TrimSlashes(topic))
    ensures FromStomp(prefix, ToStomp(prefix, topic)) == Some(topic) <==> topic != [] && topic[0] != SLASH
  {
    TrimSlashesFixed(topic);
    var d := ToStomp(prefix, topic);
    assert d[|prefix|..] == TrimSlashes(topic);
  }

  /** The other way round: a destination is the one its topic is sent to exactly when no slash
      follows the prefix. */
  lemma ToOfFromStomp(prefix: Text, dest: Text)
    requires FromStomp(prefix, dest).Some?
    ensures ToStomp(prefix, FromStomp(prefix, dest).value) == dest <==> dest[|prefix|] != SLASH
  {
    var topic := FromStomp(prefix, dest).value;
    assert dest == prefix + topic && topic[0] == dest[|prefix|];
    TrimSlashesFixed(topic);
    if ToStomp(prefix, topic) == dest {
      assert (prefix + TrimSlashes(topic))[|prefix|..] == TrimSlashes(topic) && (prefix + topic)[|prefix|..] == topic;
    }
  }

  // ---- Out -----------------------------------------------------------------------------

  /** Headers that stay off the wire. */
  predicate Private(name: Text) {
    name == HDR_ORIGIN || name == HDR_STOMP_DEST || STOMP_DOT <= name
  }

  /** The entries of a header map, in some order. */
  ghost predicate Lists(entries: seq<Header>, headers: map<Text, Text>) {
    && (forall i :: 0 <= i < |entries| ==> entries[i].0 in headers && entries[i].1 == headers[entries[i].0])
    && (forall k :: k in headers ==> (k, headers[k]) in entries)
    && forall i, j :: 0 <= i < j < |entries| ==> entries[i].0 != entries[j].0
  }

  function Carried(entries: seq<Header>): seq<Header> {
    if entries == [] then [] else (if Private(entries[0].0) then [] else [entries[0]]) + Carried(entries[1..])
  }

  /** The headers the gateway itself puts on a SEND. */
  function OwnHeaders(cfg: Config, e: Envelope): seq<Header> {
    [(DESTINATION, ToStomp(Prefix(cfg.prefix), e.route.topic))]
    + ([(CONTENT_TYPE, e.contentType)]
    + ([(HDR_ORIGIN, cfg.id)]
    + ([(HDR_TOPIC, e.route.topic)]
    + ([(HDR_ID, e.id)]
    + (if e.route.hint.Some? then [(HDR_TYPE_HINT, e.route.hint.value)] else [])))))
  }

  function SendFor(cfg: Config, e: Envelope, entries: seq<Header>): Frame {
    Frame(SEND, OwnHeaders(cfg, e) + Carried(entries), e.payload)
  }

  predicate IsEchoOf(e: Envelope, id: Text) {
    HDR_ORIGIN in e.headers && e.headers[HDR_ORIGIN] == id
  }

  /** `forward_outbound`, up to the socket; `entries` is the envelope's header map as it is
      iterated. */
  method ForwardOutbound(cfg: Config, e: Envelope, entries: seq<Header>) returns (r: Option<Frame>)
    requires Lists(entries, e.headers)
    ensures r == if cfg.suppressEcho && IsEchoOf(e, cfg.id) then None else Some(SendFor(cfg, e, entries))
  {
    if cfg.suppressEcho && IsEchoOf(e, cfg.id) { return None; }
    var dest := ToStomp(Prefix(cfg.prefix), e.route.topic);
    var headers: seq<Header> := [(CONTENT_TYPE, e.contentType), (HDR_ORIGIN, cfg.id), (HDR_TOPIC, e.route.topic), (HDR_ID, e.id)];
    if e.route.hint.Some? { headers := headers + [(HDR_TYPE_HINT, e.route.hint.value)]; }
    assert OwnHeaders(cfg, e) == [(DESTINATION, dest)] + headers;
    var rest := CopyHeaders(headers, entries);
    assert [(DESTINATION, dest)] + (headers + Carried(entries)) == [(DESTINATION, dest)] + headers + Carried(entries);
    return Some(Frame(SEND, [(DESTINATION, dest)] + rest, e.payload));
  }

  /** The loop over the envelope's own headers. */
  method CopyHeaders(own: seq<Header>, entries: seq<Header>) returns (headers: seq<Header>)
    ensures headers == own + Carried(entries)
  {
    headers := own;
    assert entries[0..] == entries;
    for i := 0 to |entries|
      invariant own + Carried(entries) == headers + Carried(entries[i..])
    {
      assert entries[i..][0] == entries[i] && entries[i..][1..] == entries[i + 1..];
      if Private(entries[i].0) {
        assert [] + Carried(entries[i + 1..]) == Carried(entries[i + 1..]);
        continue;
      }
      assert headers + ([entries[i]] + Carried(entries[i + 1..])) == headers + [entries[i]] + Carried(entries[i + 1..]);
      headers := headers + [entries[i]];
    }
    assert headers + [] == headers;
  }

  // ---- In ------------------------------------------------------------------------------

  /** `sniff_type_hint` */
  function SniffTypeHint(l: Libraries, payload: seq<byte>): Option<Text> {
    if !Valid(payload) then None
    else
      var t := l.trimStart(payload);
      if Opens(t, BRACE) then (if l.parse(t).Some? then OnlyKey(l.parse(t).value) else None)
      else if Opens(t, ANGLE) then l.xmlRoot(t)
      else None
  }

  /** What precedes the first `;`. */
  function BeforeSemicolon(t: Text): Text {
    if t == [] || t[0] == SEMICOLON then [] else [t[0]] + BeforeSemicolon(t[1..])
  }

  function Mime(l: Libraries, header: Text): Text {
    l.trim(BeforeSemicolon(header))
  }

  /** `sniff_content_type` of the STOMP adapter. */
  function ContentTypeOf(l: Libraries, payload: seq<byte>, header: Option<Text>): Text {
    if header.Some? && Mime(l, header.value) != [] then Mime(l, header.value) else SniffContentType(l, payload)
  }

  /** `inbound_route` */
  function InboundRoute(topic: Text, hint: Option<Text>): Route {
    if hint.Some? && hint.value != [] then Route(topic, hint) else Route(topic, None)
  }

  function Stamp(cfg: Config, f: Frame, dest: Text, e: Envelope): Envelope {
    var h := e.headers[HDR_ORIGIN := cfg.id][HDR_STOMP_DEST := dest];
    var mid := HeaderOf(f.headers, MESSAGE_ID);
    e.(headers := if mid.Some? then h[HDR_STOMP_ID := mid.value] else h)
  }

  /** `inbound_publish`: the envelopes a MESSAGE is published as. */
  function Inbound(l: Libraries, cfg: Config, f: Frame, ids: Ids): Result<seq<Envelope>, InboundError> {
    var dest := HeaderOf(f.headers, DESTINATION);
    if dest.None? then Err(NoDestination)
    else
      var named := HeaderOf(f.headers, HDR_TOPIC);
      var topic := if named.Some? then named else FromStomp(Prefix(cfg.prefix), dest.value);
      if topic.None? then Err(OutsidePrefix)
      else
        var said := HeaderOf(f.headers, HDR_TYPE_HINT);
        var hint := if said.Some? then said else SniffTypeHint(l, f.body);
        if cfg.unwrap && WrapperKind(l, f.body).Some? then
          match Unwrap(l, topic.value, f.body, ids)
          case Ok(u) => Ok([Stamp(cfg, f, dest.value, u.wrapper), Stamp(cfg, f, dest.value, u.inner)])
          case Err(e) => Err(BadWrapper(e))
        else
          var e := Envelope(ids.inner, InboundRoute(topic.value, hint), map[],
                            ContentTypeOf(l, f.body, HeaderOf(f.headers, CONTENT_TYPE)), f.body);
          Ok([Stamp(cfg, f, dest.value, e)])
  }

  // ---- Which headers a frame is read to have -------------------------------------------

  lemma HeaderOfCons(h: Header, rest: seq<Header>, name: Text)
    ensures HeaderOf([h] + rest, name) == if h.0 == name then Some(h.1) else HeaderOf(rest, name)
  {
    assert ([h] + rest)[1..] == rest;
  }

  lemma {:induction false} HeaderOfAppend(a: seq<Header>, b: seq<Header>, name: Text)
    ensures HeaderOf(a + b, name) == if HeaderOf(a, name).Some? then HeaderOf(a, name) else HeaderOf(b, name)
  {
    if a == [] {
      assert a + b == b;
    } else {
      assert (a + b)[1..] == a[1..] + b;
      HeaderOfAppend(a[1..], b, name);
    }
  }

  lemma NamesDiffer()
    ensures |DESTINATION| == 11 && |CONTENT_TYPE| == 12 && |HDR_ORIGIN| == 18 && |HDR_TOPIC| == 9 && |HDR_ID| == 6 && |HDR_TYPE_HINT| == 13
    ensures |LENGTH_NAME| == 14
  {
  }

  lemma OwnHeadersAreRead(cfg: Config, e: Envelope, name: Text)
    requires name in {DESTINATION, CONTENT_TYPE, HDR_TOPIC, HDR_TYPE_HINT}
    ensures HeaderOf(OwnHeaders(cfg, e), name) ==
            if name == DESTINATION then Some(ToStomp(Prefix(cfg.prefix), e.route.topic))
            else if name == CONTENT_TYPE then Some(e.contentType)
            else if name == HDR_TOPIC then Some(e.route.topic)
            else e.route.hint
  {
    NamesDiffer();
    var r6: seq<Header> := if e.route.hint.Some? then [(HDR_TYPE_HINT, e.route.hint.value)] else [];
    var r5 := [(HDR_ID, e.id)] + r6;
    var r4 := [(HDR_TOPIC, e.route.topic)] + r5;
    var r3 := [(HDR_ORIGIN, cfg.id)] + r4;
    var r2 := [(CONTENT_TYPE, e.contentType)] + r3;
    if e.route.hint.Some? {
      assert r6 == [(HDR_TYPE_HINT, e.route.hint.value)] + [];
      HeaderOfCons((HDR_TYPE_HINT, e.route.hint.value), [], name);
    }
    HeaderOfCons((HDR_ID, e.id), r6, name);
    HeaderOfCons((HDR_TOPIC, e.route.topic), r5, name);
    HeaderOfCons((HDR_ORIGIN, cfg.id), r4, name);
    HeaderOfCons((CONTENT_TYPE, e.contentType), r3, name);
    HeaderOfCons((DESTINATION, ToStomp(Prefix(cfg.prefix), e.route.topic)), r2, name);
  }

  /** A SEND carries the sending gateway's id as its origin, whatever origin the envelope had, and
      the envelope's id. */
  lemma OriginIsOwn(cfg: Config, e: Envelope, entries: seq<Header>)
    ensures HeaderOf(SendFor(cfg, e, entries).headers, HDR_ORIGIN) == Some(cfg.id)
    ensures HeaderOf(SendFor(cfg, e, entries).headers, HDR_ID) == Some(e.id)
  {
    NamesDiffer();
    var hint: seq<Header> := if e.route.hint.Some? then [(HDR_TYPE_HINT, e.route.hint.value)] else [];
    forall name | name == HDR_ORIGIN || name == HDR_ID
      ensures HeaderOf(OwnHeaders(cfg, e), name) == if name == HDR_ORIGIN then Some(cfg.id) else Some(e.id)
    {
      var r4 := [(HDR_ID, e.id)] + hint;
      var r3 := [(HDR_TOPIC, e.route.topic)] + r4;
      var r2 := [(HDR_ORIGIN, cfg.id)] + r3;
      var r1 := [(CONTENT_TYPE, e.contentType)] + r2;
      HeaderOfCons((HDR_ID, e.id), hint, name);
      HeaderOfCons((HDR_TOPIC, e.route.topic), r4, name);
      HeaderOfCons((HDR_ORIGIN, cfg.id), r3, name);
      HeaderOfCons((CONTENT_TYPE, e.contentType), r2, name);
      HeaderOfCons((DESTINATION, ToStomp(Prefix(cfg.prefix), e.route.topic)), r1, name);
    }
    HeaderOfAppend(OwnHeaders(cfg, e), Carried(entries), HDR_ORIGIN);
    HeaderOfAppend(OwnHeaders(cfg, e), Carried(entries), HDR_ID);
  }

  /** What is copied of the envelope's own headers: all but the origin and what begins with
      `stomp.`. */
  lemma {:induction false} CarriedExactly(entries: seq<Header>, h: Header)
    ensures h in Carried(entries) <==> h in entries && h.0 != HDR_ORIGIN && !(Ascii("stomp.") <= h.0)
  {
    DestinationIsStomp();
    if entries != [] { CarriedExactly(entries[1..], h); }
  }

  lemma DestinationIsStomp()
    ensures Ascii("stomp.") <= HDR_STOMP_DEST
  {
    var a, b := Ascii("stomp."), HDR_STOMP_DEST;
    assert forall i :: 0 <= i < |a| ==> a[i] == b[i];
  }

  lemma ReceivedHeaders(f: Frame, name: Text)
    requires name != LENGTH_NAME
    ensures HeaderOf(AsReceived(f).headers, name) == HeaderOf(f.headers, name)
  {
    if !NamesLength(f.headers) {
      var length: seq<Header> := Sent(f)[|f.headers|..];
      assert Sent(f) == f.headers + length && length == [Sent(f)[|f.headers|]];
      HeaderOfAppend(f.headers, length, name);
      assert length[1..] == [];
    }
  }

  // ---- The relay -----------------------------------------------------------------------

  const READ_NAMES := {DESTINATION, CONTENT_TYPE, HDR_TOPIC, HDR_TYPE_HINT}

  /** A broker that turns a SEND into a MESSAGE with the same body, and the same first value
      for the headers a gateway reads; it may add others. */
  predicate Relays(sent: Frame, got: Frame) {
    && got.command == MESSAGE
    && got.body == sent.body
    && forall name :: name in READ_NAMES ==> HeaderOf(got.headers, name) == HeaderOf(sent.headers, name)
  }

  /** The hint the receiving gateway works with: the one sent, else a header of that name
      the envelope happens to carry, else what the body suggests. */
  function HintSeen(l: Libraries, e: Envelope, entries: seq<Header>): Option<Text>
  {
    if e.route.hint.Some? then e.route.hint
    else
      var carried := HeaderOf(Carried(entries), HDR_TYPE_HINT);
      if carried.Some? then carried else SniffTypeHint(l, e.payload)
  }

  lemma SentHeaders(cfg: Config, e: Envelope, entries: seq<Header>, name: Text)
    requires name in READ_NAMES
    ensures HeaderOf(SendFor(cfg, e, entries).headers, name) ==
            if name == DESTINATION then Some(ToStomp(Prefix(cfg.prefix), e.route.topic))
            else if name == CONTENT_TYPE then Some(e.contentType)
            else if name == HDR_TOPIC then Some(e.route.topic)
            else if e.route.hint.Some? then e.route.hint
            else HeaderOf(Carried(entries), HDR_TYPE_HINT)
  {
    NamesDiffer();
    OwnHeadersAreRead(cfg, e, name);
    HeaderOfAppend(OwnHeaders(cfg, e), Carried(entries), name);
  }

  /** What one relayed envelope is published as. */
  lemma InboundOfRelayed(l: Libraries, from: Config, to: Config, e: Envelope, entries: seq<Header>, got: Frame, ids: Ids)
    requires Relays(AsReceived(SendFor(from, e, entries)), got)
    requires to.unwrap ==> WrapperKind(l, e.payload).None?
    ensures var r := Inbound(l, to, AsReceived(got), ids);
            && r.Ok? && |r.value| == 1
            && r.value[0].route == InboundRoute(e.route.topic, HintSeen(l, e, entries))
            && r.value[0].payload == e.payload
            && r.value[0].contentType == ContentTypeOf(l, e.payload, Some(e.contentType))
            && IsEchoOf(r.value[0], to.id)
  {
    NamesDiffer();
    var f := SendFor(from, e, entries);
    forall name | name in READ_NAMES ensures HeaderOf(AsReceived(got).headers, name) == HeaderOf(f.headers, name) {
      ReceivedHeaders(f, name);
      ReceivedHeaders(got, name);
    }
    assert DESTINATION in READ_NAMES && CONTENT_TYPE in READ_NAMES && HDR_TOPIC in READ_NAMES && HDR_TYPE_HINT in READ_NAMES;
    SentHeaders(from, e, entries, DESTINATION);
    SentHeaders(from, e, entries, CONTENT_TYPE);
    SentHeaders(from, e, entries, HDR_TOPIC);
    SentHeaders(from, e, entries, HDR_TYPE_HINT);
    StampIsEcho(to, AsReceived(got), ToStomp(Prefix(from.prefix), e.route.topic),
                Envelope(ids.inner, InboundRoute(e.route.topic, HintSeen(l, e, entries)), map[],
                         ContentTypeOf(l, e.payload, Some(e.contentType)), e.payload));
  }

  lemma StampIsEcho(cfg: Config, f: Frame, dest: Text, e: Envelope)
    ensures IsEchoOf(Stamp(cfg, f, dest, e), cfg.id)
  {
    assert |HDR_ORIGIN| == 18 && |HDR_STOMP_DEST| == 17 && |HDR_STOMP_ID| == 16;
  }

  // ---- Any MESSAGE ---------------------------------------------------------------------

  /** The topic a MESSAGE is for: the one it names, or what its destination has behind the
      prefix. */
  predicate IsFor(cfg: Config, f: Frame, dest: Text, topic: Text) {
    && HeaderOf(f.headers, DESTINATION) == Some(dest)
    && match HeaderOf(f.headers, HDR_TOPIC)
       case Some(named) => topic == named
       case None => topic != [] && dest == Prefix(cfg.prefix) + topic
  }

  /** What `stamp` leaves in the headers: origin, destination and message id, and all that was
      there under other names. */
  ghost predicate StampedBy(cfg: Config, f: Frame, dest: Text, before: map<Text, Text>, after: map<Text, Text>) {
    && HeaderIn(after, HDR_ORIGIN) == Some(cfg.id)
    && HeaderIn(after, HDR_STOMP_DEST) == Some(dest)
    && HeaderIn(after, HDR_STOMP_ID) ==
       (if HeaderOf(f.headers, MESSAGE_ID).Some? then HeaderOf(f.headers, MESSAGE_ID) else HeaderIn(before, HDR_STOMP_ID))
    && forall name :: name != HDR_ORIGIN && name != HDR_STOMP_DEST && name != HDR_STOMP_ID ==>
         HeaderIn(after, name) == HeaderIn(before, name)
  }

  lemma StampIsSeen(cfg: Config, f: Frame, dest: Text, e: Envelope)
    ensures StampedBy(cfg, f, dest, e.headers, Stamp(cfg, f, dest, e).headers)
    ensures Stamp(cfg, f, dest, e).(headers := e.headers) == e
  {
    assert |HDR_ORIGIN| == 18 && |HDR_STOMP_DEST| == 17 && |HDR_STOMP_ID| == 16;
  }

  /** A MESSAGE is refused for its destination exactly when it has none, or names no topic and
      its destination has nothing behind the prefix. */
  lemma RefusedExactly(l: Libraries, cfg: Config, f: Frame, ids: Ids)
    ensures Inbound(l, cfg, f, ids) == Err(NoDestination) <==> HeaderOf(f.headers, DESTINATION).None?
    ensures Inbound(l, cfg, f, ids) in {Err(NoDestination), Err(OutsidePrefix)} <==>
            forall dest, topic :: !IsFor(cfg, f, dest, topic)
  {
    var found := HeaderOf(f.headers, DESTINATION);
    if found.Some? {
      var dest, prefix := found.value, Prefix(cfg.prefix);
      if HeaderOf(f.headers, HDR_TOPIC).Some? {
        assert IsFor(cfg, f, dest, HeaderOf(f.headers, HDR_TOPIC).value);
      } else if FromStomp(prefix, dest).Some? {
        assert dest == prefix + dest[|prefix|..];
        assert IsFor(cfg, f, dest, dest[|prefix|..]);
      } else {
        forall other, topic ensures !IsFor(cfg, f, other, topic) {
          if other == dest && topic != [] { FromOfPrefixed(prefix, topic); }
        }
      }
    }
  }

  lemma FromOfPrefixed(prefix: Text, topic: Text)
    requires topic != []
    ensures FromStomp(prefix, prefix + topic) == Some(topic)
  {
    assert (prefix + topic)[|prefix|..] == topic;
  }

  /** A MESSAGE that is no wrapper, or is not to be looked into: one envelope on its topic, with
      the hint it gives or its body suggests. */
  lemma InboundOfPlain(l: Libraries, cfg: Config, f: Frame, dest: Text, topic: Text, ids: Ids)
    requires IsFor(cfg, f, dest, topic) && (cfg.unwrap ==> WrapperKind(l, f.body).None?)
    ensures var r := Inbound(l, cfg, f, ids);
            && r.Ok? && |r.value| == 1
            && r.value[0].route.topic == topic && r.value[0].payload == f.body && r.value[0].id == ids.inner
            && StampedBy(cfg, f, dest, map[], r.value[0].headers)
            && r.value[0].contentType == ContentTypeOf(l, f.body, HeaderOf(f.headers, CONTENT_TYPE))
            && var said := HeaderOf(f.headers, HDR_TYPE_HINT);
               r.value[0].route == InboundRoute(topic, if said.Some? then said else SniffTypeHint(l, f.body))
  {
    if HeaderOf(f.headers, HDR_TOPIC).None? { FromOfPrefixed(Prefix(cfg.prefix), topic); }
    var said := HeaderOf(f.headers, HDR_TYPE_HINT);
    StampIsSeen(cfg, f, dest,
                Envelope(ids.inner, InboundRoute(topic, if said.Some? then said else SniffTypeHint(l, f.body)), map[],
                         ContentTypeOf(l, f.body, HeaderOf(f.headers, CONTENT_TYPE)), f.body));
  }

  /** What a body suggests: the one member of an object, the root of an XML document, or
      nothing. */
  lemma SuggestedHint(l: Libraries, v: Value, name: Text, xml: Text, other: seq<byte>)
    requires AgraWrapper.Faithful(l) && v.Object? && Textual(v) && NestsWithin(v, PARSER_DEPTH) && v.members.Keys == {name}
    requires Valid(xml) && l.trimStart(xml) == xml && Opens(xml, ANGLE)
    requires Valid(other) ==> !Opens(l.trimStart(other), BRACE) && !Opens(l.trimStart(other), ANGLE)
    ensures SniffTypeHint(l, l.write(v)) == Some(name)
    ensures SniffTypeHint(l, xml) == l.xmlRoot(xml)
    ensures SniffTypeHint(l, other) == None
  {
    PrintedIsRead(l, v);
  }

  /** A MESSAGE that carries a wrapper, with unwrapping on, is published twice on its topic: the
      wrapper as it came, then what it wraps, under headers that say what the wrapper said. */
  lemma InboundOfWrapper(l: Libraries, cfg: Config, f: Frame, dest: Text, topic: Text, meta: Meta, encoded: seq<byte>, ids: Ids)
    requires AgraWrapper.Faithful(l) && ValidMeta(meta) && |encoded| <= Hex.MAX_DECODED_PAYLOAD
    requires cfg.unwrap && IsFor(cfg, f, dest, topic)
    requires f.body == UnwrappedFromParts(l, topic, meta, encoded, ids).value.wrapper.payload
    ensures var r := Inbound(l, cfg, f, ids);
            && r.Ok? && |r.value| == 2
            && var wrapper, inner := r.value[0], r.value[1];
            && wrapper.route == Route(topic, Some(ElementName(meta.kind)))
            && wrapper.payload == f.body && wrapper.contentType == JSON_TYPE && wrapper.id == ids.wrapper
            && StampedBy(cfg, f, dest, map[], wrapper.headers)
            && inner.route.topic == topic && inner.payload == encoded && inner.id == ids.inner
            && SaysOf(inner.headers, meta, inner.contentType)
            && IsEchoOf(wrapper, cfg.id) && IsEchoOf(inner, cfg.id)
            && HeaderIn(inner.headers, HDR_STOMP_DEST) == Some(dest)
  {
    if HeaderOf(f.headers, HDR_TOPIC).None? { FromOfPrefixed(Prefix(cfg.prefix), topic); }
    var built := UnwrappedFromParts(l, topic, meta, encoded, ids).value;
    UnwrapOfParts(l, topic, meta, encoded, ids);
    InnerHeaders(l, topic, meta, encoded, ids);
    StampIsSeen(cfg, f, dest, built.wrapper);
    StampIsSeen(cfg, f, dest, built.inner);
    SaysOfStamped(cfg, f, dest, built.inner.headers, Stamp(cfg, f, dest, built.inner).headers, meta, built.inner.contentType);
  }

  /** Stamping leaves the `agra.` headers alone. */
  lemma SaysOfStamped(cfg: Config, f: Frame, dest: Text, before: map<Text, Text>, after: map<Text, Text>, meta: Meta, contentType: Text)
    requires StampedBy(cfg, f, dest, before, after) && SaysOf(before, meta, contentType)
    ensures SaysOf(after, meta, contentType)
  {
    assert HDR_ORIGIN[0] == 111 && HDR_STOMP_DEST[0] == 115 && HDR_STOMP_ID[0] == 115;
    HeaderNamesBegin();
  }

  lemma {:induction false} NoSemicolon(t: Text)
    ensures |BeforeSemicolon(t)| <= |t|
    ensures BeforeSemicolon(t) == t <==> SEMICOLON !in t
    ensures |BeforeSemicolon(t)| == |t| <==> SEMICOLON !in t
  {
    if t != [] && t[0] != SEMICOLON { NoSemicolon(t[1..]); }
  }

  /** A content type is cut at its first `;`. */
  lemma {:induction false} CutAtSemicolon(a: Text, b: Text)
    requires SEMICOLON !in a
    ensures BeforeSemicolon(a + [SEMICOLON] + b) == a
  {
    var t := a + [SEMICOLON] + b;
    if a != [] {
      assert t[0] == a[0] && t[1..] == a[1..] + [SEMICOLON] + b;
      CutAtSemicolon(a[1..], b);
    }
  }

  /** A literal with nothing in it to strip or cut. */
  predicate Bare(s: string) {
    s != [] && forall i :: 0 <= i < |s| ==> '!' <= s[i] <= '~' && s[i] != ';'
  }

  lemma BareIsKept(l: Libraries, s: string)
    requires Trims(l) && Bare(s)
    ensures Ascii(s) != [] && SEMICOLON !in Ascii(s) && l.trim(Ascii(s)) == Ascii(s)
  {
    var t := Ascii(s);
    assert VisibleByte(t[0]) && VisibleByte(t[|t| - 1]);
  }

  lemma TypesAreBare()
    ensures Bare("application/json") && Bare("application/xml") && Bare("application/octet-stream")
  {
  }

  lemma KnownTypes(l: Libraries, payload: seq<byte>)
    requires Trims(l)
    ensures var t := SniffContentType(l, payload);
            t != [] && SEMICOLON !in t && l.trim(t) == t
  {
    TypesAreBare();
    BareIsKept(l, "application/json");
    BareIsKept(l, "application/xml");
    BareIsKept(l, "application/octet-stream");
    var t := SniffContentType(l, payload);
    if t == JSON_TYPE {} else if t == XML_TYPE {} else { assert t == OCTETS_TYPE; }
  }

  /** A content type arrives unchanged exactly when it is not empty, has no parameters and no
      space around it; a hint, when it is not empty, or when there is none to be found. */
  lemma UnchangedExactly(l: Libraries, e: Envelope, entries: seq<Header>)
    requires Trims(l)
    ensures ContentTypeOf(l, e.payload, Some(e.contentType)) == e.contentType <==>
            e.contentType != [] && SEMICOLON !in e.contentType && l.trim(e.contentType) == e.contentType
    ensures InboundRoute(e.route.topic, HintSeen(l, e, entries)) == e.route <==>
            if e.route.hint.Some? then e.route.hint.value != []
            else HintSeen(l, e, entries).Some? ==> HintSeen(l, e, entries).value == []
  {
    TypeUnchanged(l, e.payload, e.contentType);
    assert e.route == Route(e.route.topic, e.route.hint);
  }

  lemma TypeUnchanged(l: Libraries, payload: seq<byte>, contentType: Text)
    requires Trims(l)
    ensures ContentTypeOf(l, payload, Some(contentType)) == contentType <==>
            contentType != [] && SEMICOLON !in contentType && l.trim(contentType) == contentType
  {
    NoSemicolon(contentType);
    KnownTypes(l, payload);
    assert |Mime(l, contentType)| <= |BeforeSemicolon(contentType)|;
  }

  predicate Traveller(l: Libraries, to: Config, e: Envelope) {
    && e.route.hint.Some? && e.route.hint.value != []
    && e.contentType != [] && SEMICOLON !in e.contentType && l.trim(e.contentType) == e.contentType
    && (to.unwrap ==> WrapperKind(l, e.payload).None?)
  }

  /** One leg: the broker reads an envelope the gateway sent exactly when a `content-length`
      among the envelope's own headers, if there is one, is true. */
  lemma SentIsRead(cfg: Config, e: Envelope, entries: seq<Header>, max: nat, rest: seq<byte>)
    requires Lists(entries, e.headers) && WireSafe(SendFor(cfg, e, entries), max)
    ensures var f := SendFor(cfg, e, entries);
            && (HonestLength(f) <==> Decode(Encode(f) + rest, max) == StompCodec.Decoded(Ok(Some(AsReceived(f))), rest))
            && (LENGTH_NAME !in e.headers ==> HonestLength(f))
  {
    if LENGTH_NAME !in e.headers { NoOwnLength(cfg, e, entries); }
    DecodeOfEncode(SendFor(cfg, e, entries), max, rest);
  }

  lemma {:induction false} CarriedNames(entries: seq<Header>, name: Text)
    requires forall i :: 0 <= i < |entries| ==> entries[i].0 != name
    ensures forall i :: 0 <= i < |Carried(entries)| ==> Carried(entries)[i].0 != name
  {
    if entries != [] {
      assert forall i :: 0 <= i < |entries[1..]| ==> entries[1..][i] == entries[i + 1];
      CarriedNames(entries[1..], name);
    }
  }

  lemma NoOwnLength(cfg: Config, e: Envelope, entries: seq<Header>)
    requires Lists(entries, e.headers) && LENGTH_NAME !in e.headers
    ensures !NamesLength(SendFor(cfg, e, entries).headers)
  {
    NamesDiffer();
    CarriedNames(entries, LENGTH_NAME);
    var own, c := OwnHeaders(cfg, e), Carried(entries);
    var all := own + c;
    assert forall i :: 0 <= i < |own| ==> |own[i].0| != 14;
    forall i | 0 <= i < |all| ensures all[i].0 != LENGTH_NAME {
      if i >= |own| { assert all[i] == c[i - |own|]; }
    }
  }

  /** Envelopes sent by one gateway, relayed as MESSAGEs, with heartbeats between them and
      cut into reads anywhere: the other gateway publishes each, in order, with the same
      topic, hint, content type and payload. */
  lemma RelayedEnvelopesArrive(
      l: Libraries, from: Config, to: Config, es: seq<Envelope>, listings: seq<seq<Header>>, gots: seq<Frame>,
      incoming: seq<seq<byte>>, gaps: seq<seq<byte>>, max: nat, ids: Ids)
    requires Trims(l) && |es| == |listings| == |gots|
    requires forall i :: 0 <= i < |es| ==> Lists(listings[i], es[i].headers)
    requires forall i :: 0 <= i < |es| ==> Traveller(l, to, es[i])
    requires forall i :: 0 <= i < |es| ==> Relays(AsReceived(SendFor(from, es[i], listings[i])), gots[i])
    requires Sendable(gaps, gots, max) && Reads(incoming) && Concat(incoming) == Wire(gaps, gots)
    ensures var (frames, ending) := ReceiveAll([], incoming, max);
            && ending == Closed && |frames| == |es|
            && forall i :: 0 <= i < |es| ==> ArrivesAs(l, to, frames[i], es[i], ids)
  {
    StreamRoundTrip(incoming, gaps, gots, max);
    var frames := ReceivedFrames(gots);
    forall i | 0 <= i < |es| ensures ArrivesAs(l, to, frames[i], es[i], ids) {
      assert Traveller(l, to, es[i]);
      InboundOfRelayed(l, from, to, es[i], listings[i], gots[i], ids);
      UnchangedExactly(l, es[i], listings[i]);
    }
  }

  predicate ArrivesAs(l: Libraries, to: Config, f: Frame, e: Envelope, ids: Ids) {
    var r := Inbound(l, to, f, ids);
    && r.Ok? && |r.value| == 1
    && r.value[0].route == e.route && r.value[0].contentType == e.contentType && r.value[0].payload == e.payload
    && IsEchoOf(r.value[0], to.id)
  }
}
