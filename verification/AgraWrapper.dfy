/** A-GRA Rx/Tx wrappers: a wrapper document built from its parts, and peeled again
    (crates/oa-gateway-agra/src/lib.rs); DDS samples made from envelopes
    (crates/oa-gateway-dds/src/adapter.rs). JSON and XML text are read and written by
    libraries, which come in as functions. */
module AgraWrapper {
  import opened Wrappers
  import opened Utf8
  import opened Routing
  import opened Hex

  /** The bytes of an ASCII literal. */
  function Ascii(s: string): (t: Text)
    ensures |t| == |s|
  {
    seq(|s|, i requires 0 <= i < |s| => s[i] as int % 128)
  }

  const BRACE: byte := 123
  const ANGLE: byte := 60

  const RX_ELEMENT := Ascii("MA_RxDataPayload")
  const TX_ELEMENT := Ascii("MA_TxDataPayloadCommand")

  const JSON_TYPE := Ascii("application/json")
  const XML_TYPE := Ascii("application/xml")
  const OCTETS_TYPE := Ascii("application/octet-stream")

  const HDR_WRAPPER := Ascii("agra.wrapper")
  const HDR_MESSAGE_TYPE := Ascii("agra.message_type")
  const HDR_ORIGINATOR := Ascii("agra.originator_uuid")
  const HDR_RX_ID := Ascii("agra.rx_payload_id")
  const HDR_COMMAND_ID := Ascii("agra.command_id")
  const HDR_DEST_ROUTING := Ascii("agra.destination_routing")
  const HDR_INNER_CT := Ascii("agra.inner_content_type")

  const MESSAGE_DATA := Ascii("MessageData")
  const MESSAGE_TYPE := Ascii("MessageType")
  const ENCODED := Ascii("EncodedPayload")
  const ORIGINATOR := Ascii("DataPayloadOriginatorID")
  const RX_ID := Ascii("RxDataPayloadID")
  const COMMAND_ID := Ascii("CommandID")
  const ROUTING := Ascii("DestinationRouting")
  const UUID := Ascii("UUID")

  /** A parsed JSON value; what is neither an object nor a string is all the same here. */
  datatype Value = Str(s: Text) | Object(members: map<Text, Value>) | Other

  datatype Kind = Rx | Tx

  datatype Meta = Meta(
    kind: Kind,
    messageType: Text,
    originator: Option<Text>,
    rxPayloadId: Option<Text>,
    commandId: Option<Text>,
    destinationRouting: Option<Text>)

  datatype AgraError = NotAWrapper | BadJson | MissingField(name: Text) | BadPayload(error: HexError)

  datatype Unwrapped = Unwrapped(wrapper: Envelope, inner: Envelope, meta: Meta)

  datatype Sample = Sample(meta: Meta, encoded: seq<byte>)

  /** What `roxmltree` finds in a wrapper written as XML. */
  datatype XmlFields = XmlFields(root: Text, messageType: Option<Text>, encoded: Option<Text>, meta: Meta)

  datatype Libraries = Libraries(
    parse: Text -> Option<Value>,         // serde_json::from_str
    write: Value -> Text,                 // serde_json::to_string
    trim: Text -> Text,
    trimStart: Text -> Text,
    xmlRoot: Text -> Option<Text>,        // xml_root_local_name
    xmlFields: Text -> Option<XmlFields>) // the document, within the depth limit

  /** Text throughout, objects aside. */
  predicate Textual(v: Value) {
    match v
    case Str(s) => Valid(s)
    case Object(ms) => forall k :: k in ms ==> Valid(k) && Textual(ms[k])
    case Other => false
  }

  /** Levels of objects `serde_json` reads before it refuses: its limit of 128 is hit by the
      128th. */
  const PARSER_DEPTH: nat := 127

  predicate NestsWithin(v: Value, levels: nat) {
    v.Object? ==> levels > 0 && forall k :: k in v.members ==> NestsWithin(v.members[k], levels - 1)
  }

  /** What is asked of the libraries: printed objects of strings, nested no deeper than the
      parser reads, are UTF-8, begin with a brace, carry no surrounding space, and parse as the
      object they were. */
  ghost predicate Faithful(l: Libraries) {
    forall v: Value :: v.Object? && Textual(v) && NestsWithin(v, PARSER_DEPTH) ==>
      var t := l.write(v);
      l.parse(t) == Some(v) && Valid(t) && t != [] && t[0] == BRACE && l.trim(t) == t && l.trimStart(t) == t
  }

  /** A byte of printable ASCII. */
  predicate VisibleByte(b: byte) {
    0x21 <= b <= 0x7E
  }

  /** What is asked of `str::trim`: it adds nothing, and stops at what is not space. */
  ghost predicate Trims(l: Libraries) {
    forall t: Text ::
      && |l.trim(t)| <= |t|
      && (t != [] && VisibleByte(t[0]) && VisibleByte(t[|t| - 1]) ==> l.trim(t) == t)
  }

  function ElementName(k: Kind): Text {
    match k
    case Rx => RX_ELEMENT
    case Tx => TX_ELEMENT
  }

  function FromElement(name: Text): Option<Kind> {
    if name == RX_ELEMENT then Some(Rx) else if name == TX_ELEMENT then Some(Tx) else None
  }

  lemma ElementNameIsRead(k: Kind)
    ensures FromElement(ElementName(k)) == Some(k)
  {
    assert |RX_ELEMENT| != |TX_ELEMENT|;
  }

  // ---- Looking at payloads -------------------------------------------------------------

  /** The name of the one member of an object. */
  function OnlyKey(v: Value): (r: Option<Text>)
    ensures r.Some? ==> v.Object? && v.members.Keys == {r.value}
    ensures r.None? ==> !v.Object? || forall k :: v.members.Keys != {k}
  {
    if v.Object? && |v.members.Keys| == 1 then
      Singleton(v.members.Keys);
      var k :| k in v.members.Keys && v.members.Keys == {k};
      Some(k)
    else
      NotSingleton(if v.Object? then v.members.Keys else {});
      None
  }

  lemma Singleton(ks: set<Text>)
    requires |ks| == 1
    ensures exists k :: k in ks && ks == {k}
    ensures forall k, j :: k in ks && j in ks ==> k == j
  {
    var k :| k in ks;
    assert |ks - {k}| == 0;
    assert ks == {k};
  }

  lemma NotSingleton(ks: set<Text>)
    requires |ks| != 1
    ensures forall k :: ks != {k}
  {
    forall k ensures ks != {k} { assert |{k}| == 1; }
  }

  predicate Opens(t: Text, b: byte) {
    t != [] && t[0] == b
  }

  /** `wrapper_kind` */
  function WrapperKind(l: Libraries, payload: seq<byte>): Option<Kind> {
    if !Valid(payload) then None
    else
      var t := l.trimStart(payload);
      if Opens(t, BRACE) && l.parse(t).Some? && OnlyKey(l.parse(t).value).Some? then FromElement(OnlyKey(l.parse(t).value).value)
      else if Opens(t, ANGLE) && l.xmlRoot(t).Some? then FromElement(l.xmlRoot(t).value)
      else None
  }

  /** `sniff_content_type` */
  function SniffContentType(l: Libraries, payload: seq<byte>): Text {
    if !Valid(payload) then OCTETS_TYPE
    else if Opens(l.trimStart(payload), BRACE) then JSON_TYPE
    else if Opens(l.trimStart(payload), ANGLE) then XML_TYPE
    else OCTETS_TYPE
  }

  /** `type_hint_from_inner` */
  function HintFromInner(l: Libraries, payload: seq<byte>, messageType: Text): Text {
    if !Valid(payload) then messageType
    else
      var t := l.trim(payload);
      if Opens(t, BRACE) && l.parse(t).Some? && OnlyKey(l.parse(t).value).Some? then OnlyKey(l.parse(t).value).value
      else if Opens(t, ANGLE) && l.xmlRoot(t).Some? then l.xmlRoot(t).value
      else messageType
  }

  // ---- Building ------------------------------------------------------------------------

  function WithHeader(headers: map<Text, Text>, name: Text, value: Option<Text>): map<Text, Text> {
    if value.Some? then headers[name := value.value] else headers
  }

  /** `inner_envelope`; `id` is the fresh message id. */
  function InnerEnvelope(topic: Text, inner: seq<byte>, contentType: Text, hint: Text, meta: Meta, id: Text): Envelope {
    var h := map[HDR_WRAPPER := ElementName(meta.kind)][HDR_MESSAGE_TYPE := meta.messageType][HDR_INNER_CT := contentType];
    var h := WithHeader(h, HDR_ORIGINATOR, meta.originator);
    var h := WithHeader(h, HDR_RX_ID, meta.rxPayloadId);
    var h := WithHeader(h, HDR_COMMAND_ID, meta.commandId);
    var h := WithHeader(h, HDR_DEST_ROUTING, meta.destinationRouting);
    Envelope(id, Route(topic, Some(hint)), h, contentType, inner)
  }

  function WithUuid(data: map<Text, Value>, name: Text, uuid: Option<Text>): map<Text, Value> {
    if uuid.Some? then data[name := Object(map[UUID := Str(uuid.value)])] else data
  }

  function MessageData(meta: Meta, inner: seq<byte>): map<Text, Value> {
    var d := map[MESSAGE_TYPE := Str(meta.messageType)][ENCODED := Str(EncodeUpper(inner))];
    var d := WithUuid(d, ORIGINATOR, meta.originator);
    var d := WithUuid(d, RX_ID, meta.rxPayloadId);
    var d := WithUuid(d, COMMAND_ID, meta.commandId);
    if meta.destinationRouting.Some? then d[ROUTING := Str(meta.destinationRouting.value)] else d
  }

  /** `minimal_wrapper_json`, before printing. */
  function MinimalWrapper(meta: Meta, inner: seq<byte>): Value {
    Object(map[ElementName(meta.kind) := Object(map[MESSAGE_DATA := Object(MessageData(meta, inner))])])
  }

  /** The message ids the two envelopes are given. */
  datatype Ids = Ids(wrapper: Text, inner: Text)

  function Peeled(l: Libraries, topic: Text, text: Text, contentType: Text, meta: Meta, inner: seq<byte>, ids: Ids): Unwrapped {
    Unwrapped(
      Envelope(ids.wrapper, Route(topic, Some(ElementName(meta.kind))), map[], contentType, text),
      InnerEnvelope(topic, inner, SniffContentType(l, inner), HintFromInner(l, inner, meta.messageType), meta, ids.inner),
      meta)
  }

  /** `unwrapped_from_parts` */
  function UnwrappedFromParts(l: Libraries, topic: Text, meta: Meta, encoded: seq<byte>, ids: Ids): Result<Unwrapped, AgraError> {
    if |encoded| > MAX_DECODED_PAYLOAD then Err(BadPayload(PayloadTooLarge))
    else Ok(Peeled(l, topic, l.write(MinimalWrapper(meta, encoded)), JSON_TYPE, meta, encoded, ids))
  }

  // ---- Peeling -------------------------------------------------------------------------

  /** `Value::get`, with a name. */
  function Get(v: Value, name: Text): Option<Value> {
    if v.Object? && name in v.members then Some(v.members[name]) else None
  }

  function GetStr(v: Value, name: Text): Option<Text> {
    var m := Get(v, name);
    if m.Some? && m.value.Str? then Some(m.value.s) else None
  }

  /** The string at `/name/UUID`. */
  function GetUuid(v: Value, name: Text): Option<Text> {
    var m := Get(v, name);
    if m.Some? then GetStr(m.value, UUID) else None
  }

  /** `unwrap_json` */
  function UnwrapJson(l: Libraries, topic: Text, text: Text, ids: Ids): Result<Unwrapped, AgraError> {
    var root := l.parse(text);
    if root.None? || !root.value.Object? then Err(BadJson)
    else
      var name := OnlyKey(root.value);
      if name.None? || FromElement(name.value).None? then Err(NotAWrapper)
      else
        var data := Get(root.value.members[name.value], MESSAGE_DATA);
        if data.None? then Err(MissingField(MESSAGE_DATA))
        else
          var messageType, hex := GetStr(data.value, MESSAGE_TYPE), GetStr(data.value, ENCODED);
          if messageType.None? then Err(MissingField(MESSAGE_TYPE))
          else if hex.None? then Err(MissingField(ENCODED))
          else
            var inner := AgraHex(hex.value);
            if inner.Err? then Err(BadPayload(inner.error))
            else
              var meta := Meta(
                FromElement(name.value).value, messageType.value, GetUuid(data.value, ORIGINATOR), GetUuid(data.value, RX_ID),
                GetUuid(data.value, COMMAND_ID), GetStr(data.value, ROUTING));
              Ok(Peeled(l, topic, text, JSON_TYPE, meta, inner.value, ids))
  }

  /** `unwrap_xml` */
  function UnwrapXml(l: Libraries, topic: Text, text: Text, ids: Ids): Result<Unwrapped, AgraError> {
    var x := l.xmlFields(text);
    if x.None? || FromElement(x.value.root).None? then Err(NotAWrapper)
    else if x.value.messageType.None? then Err(MissingField(MESSAGE_TYPE))
    else if x.value.encoded.None? then Err(MissingField(ENCODED))
    else
      var inner := AgraHex(l.trim(x.value.encoded.value));
      if inner.Err? then Err(BadPayload(inner.error))
      else
        var meta := x.value.meta.(kind := FromElement(x.value.root).value, messageType := x.value.messageType.value);
        Ok(Peeled(l, topic, text, XML_TYPE, meta, inner.value, ids))
  }

  /** `unwrap` */
  function Unwrap(l: Libraries, topic: Text, payload: seq<byte>, ids: Ids): Result<Unwrapped, AgraError> {
    if !Valid(payload) then Err(BadJson)
    else
      var t := l.trim(payload);
      if Opens(t, BRACE) then UnwrapJson(l, topic, t, ids)
      else if Opens(t, ANGLE) then UnwrapXml(l, topic, t, ids)
      else Err(NotAWrapper)
  }

  /** `sample_from_envelope`; `toEnum` is `element_to_enum`. */
  function SampleFromEnvelope(l: Libraries, toEnum: Text -> Text, e: Envelope, ids: Ids): Result<Sample, AgraError> {
    if WrapperKind(l, e.payload).Some? then
      match Unwrap(l, e.route.topic, e.payload, ids)
      case Ok(u) => Ok(Sample(u.meta, u.inner.payload))
      case Err(err) => Err(err)
    else
      var hint := if e.route.hint.Some? then e.route.hint.value else e.route.topic;
      Ok(Sample(Meta(Rx, toEnum(hint), None, None, None, None), e.payload))
  }

  // ---- What is built is peeled as it was -----------------------------------------------

  predicate ValidMeta(m: Meta) {
    && Valid(m.messageType)
    && (m.originator.Some? ==> Valid(m.originator.value))
    && (m.rxPayloadId.Some? ==> Valid(m.rxPayloadId.value))
    && (m.commandId.Some? ==> Valid(m.commandId.value))
    && (m.destinationRouting.Some? ==> Valid(m.destinationRouting.value))
  }

  lemma AsciiIsValid(s: string)
    ensures Valid(Ascii(s))
  {
    ValidAscii(Ascii(s));
  }

  /** The fields of the data object can be told apart: no two names are equally long. */
  lemma NamesDiffer()
    ensures |MESSAGE_TYPE| == 11 && |ENCODED| == 14 && |ORIGINATOR| == 23 && |RX_ID| == 15 && |COMMAND_ID| == 9 && |ROUTING| == 18
  {
  }

  lemma NamesAreValid()
    ensures Valid(MESSAGE_TYPE) && Valid(ENCODED) && Valid(ORIGINATOR) && Valid(RX_ID) && Valid(COMMAND_ID) && Valid(ROUTING)
    ensures Valid(UUID) && Valid(MESSAGE_DATA) && Valid(RX_ELEMENT) && Valid(TX_ELEMENT)
  {
    AsciiIsValid("MessageType");
    AsciiIsValid("EncodedPayload");
    AsciiIsValid("DataPayloadOriginatorID");
    AsciiIsValid("RxDataPayloadID");
    AsciiIsValid("CommandID");
    AsciiIsValid("DestinationRouting");
    AsciiIsValid("UUID");
    AsciiIsValid("MessageData");
    AsciiIsValid("MA_RxDataPayload");
    AsciiIsValid("MA_TxDataPayloadCommand");
  }

  lemma UuidLooks(data: map<Text, Value>, name: Text, uuid: Option<Text>)
    requires name !in data
    ensures var next := WithUuid(data, name, uuid);
            && (forall x :: x != name ==> Get(Object(next), x) == Get(Object(data), x))
            && GetUuid(Object(next), name) == uuid && (uuid.None? ==> name !in next)
  {
  }

  lemma DataIsRead(meta: Meta, inner: seq<byte>)
    ensures Holds(Object(MessageData(meta, inner)), meta, EncodeUpper(inner))
  {
    NamesDiffer();
    BuiltInOrder(meta, EncodeUpper(inner), MESSAGE_TYPE, ENCODED, ORIGINATOR, RX_ID, COMMAND_ID, ROUTING);
  }

  /** Each of six different names keeps what was put under it. */
  lemma BuiltInOrder(meta: Meta, hex: Text, a: Text, b: Text, c: Text, d: Text, e: Text, f: Text)
    requires |a| == 11 && |b| == 14 && |c| == 23 && |d| == 15 && |e| == 9 && |f| == 18
    ensures var m0 := map[a := Str(meta.messageType)][b := Str(hex)];
            var m3 := WithUuid(WithUuid(WithUuid(m0, c, meta.originator), d, meta.rxPayloadId), e, meta.commandId);
            var m := Object(if meta.destinationRouting.Some? then m3[f := Str(meta.destinationRouting.value)] else m3);
            && GetStr(m, a) == Some(meta.messageType) && GetStr(m, b) == Some(hex)
            && GetUuid(m, c) == meta.originator && GetUuid(m, d) == meta.rxPayloadId
            && GetUuid(m, e) == meta.commandId && GetStr(m, f) == meta.destinationRouting
  {
    assert a != b && f != a && f != b && f != c && f != d && f != e;
    var m0 := map[a := Str(meta.messageType)][b := Str(hex)];
    var m3 := WithUuid(WithUuid(WithUuid(m0, c, meta.originator), d, meta.rxPayloadId), e, meta.commandId);
    UuidsInOrder(m0, c, meta.originator, d, meta.rxPayloadId, e, meta.commandId);
    assert Get(Object(m3), f).None?;
    TextLooks(m3, f, meta.destinationRouting);
  }

  lemma TextLooks(data: map<Text, Value>, name: Text, text: Option<Text>)
    requires name !in data
    ensures var next := if text.Some? then data[name := Str(text.value)] else data;
            && (forall x :: x != name ==> Get(Object(next), x) == Get(Object(data), x)) && GetStr(Object(next), name) == text
  {
  }

  lemma UuidsInOrder(m0: map<Text, Value>, c: Text, x: Option<Text>, d: Text, y: Option<Text>, e: Text, z: Option<Text>)
    requires c !in m0 && d !in m0 && e !in m0 && c != d && c != e && d != e
    ensures var m3 := WithUuid(WithUuid(WithUuid(m0, c, x), d, y), e, z);
            && (forall k :: k != c && k != d && k != e ==> Get(Object(m3), k) == Get(Object(m0), k))
            && GetUuid(Object(m3), c) == x && GetUuid(Object(m3), d) == y && GetUuid(Object(m3), e) == z
  {
    var m1 := WithUuid(m0, c, x);
    var m2 := WithUuid(m1, d, y);
    UuidLooks(m0, c, x);
    UuidLooks(m1, d, y);
    UuidLooks(m2, e, z);
  }

  lemma InsertIsTextual(data: map<Text, Value>, name: Text, v: Value)
    requires Textual(Object(data)) && Valid(name) && Textual(v)
    ensures Textual(Object(data[name := v]))
  {
  }

  lemma UuidIsTextual(data: map<Text, Value>, name: Text, uuid: Option<Text>)
    requires Textual(Object(data)) && Valid(name) && Valid(UUID) && (uuid.Some? ==> Valid(uuid.value))
    ensures Textual(Object(WithUuid(data, name, uuid)))
  {
    if uuid.Some? {
      InsertIsTextual(map[], UUID, Str(uuid.value));
      InsertIsTextual(data, name, Object(map[UUID := Str(uuid.value)]));
    }
  }

  lemma FirstFieldsAreTextual(meta: Meta, inner: seq<byte>)
    requires Valid(meta.messageType) && Valid(MESSAGE_TYPE) && Valid(ENCODED)
    ensures Textual(Object(map[MESSAGE_TYPE := Str(meta.messageType)][ENCODED := Str(EncodeUpper(inner))]))
  {
    EncodedIsBare(inner);
    ValidAscii(EncodeUpper(inner));
    InsertIsTextual(map[], MESSAGE_TYPE, Str(meta.messageType));
    InsertIsTextual(map[MESSAGE_TYPE := Str(meta.messageType)], ENCODED, Str(EncodeUpper(inner)));
  }

  lemma DataIsTextual(meta: Meta, inner: seq<byte>)
    requires ValidMeta(meta)
    ensures Textual(Object(MessageData(meta, inner)))
  {
    NamesAreValid();
    FirstFieldsAreTextual(meta, inner);
    var d := map[MESSAGE_TYPE := Str(meta.messageType)][ENCODED := Str(EncodeUpper(inner))];
    var d1 := WithUuid(d, ORIGINATOR, meta.originator);
    var d2 := WithUuid(d1, RX_ID, meta.rxPayloadId);
    var d3 := WithUuid(d2, COMMAND_ID, meta.commandId);
    UuidIsTextual(d, ORIGINATOR, meta.originator);
    UuidIsTextual(d1, RX_ID, meta.rxPayloadId);
    UuidIsTextual(d2, COMMAND_ID, meta.commandId);
    if meta.destinationRouting.Some? { InsertIsTextual(d3, ROUTING, Str(meta.destinationRouting.value)); }
  }

  lemma WrapperIsTextual(meta: Meta, inner: seq<byte>)
    requires ValidMeta(meta)
    ensures Textual(MinimalWrapper(meta, inner))
  {
    NamesAreValid();
    DataIsTextual(meta, inner);
    var body := Object(map[MESSAGE_DATA := Object(MessageData(meta, inner))]);
    assert Textual(body);
  }

  lemma {:induction false} NestsMore(v: Value, a: nat, b: nat)
    requires NestsWithin(v, a) && a <= b
    ensures NestsWithin(v, b)
  {
    if v.Object? {
      forall k | k in v.members ensures NestsWithin(v.members[k], b - 1) { NestsMore(v.members[k], a - 1, b - 1); }
    }
  }

  lemma UuidIsShallow(data: map<Text, Value>, name: Text, uuid: Option<Text>)
    requires NestsWithin(Object(data), 2)
    ensures NestsWithin(Object(WithUuid(data, name, uuid)), 2)
  {
    if uuid.Some? {
      var v := Object(map[UUID := Str(uuid.value)]);
      assert NestsWithin(v, 1);
    }
  }

  lemma DataIsShallow(meta: Meta, inner: seq<byte>)
    ensures NestsWithin(Object(MessageData(meta, inner)), 2)
  {
    var d := map[MESSAGE_TYPE := Str(meta.messageType)][ENCODED := Str(EncodeUpper(inner))];
    var d1 := WithUuid(d, ORIGINATOR, meta.originator);
    var d2 := WithUuid(d1, RX_ID, meta.rxPayloadId);
    UuidIsShallow(d, ORIGINATOR, meta.originator);
    UuidIsShallow(d1, RX_ID, meta.rxPayloadId);
    UuidIsShallow(d2, COMMAND_ID, meta.commandId);
  }

  /** Root, body, data and UUID: four levels. */
  lemma WrapperIsShallow(meta: Meta, inner: seq<byte>)
    ensures NestsWithin(MinimalWrapper(meta, inner), 4)
  {
    DataIsShallow(meta, inner);
    var body := Object(map[MESSAGE_DATA := Object(MessageData(meta, inner))]);
    assert NestsWithin(body, 3);
  }

  lemma WrapperHasOneKey(meta: Meta, inner: seq<byte>)
    ensures OnlyKey(MinimalWrapper(meta, inner)) == Some(ElementName(meta.kind))
  {
    var v := MinimalWrapper(meta, inner);
    assert v.members.Keys == {ElementName(meta.kind)};
  }

  /** Every metadata and every payload within the limit: peeling the wrapper that is built
      gives back the metadata, the inner envelope and the wrapper itself. */
  lemma UnwrapOfParts(l: Libraries, topic: Text, meta: Meta, encoded: seq<byte>, ids: Ids)
    requires Faithful(l) && ValidMeta(meta)
    ensures var built := UnwrappedFromParts(l, topic, meta, encoded, ids);
            if |encoded| > MAX_DECODED_PAYLOAD then built == Err(BadPayload(PayloadTooLarge))
            else built.Ok? && built.value.inner.payload == encoded && built.value.meta == meta
                 && WrapperKind(l, built.value.wrapper.payload) == Some(meta.kind)
                 && Unwrap(l, topic, built.value.wrapper.payload, ids) == built
  {
    if |encoded| <= MAX_DECODED_PAYLOAD {
      var v := MinimalWrapper(meta, encoded);
      WrapperIsTextual(meta, encoded);
      WrapperIsShallow(meta, encoded);
      NestsMore(v, 4, PARSER_DEPTH);
      PrintedIsRead(l, v);
      WrapperHasOneKey(meta, encoded);
      ElementNameIsRead(meta.kind);
      WrapperIsPeeled(l, topic, meta, encoded, l.write(v), ids);
    }
  }

  /** The fields of a data object are all that `unwrap_json` goes by. */
  predicate Holds(data: Value, meta: Meta, hex: Text) {
    && GetStr(data, MESSAGE_TYPE) == Some(meta.messageType) && GetStr(data, ENCODED) == Some(hex)
    && GetUuid(data, ORIGINATOR) == meta.originator && GetUuid(data, RX_ID) == meta.rxPayloadId
    && GetUuid(data, COMMAND_ID) == meta.commandId && GetStr(data, ROUTING) == meta.destinationRouting
  }

  lemma DataIsPeeled(
      l: Libraries, topic: Text, text: Text, root: Value, name: Text, data: Value, meta: Meta, hex: Text, inner: seq<byte>, ids: Ids)
    requires l.parse(text) == Some(root) && OnlyKey(root) == Some(name) && FromElement(name) == Some(meta.kind)
    requires Get(root.members[name], MESSAGE_DATA) == Some(data) && Holds(data, meta, hex) && AgraHex(hex) == Ok(inner)
    ensures UnwrapJson(l, topic, text, ids) == Ok(Peeled(l, topic, text, JSON_TYPE, meta, inner, ids))
  {
  }

  lemma WrapperIsPeeled(l: Libraries, topic: Text, meta: Meta, encoded: seq<byte>, text: Text, ids: Ids)
    requires l.parse(text) == Some(MinimalWrapper(meta, encoded)) && |encoded| <= MAX_DECODED_PAYLOAD
    ensures UnwrapJson(l, topic, text, ids) == Ok(Peeled(l, topic, text, JSON_TYPE, meta, encoded, ids))
  {
    var root, name, data := MinimalWrapper(meta, encoded), ElementName(meta.kind), Object(MessageData(meta, encoded));
    WrapperHasOneKey(meta, encoded);
    ElementNameIsRead(meta.kind);
    DataIsRead(meta, encoded);
    DecodeOfEncode(encoded);
    DataIsPeeled(l, topic, text, root, name, data, meta, EncodeUpper(encoded), encoded, ids);
  }

  lemma PrintedIsRead(l: Libraries, v: Value)
    requires Faithful(l) && v.Object? && Textual(v) && NestsWithin(v, PARSER_DEPTH)
    ensures var t := l.write(v);
            l.parse(t) == Some(v) && Valid(t) && Opens(t, BRACE) && l.trim(t) == t && l.trimStart(t) == t
  {
  }

  /** Headers that say what a wrapper said, with none for what it did not say. */
  predicate SaysOf(h: map<Text, Text>, meta: Meta, contentType: Text) {
    && HeaderIn(h, HDR_WRAPPER) == Some(ElementName(meta.kind))
    && HeaderIn(h, HDR_MESSAGE_TYPE) == Some(meta.messageType)
    && HeaderIn(h, HDR_INNER_CT) == Some(contentType)
    && HeaderIn(h, HDR_ORIGINATOR) == meta.originator
    && HeaderIn(h, HDR_RX_ID) == meta.rxPayloadId
    && HeaderIn(h, HDR_COMMAND_ID) == meta.commandId
    && HeaderIn(h, HDR_DEST_ROUTING) == meta.destinationRouting
  }

  /** The headers of the inner envelope say what the wrapper said. */
  lemma InnerHeaders(l: Libraries, topic: Text, meta: Meta, encoded: seq<byte>, ids: Ids)
    requires |encoded| <= MAX_DECODED_PAYLOAD
    ensures var h := UnwrappedFromParts(l, topic, meta, encoded, ids).value.inner.headers;
            SaysOf(h, meta, UnwrappedFromParts(l, topic, meta, encoded, ids).value.inner.contentType)
  {
    HeaderNamesDiffer();
    var ct := SniffContentType(l, encoded);
    var h := map[HDR_WRAPPER := ElementName(meta.kind)][HDR_MESSAGE_TYPE := meta.messageType][HDR_INNER_CT := ct];
    HeadersInOrder(h, HDR_ORIGINATOR, meta.originator, HDR_RX_ID, meta.rxPayloadId,
                   HDR_COMMAND_ID, meta.commandId, HDR_DEST_ROUTING, meta.destinationRouting);
  }

  lemma HeaderNamesDiffer()
    ensures |HDR_WRAPPER| == 12 && |HDR_MESSAGE_TYPE| == 17 && |HDR_ORIGINATOR| == 20 && |HDR_RX_ID| == 18
    ensures |HDR_COMMAND_ID| == 15 && |HDR_DEST_ROUTING| == 24 && |HDR_INNER_CT| == 23
  {
  }

  lemma HeaderNamesBegin()
    ensures HDR_WRAPPER[0] == 97 && HDR_MESSAGE_TYPE[0] == 97 && HDR_ORIGINATOR[0] == 97 && HDR_RX_ID[0] == 97
    ensures HDR_COMMAND_ID[0] == 97 && HDR_DEST_ROUTING[0] == 97 && HDR_INNER_CT[0] == 97
  {
  }

  lemma HeaderLooks(h: map<Text, Text>, name: Text, value: Option<Text>)
    requires name !in h
    ensures var next := WithHeader(h, name, value);
            (forall x :: x != name ==> HeaderIn(next, x) == HeaderIn(h, x)) && HeaderIn(next, name) == value
  {
  }

  lemma HeadersInOrder(
      h: map<Text, Text>, a: Text, w: Option<Text>, b: Text, x: Option<Text>, c: Text, y: Option<Text>, d: Text, z: Option<Text>)
    requires |a| == 20 && |b| == 18 && |c| == 15 && |d| == 24 && a !in h && b !in h && c !in h && d !in h
    ensures var m := WithHeader(WithHeader(WithHeader(WithHeader(h, a, w), b, x), c, y), d, z);
            && (forall k :: k !in {a, b, c, d} ==> HeaderIn(m, k) == HeaderIn(h, k))
            && HeaderIn(m, a) == w && HeaderIn(m, b) == x && HeaderIn(m, c) == y && HeaderIn(m, d) == z
  {
    var h1 := WithHeader(h, a, w);
    var h2 := WithHeader(h1, b, x);
    var h3 := WithHeader(h2, c, y);
    HeaderLooks(h, a, w);
    HeaderLooks(h1, b, x);
    HeaderLooks(h2, c, y);
    HeaderLooks(h3, d, z);
  }

  function HeaderIn(headers: map<Text, Text>, name: Text): Option<Text> {
    if name in headers then Some(headers[name]) else None
  }

  /** A sample that came off one DDS bus goes onto another as it was: its wrapper envelope,
      whatever headers it has been stamped with, gives the sample back. */
  lemma SampleSurvives(
      l: Libraries, toEnum: Text -> Text, topic: Text, sample: Sample, ids: Ids, stamped: map<Text, Text>, again: Ids)
    requires Faithful(l) && ValidMeta(sample.meta) && |sample.encoded| <= MAX_DECODED_PAYLOAD
    ensures var built := UnwrappedFromParts(l, topic, sample.meta, sample.encoded, ids);
            built.Ok? && SampleFromEnvelope(l, toEnum, built.value.wrapper.(headers := stamped), again) == Ok(sample)
  {
    UnwrapOfParts(l, topic, sample.meta, sample.encoded, ids);
    UnwrapOfParts(l, topic, sample.meta, sample.encoded, again);
  }

  /** An envelope whose payload is no wrapper becomes an Rx sample of that payload, typed by its
      hint or else its topic, and the wrapper built of that sample gives the payload back. */
  lemma PlainSample(l: Libraries, toEnum: Text -> Text, e: Envelope, ids: Ids)
    requires WrapperKind(l, e.payload).None?
    ensures var r := SampleFromEnvelope(l, toEnum, e, ids);
            && r.Ok? && r.value.encoded == e.payload && r.value.meta.kind == Rx
            && r.value.meta.messageType == toEnum(if e.route.hint.Some? then e.route.hint.value else e.route.topic)
            && r.value.meta.originator.None? && r.value.meta.rxPayloadId.None?
            && r.value.meta.commandId.None? && r.value.meta.destinationRouting.None?
    ensures var sample := SampleFromEnvelope(l, toEnum, e, ids).value;
            Faithful(l) && ValidMeta(sample.meta) && |e.payload| <= MAX_DECODED_PAYLOAD ==>
              var built := UnwrappedFromParts(l, e.route.topic, sample.meta, sample.encoded, ids);
              && built.Ok? && built.value.inner.payload == e.payload && built.value.inner.route.topic == e.route.topic
              && SampleFromEnvelope(l, toEnum, built.value.wrapper, ids) == Ok(sample)
  {
    var sample := SampleFromEnvelope(l, toEnum, e, ids).value;
    if Faithful(l) && ValidMeta(sample.meta) && |e.payload| <= MAX_DECODED_PAYLOAD {
      SampleSurvives(l, toEnum, e.route.topic, sample, ids, map[], ids);
    }
  }

  // ---- What a payload is taken for -----------------------------------------------------

  /** A printed object with one member is JSON named by that member. */
  lemma TakenForJson(l: Libraries, v: Value, name: Text, messageType: Text)
    requires Faithful(l) && v.Object? && Textual(v) && NestsWithin(v, PARSER_DEPTH) && v.members.Keys == {name}
    ensures var t := l.write(v);
            && SniffContentType(l, t) == JSON_TYPE && HintFromInner(l, t, messageType) == name
            && WrapperKind(l, t) == FromElement(name)
  {
    PrintedIsRead(l, v);
  }

  /** A document that begins with its root element is XML named by it. */
  lemma TakenForXml(l: Libraries, t: Text, name: Text, messageType: Text)
    requires Valid(t) && l.trim(t) == t && l.trimStart(t) == t && Opens(t, ANGLE) && l.xmlRoot(t) == Some(name)
    ensures SniffContentType(l, t) == XML_TYPE && HintFromInner(l, t, messageType) == name
    ensures WrapperKind(l, t) == FromElement(name)
  {
  }

  /** Anything else is octets, and goes by the wrapper's word. */
  lemma TakenForOctets(l: Libraries, payload: seq<byte>, messageType: Text)
    requires Valid(payload) ==> !Opens(l.trimStart(payload), BRACE) && !Opens(l.trimStart(payload), ANGLE)
    requires Valid(payload) ==> !Opens(l.trim(payload), BRACE) && !Opens(l.trim(payload), ANGLE)
    ensures SniffContentType(l, payload) == OCTETS_TYPE && HintFromInner(l, payload, messageType) == messageType
    ensures WrapperKind(l, payload).None?
  {
  }

  /** Only the two element names are wrappers. */
  lemma ElementIsNamed(name: Text)
    requires FromElement(name).Some?
    ensures ElementName(FromElement(name).value) == name
  {
  }

  // ---- What is peeled was there --------------------------------------------------------

  /** The converse of `DataIsPeeled`: what is peeled off a JSON wrapper is what its data object
      holds. */
  lemma PeeledWasThere(l: Libraries, topic: Text, text: Text, ids: Ids) returns (root: Value, name: Text, data: Value, hex: Text)
    requires UnwrapJson(l, topic, text, ids).Ok?
    ensures var u := UnwrapJson(l, topic, text, ids).value;
            && l.parse(text) == Some(root) && OnlyKey(root) == Some(name) && FromElement(name) == Some(u.meta.kind)
            && Get(root.members[name], MESSAGE_DATA) == Some(data) && Holds(data, u.meta, hex) && AgraHex(hex) == Ok(u.inner.payload)
  {
    root := l.parse(text).value;
    name := OnlyKey(root).value;
    data := Get(root.members[name], MESSAGE_DATA).value;
    hex := GetStr(data, ENCODED).value;
  }

  /** What is said of a JSON document that is not a wrapper. */
  lemma NotWrapped(l: Libraries, topic: Text, text: Text, ids: Ids)
    ensures var root, r := l.parse(text), UnwrapJson(l, topic, text, ids);
            && (root.None? || !root.value.Object? <==> r == Err(BadJson))
            && (root.Some? && root.value.Object? && (forall k :: k in {RX_ELEMENT, TX_ELEMENT} ==> root.value.members.Keys != {k}) <==>
                  r == Err(NotAWrapper))
  {
    var root := l.parse(text);
    if root.Some? && root.value.Object? {
      var name := OnlyKey(root.value);
      if name.Some? {
        assert forall k :: root.value.members.Keys == {k} ==> k in root.value.members.Keys;
        assert FromElement(name.value).Some? <==> name.value in {RX_ELEMENT, TX_ELEMENT};
      }
    }
  }

  /** And of one that is a wrapper and lacks something: the first thing it lacks. */
  lemma MissingIsNamed(l: Libraries, topic: Text, text: Text, root: Value, name: Text, ids: Ids)
    requires l.parse(text) == Some(root) && OnlyKey(root) == Some(name) && FromElement(name).Some?
    ensures var data, r := Get(root.members[name], MESSAGE_DATA), UnwrapJson(l, topic, text, ids);
            && (data.None? <==> r == Err(MissingField(MESSAGE_DATA)))
            && (data.Some? && GetStr(data.value, MESSAGE_TYPE).None? <==> r == Err(MissingField(MESSAGE_TYPE)))
            && (data.Some? && GetStr(data.value, MESSAGE_TYPE).Some? && GetStr(data.value, ENCODED).None? <==>
                  r == Err(MissingField(ENCODED)))
  {
    assert |ENCODED| == 14 && |MESSAGE_DATA| == 11 && MESSAGE_DATA[7] == 68 && MESSAGE_TYPE[7] == 84;
  }

  /** A wrapper written as XML and one written as JSON that hold the same fields are peeled
      alike: both fail in the same way, or both give the same metadata and the same inner
      envelope beside the document they came as. */
  lemma PeeledAlike(
      l: Libraries, topic: Text, json: Text, xml: Text, root: Value, name: Text, data: Value, x: XmlFields, ids: Ids)
    requires l.parse(json) == Some(root) && OnlyKey(root) == Some(name) && Get(root.members[name], MESSAGE_DATA) == Some(data)
    requires l.xmlFields(xml) == Some(x) && x.root == name && x.messageType.Some? && x.encoded.Some?
    requires Holds(data, x.meta.(messageType := x.messageType.value), l.trim(x.encoded.value))
    requires Valid(json) && l.trim(json) == json && Opens(json, BRACE) && Valid(xml) && l.trim(xml) == xml && Opens(xml, ANGLE)
    ensures var a, b := Unwrap(l, topic, json, ids), Unwrap(l, topic, xml, ids);
            if a.Err? then b == a
            else
              && b.Ok? && b.value.meta == a.value.meta && b.value.inner == a.value.inner
              && a.value.wrapper.payload == json && a.value.wrapper.contentType == JSON_TYPE
              && b.value.wrapper == a.value.wrapper.(payload := xml, contentType := XML_TYPE)
  {
    var meta := x.meta.(messageType := x.messageType.value);
    if FromElement(name).Some? {
      var kind := FromElement(name).value;
      assert Holds(data, meta.(kind := kind), l.trim(x.encoded.value));
    }
  }
}
