# oa-gateway: a Dafny model and its proofs

The gateway moves messages between OWP WebSocket clients, a STOMP broker and a DDS domain
through one in-process publish/subscribe engine, and reads, writes and validates UCI
messages on the way. This project models the parts of it where a mistake would be hard to
see, and proves what they promise, for every input, every run and every reachable state.

`dafny verify dfyconfig.toml` checks everything.

## The parts

| part | files | main results |
|---|---|---|
| STOMP frames | `StompCodec`, `StompStream`, `StompLineEnds`, `StompVerdict`, `Utf8`, `Decimal` | any list of frames, heartbeats between them, cut into reads anywhere, is received as sent; frames as other peers spell them, exactly; what any buffer is decoded to or refused for; the buffer is bounded; under which cuts a frame without a length arrives, and exactly when under all |
| XML text | `XmlScan`, `XmlText` | the byte scanner says "too deep" exactly when the document's tree is |
| UCI schema | `UciSchema`, `UciFacets`, `Primitive`, `UciText` | which extension chains resolve and to what; merged facets against the facets of every link |
| UCI codecs | `UciInstance`, `UciJson`, `UciJsonLoops`, `UciXml`, `UciXmlReader`, `UciXmlWriter`, `UciShape`, `UciNamespaces`, `UciSpelling`, `UciXmlTrip`, `UciXmlImage`, `UciMeaning`, `UciContents` | what is read says what was given, leaf by leaf and member by member, and what is refused, in both serializations; JSON is undone by its own reader, XML exactly but for carriage returns; what XML does to any tree, exactly |
| UCI validation | `UciValidate`, `UciReports`, `UciCross` | 32 violations at most, none exactly when the message conforms, and which for which fault of which element; the same verdict from either serialization |
| Engine | `Routing`, `EngineState`, `Fanout` | indexes equal the flat table; every interleaving of publishes |
| OWP | `OwpSession`, `OwpSessions` | the engine mirrors the live connections under every interleaving |
| Bus adapters | `BridgeRetry`, `BridgeEcho`, `StompRelay` | subscriptions across failures and panics, and exactly what is left; forwarding that stops, and exactly when it does; envelopes relayed unchanged |
| A-GRA | `Hex`, `AgraWrapper` | two hex decoders agree; a wrapper is peeled as it was built |

Code that changes things in place is modelled in place: the frame reader, the violation
report, the engine and the OWP session are classes, and the loops of the codecs are methods
proved against a function that says what they compute. Protocols with several actors are
state machines over the steps between which another actor may run; their theorems speak of
every state of every run.

## Where code and documentation differ

- `DestinationMap` is documented as a pair of inverses. It is one exactly for topics that
  are not empty and have no leading slash (`StompRelay.FromOfToStomp`) and for destinations
  with no slash after the prefix (`StompRelay.ToOfFromStomp`).
- `StompAdapter::serve` is documented to fail when shutdown has already fired; it then
  returns success (`BridgeRetry.ShutdownIsNoError`). When it stops, and when with an error,
  is `BridgeRetry.StopsExactly`.
- `drop_adapter` is to be called "on shutdown and when a session restarts". The loop can end
  without it: after a SUBSCRIBE that could not be written, a panic or a cancellation, what
  the session had subscribed stays registered. `BridgeRetry.LeftExactly` says what is left
  in every run and `BridgeRetry.NoneLeftExactly` exactly when nothing is;
  `BridgeRetry.StopsWithOneLeft` is a run that ends with a subscription left.
- A message whose root names an overriding type loses the override on a trip through XML
  (`UciXmlTrip.RootOverrideIsLost`), and `to_xml` writes one level more than `from_xml`
  reads (`UciXmlTrip.XmlTrip`).
- `escape` writes control characters and carriage returns as they are. A leaf that holds a
  character XML does not allow makes a document no parser accepts (`UciXmlTrip.XmlTrip`),
  and a carriage return comes back as a line feed (`UciCross.ReturnIsLost`). So reading
  undoes writing exactly when no leaf has one (`UciXmlImage.XmlRoundTrip`), and
  `<A>a&#13;b</A>` is a document it fails on (`UciXmlImage.ReturnDocumentChanges`).
- STOMP 1.2 lets each line end in LF or in CR LF. A blank line of CR LF is not recognized
  after a line that ends in LF alone, and the frame is not decoded
  (`StompLineEnds.MixedBlankIsMissed`); every other mixture is read
  (`StompLineEnds.DecodeOfSpelled`).
- An integer in a JSON string is read as a double from 2^63 on, and no longer denotes what it
  did; XML keeps it up to 2^64 (`UciMeaning.LargeIntegers`). That is the only text the two
  readers take for different values (`UciMeaning.ReadersAgree`).
- Of a leaf's text in XML only what stands before the first comment is read
  (`UciContents.CommentCutsText`).
- The fallback to the first declaration in the choice check, the Internal-Error reply to a
  refused OWP subscription, the duplicate error when a bridge subscribes and the STOMP error
  for a missing command are shown never to be reached.

## What is taken as given

- A `String` is its UTF-8 bytes (`Utf8.Valid`) in the STOMP, OWP, engine and A-GRA parts
  and a sequence of characters in the UCI parts. Every delimiter the
  byte scanner looks for is ASCII, so it is stated over characters.
- Doubles are their 64 bits; their printer and parser, the date, time and decimal regular
  expressions and pattern facets are parameters (`Primitive.Platform`). All that is assumed
  of them is that a finite double reads back as itself and is printed in visible ASCII
  (`Primitive.Faithful`), and, where it is said what a number means, that no double is printed
  as an integer and that integers are read as doubles by their value (`UciMeaning.ByValue`).
- In the A-GRA part `serde_json`, `str::trim` and `roxmltree` are parameters
  (`AgraWrapper.Libraries`); printed objects of strings, no deeper than the 127 levels
  `serde_json` reads, are assumed to parse as themselves and to begin with a brace, without
  surrounding space (`AgraWrapper.Faithful`), and trimming to add nothing and to stop at
  visible ASCII (`AgraWrapper.Trims`).
- JSON objects are maps ordered by key. XML documents are trees with their spelling
  (`XmlScan.Document`). The parser accepts none but those in `UciXml.WellFormed` (legal names,
  characters and references, XML 1.0 sections 2.2, 2.3 and 4.1, and bound prefixes), all that the writer spells
  among them are accepted, and what it makes of one is
  `UciXml.View` (line ends normalized by section 2.11, references resolved), with the prefix
  `xsi` bound to the instance namespace.
- Message ids, connection failures, read sizes, the order of a hash set and which delivery
  a full channel drops are parameters or free choices of a step.

## Model

| member | source | states |
|---|---|---|
| StompCodec.EscapeHeader | crates/oa-gateway-stomp/src/codec.rs:268-280 | the escape loop replaces every backslash, colon, LF and CR by its two-character escape and nothing else |
| StompCodec.UnescapeHeader | crates/oa-gateway-stomp/src/codec.rs:288-305 | the unescape loop undoes escapes from the left and refuses an unknown or cut one |
| StompCodec.UnescapeOfEscape | crates/oa-gateway-stomp/src/codec.rs:268-305 | unescaping any escaped text gives the text |
| StompCodec.EscapesAreStomp | crates/oa-gateway-stomp/src/codec.rs:268-305 | the escapes are those of STOMP 1.2, and no other is taken |
| StompCodec.EscapeKeepsUtf8 | crates/oa-gateway-stomp/src/codec.rs:268-280 | escaping keeps text well-formed UTF-8 |
| StompCodec.UnescapeKeepsUtf8 | crates/oa-gateway-stomp/src/codec.rs:288-305 | unescaping keeps text well-formed UTF-8 |
| StompCodec.EncodeFrame | crates/oa-gateway-stomp/src/codec.rs:69-93 | the bytes pushed are command, escaped headers, a content-length only if no header has that name, a blank line, the body and NUL |
| StompCodec.FindHeaderEnd | crates/oa-gateway-stomp/src/codec.rs:248-265 | the index loop finds the end of the first blank line, LF or CRLF |
| StompCodec.DecodeOne | crates/oa-gateway-stomp/src/codec.rs:159-244 | one call takes heartbeats and at most one frame off the buffer, with every refusal the code makes, and leaves the rest |
| StompStream.DecodeOfEncode | crates/oa-gateway-stomp/src/codec.rs:69-244 | an encoding followed by anything decodes to the frame with its content-length exactly when the frame's own lengths, if any, parse and the last is true |
| StompStream.DecodeOfPrefix | crates/oa-gateway-stomp/src/codec.rs:167-226 | every proper prefix of an encoding is left in the buffer and waits for more |
| StompStream.ReceiveNext | crates/oa-gateway-stomp/src/client.rs:53-65 | one `recv` on a stream cut anywhere returns the next frame sent and leaves exactly the rest of the stream |
| StompStream.StreamRoundTrip | crates/oa-gateway-stomp/src/client.rs:53-65 | any list of wire-safe frames, any heartbeats between them, any cutting into non-empty reads: those frames in order, then end of stream |
| StompStream.UnsizedArrivesExactly | crates/oa-gateway-stomp/src/codec.rs:227-233 | a frame without a length, anything behind it, cut anywhere: received, leaving the rest, exactly when no read ends past the limit and before its NUL; otherwise refused as too large |
| StompStream.UnsizedInvariantExactly | crates/oa-gateway-stomp/src/codec.rs:227-233 | it is received under every cutting exactly when block and body together are within the limit |
| StompStream.DecodeBounds | crates/oa-gateway-stomp/src/codec.rs:167-237 | a frame strictly shrinks the buffer, and a buffer that waits is at most twice the limit |
| StompStream.FrameReader.Recv | crates/oa-gateway-stomp/src/client.rs:53-65 | after every read the buffer is at most 2 * max_frame_size + 8192 bytes; a returned frame leaves strictly less to read |
| StompLineEnds.DecodeOfSpelled | crates/oa-gateway-stomp/src/codec.rs:159-265 | a frame whose lines end in any number of CRs and an LF, with any headers and anything behind it, is decoded and the rest left exactly when its blank line is LF or follows a line that ended in CR LF, its lengths parse, and its body is as long as the last says or has no NUL if there is none |
| StompLineEnds.DecodeOfCrlf | crates/oa-gateway-stomp/src/codec.rs:192-192 | a frame written with CR LF throughout is decoded on the same condition as the encoding with LF |
| StompLineEnds.MixedBlankIsMissed | crates/oa-gateway-stomp/src/codec.rs:248-265 | any command followed by LF, CR, LF and any body is not decoded as that frame |
| StompVerdict.LineVerdict | crates/oa-gateway-stomp/src/codec.rs:205-211 | a header line is refused exactly without a colon, when a part cannot be unescaped, or when it is a length that is no number, each with its error; else it is the header it spells |
| StompVerdict.LinesRefused | crates/oa-gateway-stomp/src/codec.rs:199-212 | of all lines but the blank ones, the first to be refused decides |
| StompVerdict.BlockVerdict | crates/oa-gateway-stomp/src/codec.rs:185-212 | a whole block is refused for a NUL, else as no UTF-8, else for its lines, each exactly then |
| StompVerdict.WaitVerdict | crates/oa-gateway-stomp/src/codec.rs:175-180 | without a blank line the buffer is kept up to the limit and refused beyond it |
| StompVerdict.LengthVerdict | crates/oa-gateway-stomp/src/codec.rs:215-226 | a declared length is too large, waits or lacks its NUL exactly in the three cases |
| StompVerdict.NeverMissingCommand | crates/oa-gateway-stomp/src/codec.rs:193-196 | no buffer is refused for a missing command |
| StompVerdict.DecodedWasThere | crates/oa-gateway-stomp/src/codec.rs:159-244 | whatever is decoded was in the buffer: heartbeats, a block whose lines spell command and headers in order, the body where its length or its NUL puts it, a NUL, and what is left |
| XmlScan.ScanStartTag | crates/oa-gateway-uci/src/xml.rs:149-166 | the state loop ends a start tag at the first unquoted `>` and tells whether `/` stood before it |
| XmlScan.NestingExceeds | crates/oa-gateway-uci/src/xml.rs:86-130 | the scan loop computes `Exceeds`, of which the next row says what it means |
| XmlScan.ScanIsExact | crates/oa-gateway-uci/src/xml.rs:86-166 | on every well-formed DTD-free document (quoted attributes, comments, instructions, CDATA) the scan says yes exactly when the element tree is deeper than the limit |
| XmlScan.DeclarationIsSkipped | crates/oa-gateway-uci/src/xml.rs:104-110 | a markup declaration is passed over to its first `>` at any depth |
| XmlScan.StrayEndTag | crates/oa-gateway-uci/src/xml.rs:111-116 | an end tag with nothing open makes no room for another level |
| UciShape.WrittenIsSound | crates/oa-gateway-uci/src/xml.rs:58-74 | what `to_xml` writes is such a document, as deep as the tree, so the scan is exact on it |
| UciSpelling.WrittenIsWellFormed | crates/oa-gateway-uci/src/xml.rs:58-74 | with names XML can spell, the parser accepts it exactly when every leaf holds only characters XML allows |
| UciNamespaces.WrittenIsBound | crates/oa-gateway-uci/src/xml.rs:272-364 | in whatever is written every prefix is bound where it is used, `xsi` to the instance namespace by the tag that uses it, and the root is in the message namespace |
| UciSchema.WalkChain | crates/oa-gateway-uci/src/schema.rs:424-450 | the walk with its pushed and popped vector: restored on success, holding the cycle when one is found |
| UciSchema.GroupsExact | crates/oa-gateway-uci/src/schema.rs:401-450 | `groups` ends on every schema: it succeeds exactly when the chain reaches a plain type, names an unknown type exactly when the chain ends there, reports a cycle exactly when the chain goes round |
| UciSchema.GroupsOfChain | crates/oa-gateway-uci/src/schema.rs:424-450 | what it returns is the base's groups first, then every extension's on the way back |
| UciSchema.CheckReferences | crates/oa-gateway-uci/src/xsd/references.rs:13-65 | the loops collect exactly the names that are referred to and not known |
| UciSchema.ResolvedFailures | crates/oa-gateway-uci/src/xsd/references.rs:13-65 | once references resolve, a defined complex type fails only by a cycle or by a chain ending in a simple base |
| UciFacets.PrimitiveOf | crates/oa-gateway-uci/src/schema.rs:475-488 | the bounded loop follows at most 16 restrictions |
| UciFacets.ReduceOfChain | crates/oa-gateway-uci/src/schema.rs:475-488 | on every restriction chain the walk ends at the first `xs:` name on the way, else at the base of the last type, if it gets there in the steps it has |
| UciMeaning.SignedTypes | crates/oa-gateway-uci/src/primitive.rs:55-58 | the signed integer types have the ranges of 8, 16, 32 and 64 bits |
| UciMeaning.UnsignedTypes | crates/oa-gateway-uci/src/primitive.rs:59-62 | and so have the unsigned ones |
| UciMeaning.UnboundedTypes | crates/oa-gateway-uci/src/primitive.rs:63-67 | the integer types without a bound are held to 128 bits |
| UciMeaning.IntegersExactly | crates/oa-gateway-uci/src/primitive.rs:107-120 | a text is let through as an integer type exactly when it denotes an integer of the range, of any size for `xs:integer`, and is told that it is no whole number exactly when it denotes none |
| UciFacets.EffectiveFacets | crates/oa-gateway-uci/src/schema.rs:495-519 | the loop folds the facets of those links, most derived first |
| UciFacets.MergedExact | crates/oa-gateway-uci/src/schema.rs:495-519 | on every chain a value passes every link exactly when it passes the merged facets and the enumerations and lengths that merging leaves out |
| UciFacets.MergedAgrees | crates/oa-gateway-uci/src/schema.rs:500-515 | on any list of links with narrowing enumerations and agreeing lengths, merged facets and links agree, patterns being alternatives within a link and all required across links |
| UciFacets.EffectiveAgrees | crates/oa-gateway-uci/src/schema.rs:495-519 | on a schema's chain of such types, `effective_facets` decides the facets of the first 16 types, all of them unless there are more |
| UciMeaning.SpecialWords | crates/oa-gateway-uci/src/primitive.rs:121-124 | `INF`, `-INF` and `NaN` are values of the floating types, and of decimals only if the expression says so |
| UciJsonLoops.ReadMessage | crates/oa-gateway-uci/src/json.rs:23-42 | the reader, loops and early returns included, computes `FromJson` |
| UciJsonLoops.ReadValue | crates/oa-gateway-uci/src/json.rs:64-145 | one value read by its declared type or `$type`, its members in key order, first failure returned |
| UciJsonLoops.WriteValue | crates/oa-gateway-uci/src/json.rs:194-244 | the writer, inserting members as it goes, gives the object the fields define |
| UciJsonLoops.WriteMessage | crates/oa-gateway-uci/src/json.rs:53-60 | the writer computes `ToJson` |
| UciJson.JsonRoundTrip | crates/oa-gateway-uci/src/json.rs:23-252 | whatever was read, root `$type` included, is written as JSON that reads as the same message |
| UciMeaning.JsonLeafHolds | crates/oa-gateway-uci/src/json.rs:149-189 | exactly scalars are read; a string becomes the boolean, integer or double it denotes under its type, and stays text exactly when it denotes none |
| UciMeaning.JsonLeafMeans | crates/oa-gateway-uci/src/json.rs:149-189 | the leaf that is read denotes what the scalar denoted under its type, exactly unless an integer past 64 bits signed is rounded |
| UciMeaning.NumericExactly | crates/oa-gateway-uci/src/json.rs:168-180 | strings are read as numbers under exactly the real types and the integer types with values on both sides of zero |
| UciContents.JsonMessage | crates/oa-gateway-uci/src/json.rs:23-145 | `from_json` succeeds exactly on one member, named by a global element, whose value fits its type all the way down; and the message then has the same members in the same order under the type claimed, `$type` aside, each item and each leaf saying what was given |
| UciContents.RootRefused | crates/oa-gateway-uci/src/json.rs:23-41 | a root that is no object, has not one member or names no global element is refused for that, and nothing else is |
| UciContents.JsonByHeight | crates/oa-gateway-uci/src/json.rs:194-244 | a tree of the readers' shape is written as JSON exactly up to 97 levels and is too deep beyond |
| UciContents.UndeclaredIsCarried | crates/oa-gateway-uci/src/json.rs:103-104 | a member nothing declares is carried as its text |
| UciXmlReader.ReadXml | crates/oa-gateway-uci/src/xml.rs:170-239 | grouping map, order list and group loop compute `ReadElement`: fields in order of first appearance, first failure in that order |
| UciMeaning.XmlLeafHolds | crates/oa-gateway-uci/src/xml.rs:247-268 | a leaf holds the boolean, integer of at most 64 bits or finite double its text denotes under its kind, and else the text |
| UciMeaning.ReadersAgree | crates/oa-gateway-uci/src/xml.rs:247-268 | the same text under the same type denotes the same to both readers, exactly unless JSON rounds it |
| UciMeaning.LargeIntegers | crates/oa-gateway-uci/src/json.rs:181-188 | integers from 2^63 to 2^64 in a string are rounded by JSON and kept by XML |
| UciContents.XmlMessage | crates/oa-gateway-uci/src/xml.rs:29-239 | `from_xml` succeeds exactly on documents shallow enough and well formed whose root is a global element and whose types are usable within the depth; and the message then has one field for each child name in order of first appearance, holding one node for each element of that name, in order, each saying what it says |
| UciContents.CommentCutsText | crates/oa-gateway-uci/src/xml.rs:181-181 | of a leaf only the text before the first comment or instruction is read |
| UciContents.NamedTypeCounts | crates/oa-gateway-uci/src/xml.rs:185-190 | `xsi:type` replaces the declared type exactly when its local part names a complex type |
| UciXmlWriter.EscapeByReplacing | crates/oa-gateway-uci/src/xml.rs:371-375 | three replacements one after another are one pass over the characters |
| UciXmlWriter.WriteElement | crates/oa-gateway-uci/src/xml.rs:272-350 | appending to the string spells exactly the element that the tree denotes |
| UciXmlWriter.WriteMessage | crates/oa-gateway-uci/src/xml.rs:58-74 | the text is the rendering of the document `ToXml` denotes |
| UciShape.ResolveOfEscape | crates/oa-gateway-uci/src/xml.rs:371-375 | resolving references undoes the escape of any text, and escaped text has no bad reference |
| UciXmlTrip.FieldsRegroup | crates/oa-gateway-uci/src/xml.rs:193-232 | grouping the elements of distinct fields gives those fields back, One and Many as they were |
| UciXmlTrip.XmlTrip | crates/oa-gateway-uci/src/xml.rs:29-74 | any shaped message with spellable names and no root override: written exactly up to 97 levels; re-read it is too deep exactly at 97, malformed exactly when a leaf holds a character XML does not allow, and otherwise what XML keeps (line ends normalized, leaf text trimmed and re-read, empty repetitions gone) |
| UciXmlTrip.RootOverrideIsLost | crates/oa-gateway-uci/src/xml.rs:43-48 | with a root override the message, if it is accepted, comes back with the same fields and no override, never equal |
| UciXmlImage.XmlRoundTrip | crates/oa-gateway-uci/src/xml.rs:29-350 | whatever was read from XML without a root `xsi:type`, nested overrides included, is written and read again, and is the same message exactly when no leaf text has a carriage return |
| UciXmlImage.ReturnDocumentChanges | crates/oa-gateway-uci/src/xml.rs:371-375 | `<A>a&#13;b</A>`, with `A` a string, is accepted and read with a carriage return, and what it is written as reads as another message |
| UciValidate.Report.Note | crates/oa-gateway-uci/src/validate/rules.rs:25-32 | a violation is pushed unless 32 are there |
| UciValidate.Report.CheckMax | crates/oa-gateway-uci/src/validate/rules.rs:356-370 | too many occurrences are noted, once |
| UciValidate.Report.CheckValue | crates/oa-gateway-uci/src/validate/rules.rs:216-341 | text that is no value of its primitive is noted once and alone; otherwise every facet it fails, in order |
| UciValidate.Report.Check | crates/oa-gateway-uci/src/validate/rules.rs:40-209 | a walk that stops early when the report is full adds the same as one that never stops and is capped |
| UciValidate.Validate | crates/oa-gateway-uci/src/validate/rules.rs:15-22 | the first 32 of the uncapped list, and empty exactly when the message conforms, occurrences being the nodes held under a name |
| UciContents.CountedAsWritten | crates/oa-gateway-uci/src/validate/rules.rs:92-96 | what is counted of a name is the number of child elements of that name in what `to_xml` writes |
| UciContents.CountedAsRead | crates/oa-gateway-uci/src/validate/rules.rs:92-96 | and, of a node read from XML, the number of its element's children of that name |
| UciContents.CountIsAll | crates/oa-gateway-uci/src/validate/rules.rs:92-96 | with distinct names it is the number of nodes all fields of that name hold |
| UciReports.ReportedExactly | crates/oa-gateway-uci/src/validate/rules.rs:40-209 | a violation is in the uncapped list exactly when the walk reaches a fault of that kind: at a node no deeper than the limit, through declared fields only, under the path spelled by the names and places on the way |
| UciReports.LeafReports | crates/oa-gateway-uci/src/validate/rules.rs:216-341 | of a leaf exactly the lexical refusal, or else exactly the facets it fails, each with the bound it fails |
| UciReports.SequenceReports | crates/oa-gateway-uci/src/validate/rules.rs:112-133 | an element of a sequence is reported missing, too seldom or too often exactly when it is |
| UciReports.ChoiceReports | crates/oa-gateway-uci/src/validate/rules.rs:135-171 | a choice is reported empty exactly when no alternative is there, doubled exactly when two are, naming those there, and overfull exactly when the only one is |
| UciReports.LengthInOctets | crates/oa-gateway-uci/src/validate/rules.rs:347-354 | text let through as hexBinary decodes, and its length is that of the bytes |
| UciReports.RepeatsExactly | crates/oa-gateway-uci/src/schema.rs:266-271 | a name is read as a repetition exactly when its declaration lets it occur twice |
| UciValidate.ChoiceExact | crates/oa-gateway-uci/src/validate/rules.rs:135-171 | a choice is silent exactly when one alternative is present, no more often than its own declaration allows |
| UciValidate.ValueExact | crates/oa-gateway-uci/src/validate/rules.rs:216-341 | a leaf is silent exactly when it is a value of its primitive and passes the merged facets |
| UciValidate.ConformsExactly | crates/oa-gateway-uci/src/validate/rules.rs:40-209 | at any node and depth, no violation is exactly conformance: declared names, occurrence ranges, one branch per choice, concrete types, leaves, depth |
| UciCross.CanonicalExactly | crates/oa-gateway-uci/src/xml.rs:247-268 | a leaf's text survives XML exactly when it has only XML characters, no carriage return and no space around it, and is the one spelling its kind's printer uses |
| UciCross.TypedLeavesAreCanonical | crates/oa-gateway-uci/src/json.rs:149-165 | booleans, and numbers under a type of their own kind, are such text |
| UciCross.ReturnIsLost | crates/oa-gateway-uci/src/xml.rs:371-375 | under a string type every text with a carriage return comes back another text, with line feeds, and an enumeration that lists it alone judges the two differently |
| UciCross.SameViolations | crates/oa-gateway-uci/src/validate/rules.rs:40-341 | what XML keeps of a stable tree has the identical violation list, paths and texts included |
| UciCross.JudgedTheSame | crates/oa-gateway-uci/src/validate/rules.rs:15-341 | a JSON message with stable leaves, no root override and at most 96 levels, written as XML and read back, has the identical violation list |
| Routing.LookupsMatch | crates/oa-gateway-core/src/engine.rs:338-350 | the wildcard set and the exact set together are exactly the subscriptions on the topic whose hint is absent or equal |
| Routing.IndexesAreDetermined | crates/oa-gateway-core/src/engine.rs:105-112 | indexes that agree with the table and hold no empty set are the only ones that do |
| EngineState.Engine.InsertIndex | crates/oa-gateway-core/src/engine.rs:281-297 | files the key under its exact route or its wildcard topic and touches nothing else |
| EngineState.Engine.RemoveSubscription | crates/oa-gateway-core/src/engine.rs:300-332 | takes one key out of every map, and a set, row or topic out once it is empty |
| EngineState.Engine.Subscribe | crates/oa-gateway-core/src/engine.rs:156-180 | adds exactly one entry or reports a duplicate and changes nothing; the indexes keep agreeing |
| EngineState.Engine.Unsubscribe | crates/oa-gateway-core/src/engine.rs:188-199 | removes exactly that entry, or reports that there was none; the indexes keep agreeing |
| EngineState.Engine.DropAdapter | crates/oa-gateway-core/src/engine.rs:206-223 | removes and counts one adapter's entries, those and no others, although the adapter index disagrees during the loop |
| EngineState.Engine.CollectTargets | crates/oa-gateway-core/src/engine.rs:338-359 | as many targets as matching subscriptions, and exactly theirs: every match once, with its own channel and id |
| EngineState.Engine.Publish | crates/oa-gateway-core/src/engine.rs:234-268 | run alone: every match tried once, delivered + dropped = matched, counters grow by that |
| EngineState.EachTakesWhatFits | crates/oa-gateway-core/src/engine.rs:245-254 | a channel keeps what it had and takes, in order, as much of what is sent to it as it has room for |
| Fanout.EachTriedOnce | crates/oa-gateway-core/src/engine.rs:234-268 | in every interleaving a finished publish tried each subscription of its snapshot exactly once and delivered + dropped = matched |
| Fanout.SnapshotMoment | crates/oa-gateway-core/src/engine.rs:237-240 | that snapshot is the table at one moment after the publish began and before its first attempt |
| Fanout.CountersAddUp | crates/oa-gateway-core/src/engine.rs:235-261 | with nothing in flight the global counters sum to all that was matched |
| Fanout.PublishOrderIsKept | crates/oa-gateway-core/src/engine.rs:245-254 | a sequential publisher's envelopes stand in every channel in publish order, and a channel holds of each publish exactly what it accepted |
| Fanout.EntriesStand | crates/oa-gateway-core/src/engine.rs:156-223 | in every run a subscription stays as it was made until it is unsubscribed or its adapter dropped |
| Fanout.NeverOverfull | crates/oa-gateway-core/src/engine.rs:245-254 | in every run no channel holds more than its capacity |
| Fanout.RefusedWhenFull | crates/oa-gateway-core/src/engine.rs:245-254 | in every run an attempt is refused exactly when its channel is gone, closed or full, and an accepted one puts its entry last |
| OwpSession.EngineSubInjective | crates/oa-gateway-owp/src/session.rs:385-385 | `{conn_id}:{sid}` names one connection and one sid |
| OwpSession.Session.HandleText | crates/oa-gateway-owp/src/session.rs:230-293 | unparsed frames are answered and no more; otherwise INIT first and once, or the connection closes with nothing changed; a PUB changes no subscription; a SUB adds exactly the entry for its sid, topic and message name or is refused unchanged, an UNSUB removes exactly its own; the reply in each case; the mirror is kept and no other connection touched |
| OwpSession.Session.HandleInit | crates/oa-gateway-owp/src/session.rs:296-320 | accepted: active and answered; refused: answered and closing |
| OwpSession.Session.HandleSub | crates/oa-gateway-owp/src/session.rs:350-526 | taken sid and full table are refused without change; otherwise map and engine gain the same entry, and the engine never refuses it |
| OwpSession.Session.HandleUnsub | crates/oa-gateway-owp/src/session.rs:529-553 | map and engine lose the same entry, or the sid is refused |
| OwpSession.Session.Drain | crates/oa-gateway-owp/src/session.rs:214-220 | on the way out all of this connection's keys leave the engine, and none of another's |
| OwpSessions.KeysAtBoundaries | crates/oa-gateway-owp/src/session.rs:130-222 | under every interleaving of connections, at handler boundaries the adapter's keys are exactly `{conn_id}:{sid}` over the live maps |
| OwpSessions.ConnectionBounds | crates/oa-gateway-owp/src/session.rs:350-404 | in every state: no key before INIT, never more than the limit, the engine's duplicate error never met |
| OwpSessions.OnlyOwnKeys | crates/oa-gateway-owp/src/session.rs:350-553 | a connection's steps change no other connection's keys and no other adapter's |
| OwpSessions.GoneForGood | crates/oa-gateway-owp/src/server.rs:156-156 | after a connection is gone none of its keys is in the engine, then or ever after |
| OwpSessions.SubAlone | crates/oa-gateway-owp/src/session.rs:350-404 | the steps of an uninterrupted SUB are what the session promises: refused without a trace, or one entry and one sid more |
| OwpSessions.UnsubAlone | crates/oa-gateway-owp/src/session.rs:529-553 | and those of an UNSUB, one entry and one sid fewer |
| OwpSessions.EntriesWereAsked | crates/oa-gateway-owp/src/session.rs:382-396 | in every run an entry routes what its client asked for in a SUB of that sid, into the channel made for it, and stands unchanged from then on |
| BridgeRetry.SubscribeAll | crates/oa-gateway-stomp/src/adapter.rs:161-179 | the topic loop leaves exactly the subscriptions for the topics it reached and never meets a duplicate |
| BridgeRetry.Session | crates/oa-gateway-stomp/src/adapter.rs:147-207 | one session: exactly the configured subscriptions when driving starts, none when it returns, the topics reached if a SUBSCRIBE fails, no other adapter touched |
| BridgeRetry.SubscriptionsInEveryRun | crates/oa-gateway-stomp/src/adapter.rs:99-207 | in every run, failing or panicking anywhere: never a subscription beyond the configured ones, always those for the first so many topics, all of them while driving, no duplicate |
| BridgeRetry.LeftExactly | crates/oa-gateway-stomp/src/adapter.rs:147-207 | in every run, whenever the loop has stopped or no session is past its first `drop_adapter`, the subscriptions are exactly what the last session to get that far left: none after its clean-up, else the topics it had reached |
| BridgeRetry.NoneLeftExactly | crates/oa-gateway-dds/src/adapter.rs:68-109 | and none are left exactly when no session got that far, or the last to do so cleaned up or was cut short before its first subscription, or there are no topics |
| BridgeRetry.StopsWithOneLeft | crates/oa-gateway-stomp/src/adapter.rs:161-179 | with reconnect off and two topics, a run whose second SUBSCRIBE fails ends with the first subscription left |
| BridgeRetry.StopsExactly | crates/oa-gateway-adapter/src/supervise.rs:74-112 | in every run the loop has stopped exactly when a start found shutdown asked for, or a session ended with reconnect off, with shutdown asked for, cancelled or in a panic that is to abort; and with an error exactly when a session failed with reconnect off, or panicked with abort set or reconnect off |
| BridgeRetry.ShutdownIsNoError | crates/oa-gateway-stomp/src/adapter.rs:105-108 | a loop entered after shutdown was asked for starts no session and ends without an error |
| BridgeEcho.NeverOwn | crates/oa-gateway-stomp/src/adapter.rs:356-364 | in every run an adapter with suppression on never writes an envelope that it made of an inbound message itself |
| BridgeEcho.OnlyOwnIsHeldBack | crates/oa-gateway-stomp/src/adapter.rs:356-364 | in every run an envelope is written exactly when it does not carry the adapter's own id or suppression is off, on DDS if its topic is configured |
| BridgeEcho.OthersAreWritten | crates/oa-gateway-dds/src/adapter.rs:140-154 | with distinct ids suppression holds back nothing the other adapter made |
| BridgeEcho.EachStepSpends | crates/oa-gateway-dds/src/adapter.rs:140-198 | every forwarding step strictly lowers one measure, though the broker may reflect a SEND once for every configured topic |
| BridgeEcho.SendsAreBounded | crates/oa-gateway-stomp/src/adapter.rs:302-394 | in every run all sends together are at most a fixed number for each injected message |
| BridgeEcho.QuietRunsEnd | crates/oa-gateway-stomp/src/adapter.rs:302-394 | without further injections a run ends within the measure |
| BridgeEcho.WithoutSuppressionItNeverStops | crates/oa-gateway-stomp/src/adapter.rs:362-364 | with STOMP suppression off, one message on a bridged topic makes any number of sends, in a run where nothing is lost |
| BridgeEcho.DdsWritesBack | crates/oa-gateway-dds/src/adapter.rs:145-147 | with DDS suppression off, DDS writes back a sample it has just read |
| Hex.AgraDecodeHex | crates/oa-gateway-agra/src/lib.rs:471-513 | the streaming loop, with its early size test, computes `AgraHex` |
| Hex.OwpDecodeHex | crates/oa-gateway-owp/src/convert.rs:141-153 | the filter-then-pair loop computes `OwpHex` |
| Hex.EncodeHexUpper | crates/oa-gateway-owp/src/convert.rs:168-176 | two upper-case digits a byte, the high one first |
| Hex.DecodersAgree | crates/oa-gateway-agra/src/lib.rs:471-513 | A-GRA decodes exactly what OWP decodes to at most 8 MiB, and fails on the same shorter texts |
| Hex.DecodersMean | crates/oa-gateway-owp/src/convert.rs:141-165 | either decodes exactly to the bytes the digits spell |
| Hex.DecodeOfEncode | crates/oa-gateway-owp/src/convert.rs:141-176 | both undo the encoder, A-GRA's up to its limit |
| Hex.SpaceIsIgnored | crates/oa-gateway-agra/src/lib.rs:486-489 | white space anywhere changes neither result |
| Hex.NibbleIsPlace | crates/oa-gateway-owp/src/convert.rs:155-165 | a digit is worth its place in the lower- or upper-case alphabet, and nothing else is a digit |
| Hex.CaseIsIgnored | crates/oa-gateway-owp/src/convert.rs:141-165 | the case of digits changes neither result |
| AgraWrapper.UnwrapOfParts | crates/oa-gateway-agra/src/lib.rs:124-306 | every metadata and payload within the limit: peeling the built wrapper gives the same metadata, inner envelope and wrapper; past the limit it is refused |
| AgraWrapper.InnerHeaders | crates/oa-gateway-agra/src/lib.rs:281-306 | the inner envelope's headers carry each field of the metadata, and no header for an absent one |
| AgraWrapper.SampleSurvives | crates/oa-gateway-dds/src/adapter.rs:234-242 | the wrapper envelope, however stamped, gives the original DDS sample back |
| AgraWrapper.PlainSample | crates/oa-gateway-dds/src/adapter.rs:243-261 | a payload that is no wrapper becomes an Rx sample of itself, typed by hint or else topic, without ids, and the wrapper built of it gives it back |
| AgraWrapper.PeeledWasThere | crates/oa-gateway-agra/src/lib.rs:192-244 | what is peeled off a JSON wrapper is what its data object holds, and the bytes its digits spell |
| AgraWrapper.MissingIsNamed | crates/oa-gateway-agra/src/lib.rs:202-207 | a wrapper that lacks something is refused for the first thing it lacks, exactly |
| AgraWrapper.PeeledAlike | crates/oa-gateway-agra/src/lib.rs:179-279 | an XML and a JSON wrapper that hold the same fields fail alike or give the same metadata and inner envelope beside the document they came as |
| AgraWrapper.TakenForJson | crates/oa-gateway-agra/src/lib.rs:427-466 | a printed object with one member is JSON, named by that member |
| StompRelay.FromOfToStomp | crates/oa-gateway-stomp/src/dest.rs:49-60 | a destination leads back to its topic exactly when the topic is not empty and has no leading slash |
| StompRelay.ToOfFromStomp | crates/oa-gateway-stomp/src/dest.rs:49-60 | a destination is the one its topic is sent to exactly when no slash follows the prefix |
| StompRelay.ForwardOutbound | crates/oa-gateway-stomp/src/adapter.rs:356-394 | an own envelope is skipped when suppression is on; any other becomes a SEND with the gateway's headers first and the envelope's public ones after |
| StompRelay.OriginIsOwn | crates/oa-gateway-stomp/src/adapter.rs:366-377 | a SEND carries the sending gateway's id as origin, whatever the envelope's was, and the envelope's id |
| StompRelay.CarriedExactly | crates/oa-gateway-stomp/src/adapter.rs:378-383 | the envelope's own headers are copied exactly unless they are the origin or begin with `stomp.` |
| StompRelay.SentIsRead | crates/oa-gateway-stomp/src/client.rs:146-151 | the bytes of that SEND decode to it, whatever follows, exactly when a content-length among the envelope's own headers, if any, is true |
| StompRelay.InboundOfRelayed | crates/oa-gateway-stomp/src/adapter.rs:302-345 | what any relayed envelope that is not to be unwrapped is published as: topic, hint, content type, payload and origin stamp |
| StompRelay.InboundOfWrapper | crates/oa-gateway-stomp/src/adapter.rs:302-339 | with unwrapping on, any MESSAGE whose body is a wrapper is published as that wrapper and then as what it wraps, on its topic, stamped, the second under headers that say what the wrapper said |
| StompRelay.InboundOfPlain | crates/oa-gateway-stomp/src/adapter.rs:308-344 | any other is published once: on the topic it names or its destination has behind the prefix, with the hint it gives or its body suggests |
| StompRelay.RefusedExactly | crates/oa-gateway-stomp/src/adapter.rs:308-315 | it is refused for its destination exactly when it has none, or names no topic and has nothing behind the prefix |
| StompRelay.UnchangedExactly | crates/oa-gateway-stomp/src/dest.rs:75-123 | a content type arrives unchanged exactly when it is not empty, has no `;` and no space around it; a hint, when it is not empty or there is none to be found |
| StompRelay.RelayedEnvelopesArrive | crates/oa-gateway-stomp/src/adapter.rs:302-394 | envelopes relayed by a broker that keeps headers and body, with heartbeats and any cutting into reads, are each published in order with the same topic, hint, content type and payload |

## Left out

- TLS, sockets, the WebSocket handshake, timeouts, task scheduling, configuration and the command line.
- Liveness of an OWP session: the session task waits on the bounded queue it alone drains, so only safety is stated.
- Wrap-around of 64-bit counters and of the connection number; cancelling a session task from outside OWP's own loop.
- What OWP publishes (`publish_owp`), frame parsing, INFO contents and `SeenRoutes`: easy members beside the session state.
- XML names that cannot be spelled in a tag: `to_xml` copies member names from JSON unescaped, and the XML theorems ask for names that are an `NCName`, as a schema's own names are.
- Attribute defaults, DTDs and namespace prefixes other than `xsi` in what the XML parser makes of a document.
- JSON text: the codecs start from and end in parsed values. Error messages and the paths inside errors are not kept; paths of violations are.
- The compilation of XSD and of pattern facets to regular expressions; calendar and clock checks.
- The A-GRA crate's own copy of the depth scanner, which does not know CDATA, and `wrap`, `element_to_enum` and the reading of XML wrappers, which are parameters.
- UciXmlImage.XmlRoundTrip: asks that the schema's complex types are named by an `NCName`, as XML Schema demands.
- BridgeEcho.SendsAreBounded: follows topic and origin of an envelope only; which messages the adapters refuse for size or schema is a free choice of the step, so the bound holds with and without them.
