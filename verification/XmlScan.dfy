/** The depth scanner that runs before any XML parser does
    (crates/oa-gateway-uci/src/xml.rs, `nesting_exceeds`). It looks only for ASCII
    characters, which UTF-8 never uses inside another character, so characters stand in for
    bytes here. */
module XmlScan {
  import opened Wrappers

  // ---- What the scanner computes -------------------------------------------------------

  /** Offset just past the first `close`, or the length of `body` if there is none. */
  function PastFirst(body: string, close: string): (n: nat)
    requires close != []
    ensures n <= |body|
  {
    if |body| < |close| then |body|
    else if close <= body then |close|
    else 1 + PastFirst(body[1..], close)
  }

  /** `skip_past`: past the first `close` after an `open` at the front, or to the end if there
      is none. */
  function SkipPast(rest: string, open: string, close: string): (r: Option<nat>)
    requires close != []
    ensures r.Some? ==> r.value <= |rest|
  {
    if open <= rest then Some(|open| + PastFirst(rest[|open|..], close)) else None
  }

  /** `scan_start_tag` from inside a tag: how far its first unquoted `>` is, and whether a `/`
      stands before that, when `quote` is open and `prev` has just gone by. */
  function StartTag(rest: string, quote: Option<char>, prev: char): (r: (nat, bool))
    ensures r.0 <= |rest|
  {
    if rest == [] then (0, false)
    else
      var c := rest[0];
      if quote == None && c == '>' then (1, prev == '/')
      else
        var q := if quote.Some? then (if c == quote.value then None else quote)
                 else if c == '"' || c == '\'' then Some(c) else None;
        var r := StartTag(rest[1..], q, c);
        (1 + r.0, r.1)
  }

  /** What one `<` leads to: the limit is passed, or scanning goes on further along. */
  datatype Move = Over | Skip(count: nat, depth: nat)

  /** The move made at a `<` followed by `rest`, with `depth` elements open. */
  function Mark(rest: string, depth: nat, limit: nat): (m: Move)
    ensures m.Skip? ==> m.count <= |rest|
  {
    var comment := SkipPast(rest, "!--", "-->");
    var cdata := SkipPast(rest, "![CDATA[", "]]>");
    var pi := SkipPast(rest, "?", "?>");
    if comment.Some? then Skip(comment.value, depth)
    else if cdata.Some? then Skip(cdata.value, depth)
    else if pi.Some? then Skip(pi.value, depth)
    else if "!" <= rest then Skip(PastFirst(rest, ">"), depth)
    else if "/" <= rest then Skip(PastFirst(rest, ">"), if depth == 0 then 0 else depth - 1)
    else if depth + 1 > limit then Over
    else
      var tag := StartTag(rest, None, '\0');
      Skip(tag.0, if tag.1 then depth else depth + 1)
  }

  /** Whether nesting in `text` exceeds `limit` when `depth` elements are already open. */
  function Exceeds(text: string, depth: nat, limit: nat): bool
    decreases |text|
  {
    if text == [] then false
    else if text[0] != '<' then Exceeds(text[1..], depth, limit)
    else
      var m := Mark(text[1..], depth, limit);
      m.Over? || Exceeds(text[1..][m.count..], m.depth, limit)
  }

  // ---- The loops that compute it -------------------------------------------------------

  /** The state loop of `scan_start_tag`. */
  method ScanStartTag(rest: string) returns (consumed: nat, selfClosing: bool)
    ensures (consumed, selfClosing) == StartTag(rest, None, '\0')
  {
    var i := 0;
    var quote: Option<char> := None;
    var prev := '\0';
    while i < |rest|
      invariant 0 <= i <= |rest|
      invariant var r := StartTag(rest[i..], quote, prev);
                StartTag(rest, None, '\0') == (i + r.0, r.1)
    {
      var c := rest[i];
      assert rest[i..][1..] == rest[i + 1..];
      if quote.Some? {
        if c == quote.value { quote := None; }
      } else if c == '"' || c == '\'' {
        quote := Some(c);
      } else if c == '>' {
        return i + 1, prev == '/';
      }
      prev := c;
      i := i + 1;
    }
    return |rest|, false;
  }

  /** The branches of `nesting_exceeds` at one `<`. */
  method ScanMark(rest: string, depth: nat, limit: nat) returns (m: Move)
    ensures m == Mark(rest, depth, limit)
  {
    var comment := SkipPast(rest, "!--", "-->");
    if comment.Some? { return Skip(comment.value, depth); }
    var cdata := SkipPast(rest, "![CDATA[", "]]>");
    if cdata.Some? { return Skip(cdata.value, depth); }
    var pi := SkipPast(rest, "?", "?>");
    if pi.Some? { return Skip(pi.value, depth); }
    if "!" <= rest { return Skip(PastFirst(rest, ">"), depth); }
    if "/" <= rest { return Skip(PastFirst(rest, ">"), if depth == 0 then 0 else depth - 1); }
    var inside := depth + 1;
    if inside > limit { return Over; }
    var consumed, selfClosing := ScanStartTag(rest);
    if selfClosing { inside := inside - 1; }
    return Skip(consumed, inside);
  }

  lemma ExceedsPlain(text: string, i: nat, depth: nat, limit: nat)
    requires i < |text| && text[i] != '<'
    ensures Exceeds(text[i..], depth, limit) == Exceeds(text[i + 1..], depth, limit)
  {
    assert text[i..][0] == text[i] && text[i..][1..] == text[i + 1..];
  }

  lemma ExceedsMark(text: string, i: nat, depth: nat, limit: nat, m: Move)
    requires i < |text| && text[i] == '<' && Mark(text[i + 1..], depth, limit) == m
    ensures m.Over? ==> Exceeds(text[i..], depth, limit)
    ensures m.Skip? ==> i + 1 + m.count <= |text| && Exceeds(text[i..], depth, limit) == Exceeds(text[i + 1 + m.count..], m.depth, limit)
  {
    assert text[i..][0] == text[i] && text[i..][1..] == text[i + 1..];
    if m.Skip? { assert text[i + 1..][m.count..] == text[i + 1 + m.count..]; }
  }

  /** The scan loop of `nesting_exceeds`. */
  method NestingExceeds(text: string, limit: nat) returns (exceeds: bool)
    ensures exceeds == Exceeds(text, 0, limit)
  {
    var i := 0;
    var depth: nat := 0;
    assert text[0..] == text;
    ghost var answer := Exceeds(text, 0, limit);
    while i < |text|
      invariant 0 <= i <= |text|
      invariant answer == Exceeds(text[i..], depth, limit)
    {
      if text[i] != '<' {
        ExceedsPlain(text, i, depth, limit);
        i := i + 1;
      } else {
        var m := ScanMark(text[i + 1..], depth, limit);
        ExceedsMark(text, i, depth, limit, m);
        if m.Over? { return true; }
        i, depth := i + 1 + m.count, m.depth;
      }
    }
    return false;
  }

  // ---- Documents -----------------------------------------------------------------------

  /** `S Name Eq AttValue` (XML 1.0, section 3.1). */
  datatype Attribute = Attribute(space: string, name: string, eq: string, quote: char, value: string)

  datatype Tag = Tag(name: string, attributes: seq<Attribute>, space: string)

  /** What may stand between a start tag and its end tag, with its spelling. */
  datatype Content =
    | CharData(text: string)
    | Comment(text: string)
    | Instruction(text: string)
    | CData(text: string)
    | Empty(tag: Tag)
    | Element(tag: Tag, content: seq<Content>, endSpace: string)

  datatype Document = Document(prolog: seq<Content>, root: Content, epilog: seq<Content>)

  function RenderAttributes(attributes: seq<Attribute>): string {
    if attributes == [] then ""
    else
      var a := attributes[0];
      a.space + a.name + a.eq + [a.quote] + a.value + [a.quote] + RenderAttributes(attributes[1..])
  }

  /** A start tag between its `<` and its `>` or `/>`. */
  function RenderTag(t: Tag): string {
    t.name + RenderAttributes(t.attributes) + t.space
  }

  function Render(c: Content): string
    decreases c, 0
  {
    match c
    case CharData(text) => text
    case Comment(text) => "<!--" + text + "-->"
    case Instruction(text) => "<?" + text + "?>"
    case CData(text) => "<![CDATA[" + text + "]]>"
    case Empty(tag) => "<" + RenderTag(tag) + "/>"
    case Element(tag, content, endSpace) =>
      "<" + RenderTag(tag) + ">" + RenderAll(content) + "</" + tag.name + endSpace + ">"
  }

  function RenderAll(cs: seq<Content>): string
    decreases cs
  {
    if cs == [] then "" else Render(cs[0]) + RenderAll(cs[1..])
  }

  function RenderDocument(d: Document): string {
    RenderAll(d.prolog + [d.root] + d.epilog)
  }

  /** Number of elements nested in one another, counting this one. */
  function Height(c: Content): nat
    decreases c, 0
  {
    match c
    case Element(_, content, _) => 1 + MaxHeight(content)
    case Empty(_) => 1
    case _ => 0
  }

  function MaxHeight(cs: seq<Content>): nat
    decreases cs
  {
    if cs == [] then 0
    else
      var first, rest := Height(cs[0]), MaxHeight(cs[1..]);
      if first > rest then first else rest
  }

  /** No character that means something inside a start tag. */
  predicate Plain(s: string) {
    forall i :: 0 <= i < |s| ==> s[i] !in {'<', '>', '/', '"', '\''}
  }

  predicate IsName(s: string) {
    s != [] && Plain(s) && s[0] != '!' && s[0] != '?'
  }

  predicate OccursAt(s: string, part: string, i: nat) {
    i <= |s| && part <= s[i..]
  }

  predicate Occurs(s: string, part: string) {
    exists i: nat :: i <= |s| && OccursAt(s, part, i)
  }

  predicate SoundAttribute(a: Attribute) {
    && Plain(a.space) && Plain(a.name) && Plain(a.eq)
    && (a.quote == '"' || a.quote == '\'')
    && a.quote !in a.value
  }

  predicate SoundTag(t: Tag) {
    && IsName(t.name)
    && (forall i :: 0 <= i < |t.attributes| ==> SoundAttribute(t.attributes[i]))
    && Plain(t.space)
  }

  /** The lexical rules of XML 1.0, sections 2.4 to 2.7 and 3.1, that keep markup apart;
      every well-formed document without a DTD obeys them. */
  predicate Sound(c: Content)
    decreases c, 0
  {
    match c
    case CharData(text) => '<' !in text
    case Comment(text) => !Occurs(text, "--") && (text != [] ==> text[|text| - 1] != '-')
    case Instruction(text) => !Occurs(text, "?>")
    case CData(text) => !Occurs(text, "]]>")
    case Empty(tag) => SoundTag(tag)
    case Element(tag, content, endSpace) => SoundTag(tag) && SoundAll(content) && Plain(endSpace)
  }

  predicate SoundAll(cs: seq<Content>)
    decreases cs
  {
    forall i :: 0 <= i < |cs| ==> Sound(cs[i])
  }

  /** One root element, and nothing but comments, instructions and space around it. */
  predicate SoundDocument(d: Document) {
    && Sound(d.root) && (d.root.Element? || d.root.Empty?)
    && (forall i :: 0 <= i < |d.prolog| ==> Sound(d.prolog[i]) && Height(d.prolog[i]) == 0)
    && (forall i :: 0 <= i < |d.epilog| ==> Sound(d.epilog[i]) && Height(d.epilog[i]) == 0)
  }

  function Depth(d: Document): nat {
    Height(d.root)
  }

  // ---- Skipping one construct ----------------------------------------------------------

  lemma {:induction false} PastFirstAt(text: string, close: string, rest: string)
    requires close != []
    requires forall i :: 0 <= i < |text| ==> !(close <= (text + close + rest)[i..])
    ensures PastFirst(text + close + rest, close) == |text| + |close|
  {
    var s := text + close + rest;
    if text == [] {
      assert s == close + rest;
    } else {
      assert s[0..] == s;
      assert s[1..] == text[1..] + close + rest;
      forall i | 0 <= i < |text[1..]|
        ensures !(close <= (text[1..] + close + rest)[i..])
      {
        assert s[1..][i..] == s[i + 1..];
      }
      PastFirstAt(text[1..], close, rest);
    }
  }

  lemma CommentEnds(text: string, rest: string)
    requires Sound(Comment(text))
    ensures PastFirst(text + "-->" + rest, "-->") == |text| + 3
  {
    var s := text + "-->" + rest;
    forall i | 0 <= i < |text|
      ensures !("-->" <= s[i..])
    {
      assert !OccursAt(text, "--", i);
      assert s[i..][0] == s[i] == text[i] == text[i..][0];
      assert i + 1 < |text| ==> s[i..][1] == s[i + 1] == text[i + 1] == text[i..][1];
    }
    PastFirstAt(text, "-->", rest);
  }

  lemma InstructionEnds(text: string, rest: string)
    requires Sound(Instruction(text))
    ensures PastFirst(text + "?>" + rest, "?>") == |text| + 2
  {
    var s := text + "?>" + rest;
    forall i | 0 <= i < |text|
      ensures !("?>" <= s[i..])
    {
      assert !OccursAt(text, "?>", i);
      assert s[i..][0] == s[i] == text[i] == text[i..][0];
      assert s[i..][1] == s[i + 1];
      assert i + 1 < |text| ==> s[i + 1] == text[i + 1] == text[i..][1];
    }
    PastFirstAt(text, "?>", rest);
  }

  lemma CDataEnds(text: string, rest: string)
    requires Sound(CData(text))
    ensures PastFirst(text + "]]>" + rest, "]]>") == |text| + 3
  {
    var s := text + "]]>" + rest;
    forall i | 0 <= i < |text|
      ensures !("]]>" <= s[i..])
    {
      assert !OccursAt(text, "]]>", i);
      assert s[i..][0] == s[i] == text[i] == text[i..][0];
      assert s[i..][1] == s[i + 1] && s[i..][2] == s[i + 2];
      assert i + 1 < |text| ==> s[i + 1] == text[i + 1] == text[i..][1];
      assert i + 2 < |text| ==> s[i + 2] == text[i + 2] == text[i..][2];
    }
    PastFirstAt(text, "]]>", rest);
  }

  lemma EndTagEnds(inside: string, rest: string)
    requires Plain(inside)
    ensures PastFirst("/" + inside + ">" + rest, ">") == |inside| + 2
  {
    var text := "/" + inside;
    var s := text + ">" + rest;
    forall i | 0 <= i < |text|
      ensures !(">" <= s[i..])
    {
      assert s[i..][0] == s[i] == text[i];
      if i > 0 { assert text[i] == inside[i - 1]; }
    }
    PastFirstAt(text, ">", rest);
  }

  // ---- Scanning a start tag ------------------------------------------------------------

  function Last(s: string, prev: char): char {
    if s == [] then prev else s[|s| - 1]
  }

  /** Outside quotes, plain characters are passed over. */
  lemma {:induction false} PlainRun(s: string, rest: string, prev: char)
    requires Plain(s)
    ensures var r := StartTag(rest, None, Last(s, prev));
            StartTag(s + rest, None, prev) == (|s| + r.0, r.1)
  {
    if s == [] {
      assert s + rest == rest;
    } else {
      assert (s + rest)[1..] == s[1..] + rest;
      assert forall i :: 0 <= i < |s[1..]| ==> s[1..][i] == s[i + 1];
      PlainRun(s[1..], rest, s[0]);
    }
  }

  /** Inside quotes everything up to the closing quote is passed over, `>` included. */
  lemma {:induction false} QuotedRun(q: char, v: string, rest: string, prev: char)
    requires q !in v
    ensures var r := StartTag(rest, None, q);
            StartTag(v + [q] + rest, Some(q), prev) == (|v| + 1 + r.0, r.1)
  {
    var s := v + [q] + rest;
    if v == [] {
      assert s[1..] == rest;
    } else {
      assert s[1..] == v[1..] + [q] + rest;
      QuotedRun(q, v[1..], rest, v[0]);
    }
  }

  lemma AttributeRun(a: Attribute, rest: string, prev: char)
    requires SoundAttribute(a)
    ensures var spelled := a.space + a.name + a.eq + [a.quote] + a.value + [a.quote];
            var r := StartTag(rest, None, a.quote);
            StartTag(spelled + rest, None, prev) == (|spelled| + r.0, r.1)
  {
    var before := a.space + a.name + a.eq;
    var after := a.value + [a.quote] + rest;
    var spelled := before + [a.quote] + a.value + [a.quote];
    assert spelled + rest == before + ([a.quote] + after);
    PlainRun(before, [a.quote] + after, prev);
    assert ([a.quote] + after)[1..] == after;
    QuotedRun(a.quote, a.value, rest, a.quote);
  }

  lemma SpelledAttributes(attributes: seq<Attribute>, rest: string)
    requires attributes != []
    ensures var a := attributes[0];
            RenderAttributes(attributes) + rest ==
            a.space + a.name + a.eq + [a.quote] + a.value + [a.quote] + (RenderAttributes(attributes[1..]) + rest)
  {
  }

  lemma {:induction false} AttributesRun(attributes: seq<Attribute>, rest: string, prev: char) returns (last: char)
    requires forall i :: 0 <= i < |attributes| ==> SoundAttribute(attributes[i])
    requires prev != '/'
    ensures last != '/'
    ensures var r := StartTag(rest, None, last);
            StartTag(RenderAttributes(attributes) + rest, None, prev) == (|RenderAttributes(attributes)| + r.0, r.1)
  {
    if attributes == [] {
      assert RenderAttributes(attributes) + rest == rest;
      last := prev;
    } else {
      var a, more := attributes[0], attributes[1..];
      assert forall i :: 0 <= i < |more| ==> more[i] == attributes[i + 1];
      SpelledAttributes(attributes, rest);
      assert SoundAttribute(attributes[0]);
      AttributeRun(a, RenderAttributes(more) + rest, prev);
      last := AttributesRun(more, rest, a.quote);
    }
  }

  /** A whole tag is passed over whatever its attribute values hold. */
  lemma TagRun(t: Tag, rest: string) returns (last: char)
    requires SoundTag(t)
    ensures last != '/'
    ensures var r := StartTag(rest, None, last);
            StartTag(RenderTag(t) + rest, None, '\0') == (|RenderTag(t)| + r.0, r.1)
  {
    var attrs := RenderAttributes(t.attributes);
    assert RenderTag(t) + rest == t.name + (attrs + (t.space + rest));
    PlainRun(t.name, attrs + (t.space + rest), '\0');
    assert t.name[|t.name| - 1] != '/';
    last := AttributesRun(t.attributes, t.space + rest, Last(t.name, '\0'));
    PlainRun(t.space, rest, last);
    last := Last(t.space, last);
  }

  lemma TagScan(t: Tag, rest: string)
    requires SoundTag(t)
    ensures StartTag(RenderTag(t) + (">" + rest), None, '\0') == (|RenderTag(t)| + 1, false)
    ensures StartTag(RenderTag(t) + ("/>" + rest), None, '\0') == (|RenderTag(t)| + 2, true)
  {
    var last := TagRun(t, ">" + rest);
    last := TagRun(t, "/>" + rest);
    var s := "/>" + rest;
    assert s[0] == '/' && s[1..][0] == '>';
  }

  // ---- Scanning a tree -----------------------------------------------------------------

  lemma {:induction false} TextScan(text: string, rest: string, depth: nat, limit: nat)
    requires '<' !in text
    ensures Exceeds(text + rest, depth, limit) == Exceeds(rest, depth, limit)
  {
    if text == [] {
      assert text + rest == rest;
    } else {
      assert (text + rest)[1..] == text[1..] + rest;
      TextScan(text[1..], rest, depth, limit);
    }
  }

  /** A `<` that opens `body` moves past it: `body` is what one move consumes. */
  lemma MarkScan(body: string, rest: string, depth: nat, limit: nat, m: Move)
    requires Mark(body + rest, depth, limit) == m && m.Skip? && m.count == |body|
    ensures Exceeds("<" + body + rest, depth, limit) == Exceeds(rest, m.depth, limit)
  {
    var s := "<" + body + rest;
    assert s[0] == '<' && s[1..] == body + rest;
    assert (body + rest)[|body|..] == rest;
  }

  lemma CommentMark(text: string, rest: string, depth: nat, limit: nat)
    requires Sound(Comment(text))
    ensures Mark("!--" + text + "-->" + rest, depth, limit) == Skip(|text| + 6, depth)
  {
    var body := "!--" + text + "-->" + rest;
    assert body[3..] == text + "-->" + rest;
    assert "!--" <= body;
    CommentEnds(text, rest);
  }

  lemma CommentSpelling(text: string, rest: string)
    ensures Render(Comment(text)) + rest == "<" + ("!--" + text + "-->") + rest
    ensures |"!--" + text + "-->"| == |text| + 6
  {
    assert "<!--" == "<" + "!--";
    assert "<" + "!--" + text + "-->" == "<" + ("!--" + text + "-->");
  }

  lemma CommentScan(text: string, rest: string, depth: nat, limit: nat)
    requires Sound(Comment(text))
    ensures Exceeds(Render(Comment(text)) + rest, depth, limit) == Exceeds(rest, depth, limit)
  {
    CommentSpelling(text, rest);
    CommentMark(text, rest, depth, limit);
    MarkScan("!--" + text + "-->", rest, depth, limit, Skip(|text| + 6, depth));
  }

  lemma CDataMark(rest: string, depth: nat, limit: nat)
    requires "![CDATA[" <= rest
    ensures Mark(rest, depth, limit) == Skip(8 + PastFirst(rest[8..], "]]>"), depth)
  {
    assert rest[1] == "![CDATA["[1];
  }

  lemma CDataSpelling(text: string, rest: string)
    ensures Render(CData(text)) + rest == "<" + ("![CDATA[" + text + "]]>") + rest
    ensures ("![CDATA[" + text + "]]>") + rest == "![CDATA[" + (text + "]]>" + rest)
    ensures |"![CDATA[" + text + "]]>"| == 8 + |text| + 3
  {
    assert "<![CDATA[" == "<" + "![CDATA[";
    assert "<" + "![CDATA[" + text + "]]>" == "<" + ("![CDATA[" + text + "]]>");
  }

  lemma CDataScan(text: string, rest: string, depth: nat, limit: nat)
    requires Sound(CData(text))
    ensures Exceeds(Render(CData(text)) + rest, depth, limit) == Exceeds(rest, depth, limit)
  {
    var body, after := "![CDATA[" + text + "]]>", text + "]]>" + rest;
    CDataSpelling(text, rest);
    CDataEnds(text, rest);
    CDataBody(body, after, rest, depth, limit);
  }

  lemma CDataBody(body: string, after: string, rest: string, depth: nat, limit: nat)
    requires body + rest == "![CDATA[" + after && PastFirst(after, "]]>") == |body| - 8
    ensures Exceeds("<" + body + rest, depth, limit) == Exceeds(rest, depth, limit)
  {
    assert ("![CDATA[" + after)[8..] == after;
    CDataMark(body + rest, depth, limit);
    MarkScan(body, rest, depth, limit, Skip(|body|, depth));
  }

  lemma InstructionMark(text: string, rest: string, depth: nat, limit: nat)
    requires Sound(Instruction(text))
    ensures Mark("?" + text + "?>" + rest, depth, limit) == Skip(|text| + 3, depth)
  {
    var body := "?" + text + "?>" + rest;
    assert body[1..] == text + "?>" + rest;
    assert body[0] == '?' && "?" <= body;
    InstructionEnds(text, rest);
  }

  lemma InstructionSpelling(text: string, rest: string)
    ensures Render(Instruction(text)) + rest == "<" + ("?" + text + "?>") + rest
    ensures |"?" + text + "?>"| == |text| + 3
  {
    assert "<?" == "<" + "?";
    assert "<" + "?" + text + "?>" == "<" + ("?" + text + "?>");
  }

  lemma InstructionScan(text: string, rest: string, depth: nat, limit: nat)
    requires Sound(Instruction(text))
    ensures Exceeds(Render(Instruction(text)) + rest, depth, limit) == Exceeds(rest, depth, limit)
  {
    InstructionSpelling(text, rest);
    InstructionMark(text, rest, depth, limit);
    MarkScan("?" + text + "?>", rest, depth, limit, Skip(|text| + 3, depth));
  }

  lemma EndTagMark(inside: string, rest: string, depth: nat, limit: nat)
    requires Plain(inside) && depth > 0
    ensures Mark("/" + inside + ">" + rest, depth, limit) == Skip(|inside| + 2, depth - 1)
  {
    var body := "/" + inside + ">" + rest;
    assert body[0] == '/' && "/" <= body;
    EndTagEnds(inside, rest);
  }

  lemma EndTagSpelling(name: string, space: string, rest: string)
    ensures "</" + name + space + ">" + rest == "<" + ("/" + (name + space) + ">") + rest
    ensures |"/" + (name + space) + ">"| == |name + space| + 2
  {
    assert "</" == "<" + "/";
    assert "<" + "/" + name + space + ">" == "<" + ("/" + (name + space) + ">");
  }

  lemma EndTagScan(name: string, space: string, rest: string, depth: nat, limit: nat)
    requires Plain(name) && Plain(space) && depth > 0
    ensures Exceeds("</" + name + space + ">" + rest, depth, limit) == Exceeds(rest, depth - 1, limit)
  {
    EndTagSpelling(name, space, rest);
    EndTagMark(name + space, rest, depth, limit);
    MarkScan("/" + (name + space) + ">", rest, depth, limit, Skip(|name + space| + 2, depth - 1));
  }

  lemma StartMark(t: Tag, close: string, rest: string, depth: nat, limit: nat)
    requires SoundTag(t) && (close == ">" || close == "/>")
    ensures Mark(RenderTag(t) + close + rest, depth, limit) ==
            if depth + 1 > limit then Over else Skip(|RenderTag(t) + close|, if close == "/>" then depth else depth + 1)
  {
    var s := RenderTag(t) + close + rest;
    TagScan(t, rest);
    assert s == RenderTag(t) + (close + rest);
    assert s[0] == t.name[0];
  }

  lemma OverScan(body: string, depth: nat, limit: nat)
    requires Mark(body, depth, limit).Over?
    ensures Exceeds("<" + body, depth, limit)
  {
    var s := "<" + body;
    assert s[0] == '<' && s[1..] == body;
  }

  /** At a start tag the depth goes up by one, and back down if the tag closes itself. */
  lemma StartScan(t: Tag, close: string, rest: string, depth: nat, limit: nat)
    requires SoundTag(t) && (close == ">" || close == "/>")
    ensures Exceeds("<" + RenderTag(t) + close + rest, depth, limit) ==
            (depth + 1 > limit || Exceeds(rest, if close == "/>" then depth else depth + 1, limit))
  {
    var body := RenderTag(t) + close;
    StartMark(t, close, rest, depth, limit);
    StartSpelling("<", RenderTag(t), close, rest);
    if depth + 1 > limit {
      OverScan(body + rest, depth, limit);
    } else {
      MarkScan(body, rest, depth, limit, Skip(|body|, if close == "/>" then depth else depth + 1));
    }
  }

  lemma StartSpelling(open: string, tag: string, close: string, rest: string)
    ensures open + tag + close + rest == open + (tag + close) + rest == open + ((tag + close) + rest)
  {
  }

  lemma SpelledEmpty(tag: Tag, rest: string)
    ensures Render(Empty(tag)) + rest == "<" + RenderTag(tag) + "/>" + rest
  {
  }

  lemma SpelledElement(tag: Tag, content: seq<Content>, endSpace: string, rest: string)
    ensures Render(Element(tag, content, endSpace)) + rest ==
            "<" + RenderTag(tag) + ">" + (RenderAll(content) + ("</" + tag.name + endSpace + ">" + rest))
  {
  }

  /** Scanning past any piece of content: the answer is yes if the piece itself is too
      tall for where it stands, and otherwise whatever follows decides. */
  lemma {:induction false} ContentScan(c: Content, rest: string, depth: nat, limit: nat)
    requires Sound(c) && depth <= limit
    ensures Exceeds(Render(c) + rest, depth, limit) == (depth + Height(c) > limit || Exceeds(rest, depth, limit))
    decreases c, 0
  {
    match c
    case CharData(text) => TextScan(text, rest, depth, limit);
    case Comment(text) => CommentScan(text, rest, depth, limit);
    case Instruction(text) => InstructionScan(text, rest, depth, limit);
    case CData(text) => CDataScan(text, rest, depth, limit);
    case Empty(tag) =>
      SpelledEmpty(tag, rest);
      StartScan(tag, "/>", rest, depth, limit);
    case Element(tag, content, endSpace) => ElementScan(tag, content, endSpace, rest, depth, limit);
  }

  lemma {:induction false} ElementScan(tag: Tag, content: seq<Content>, endSpace: string, rest: string, depth: nat, limit: nat)
    requires SoundTag(tag) && SoundAll(content) && Plain(endSpace) && depth <= limit
    ensures Exceeds(Render(Element(tag, content, endSpace)) + rest, depth, limit) ==
            (depth + 1 + MaxHeight(content) > limit || Exceeds(rest, depth, limit))
    decreases content, 1
  {
    var end := "</" + tag.name + endSpace + ">" + rest;
    SpelledElement(tag, content, endSpace, rest);
    StartScan(tag, ">", RenderAll(content) + end, depth, limit);
    if depth + 1 <= limit {
      AllScan(content, end, depth + 1, limit);
      EndTagScan(tag.name, endSpace, rest, depth + 1, limit);
    }
  }

  lemma {:induction false} AllScan(cs: seq<Content>, rest: string, depth: nat, limit: nat)
    requires SoundAll(cs) && depth <= limit
    ensures Exceeds(RenderAll(cs) + rest, depth, limit) == (depth + MaxHeight(cs) > limit || Exceeds(rest, depth, limit))
    decreases cs, 0
  {
    if cs == [] {
      assert RenderAll(cs) + rest == rest;
    } else {
      assert forall i :: 0 <= i < |cs[1..]| ==> cs[1..][i] == cs[i + 1];
      assert RenderAll(cs) + rest == Render(cs[0]) + (RenderAll(cs[1..]) + rest);
      ContentScan(cs[0], RenderAll(cs[1..]) + rest, depth, limit);
      AllScan(cs[1..], rest, depth, limit);
    }
  }

  lemma {:induction false} MaxHeightAppend(a: seq<Content>, b: seq<Content>)
    ensures MaxHeight(a + b) == if MaxHeight(a) > MaxHeight(b) then MaxHeight(a) else MaxHeight(b)
  {
    if a == [] {
      assert a + b == b;
    } else {
      assert (a + b)[1..] == a[1..] + b;
      MaxHeightAppend(a[1..], b);
    }
  }

  lemma {:induction false} FlatHeight(cs: seq<Content>)
    requires forall i :: 0 <= i < |cs| ==> Height(cs[i]) == 0
    ensures MaxHeight(cs) == 0
  {
    if cs != [] {
      assert forall i :: 0 <= i < |cs[1..]| ==> cs[1..][i] == cs[i + 1];
      FlatHeight(cs[1..]);
    }
  }

  /** On every sound document the scanner's answer is the tree's: it says yes exactly when
      elements nest deeper than the limit. */
  lemma ScanIsExact(d: Document, limit: nat)
    requires SoundDocument(d)
    ensures Exceeds(RenderDocument(d), 0, limit) <==> Depth(d) > limit
  {
    var cs := d.prolog + [d.root] + d.epilog;
    assert RenderAll(cs) + "" == RenderAll(cs);
    forall i | 0 <= i < |cs|
      ensures Sound(cs[i])
    {
      if i < |d.prolog| { assert cs[i] == d.prolog[i]; }
      else if i > |d.prolog| { assert cs[i] == d.epilog[i - |d.prolog| - 1]; }
    }
    AllScan(cs, "", 0, limit);
    FlatHeight(d.prolog);
    FlatHeight(d.epilog);
    assert [d.root][1..] == [];
    MaxHeightAppend(d.prolog + [d.root], d.epilog);
    MaxHeightAppend(d.prolog, [d.root]);
  }

  // ---- What well-formed documents without a DTD do not hold ----------------------------

  lemma DeclarationEnds(decl: string, rest: string)
    requires '>' !in decl
    ensures PastFirst("!" + decl + ">" + rest, ">") == |decl| + 2
  {
    var text := "!" + decl;
    var s := text + ">" + rest;
    forall i | 0 <= i < |text| ensures !(">" <= s[i..]) {
      assert s[i..][0] == s[i] == text[i];
      if i > 0 { assert text[i] == decl[i - 1] && decl[i - 1] in decl; }
    }
    PastFirstAt(text, ">", rest);
  }

  /** A markup declaration is passed over up to its first `>`, whatever its quotes. */
  lemma DeclarationIsSkipped(decl: string, rest: string, depth: nat, limit: nat)
    requires '>' !in decl && !("!--" <= "!" + decl + ">" + rest) && !("![CDATA[" <= "!" + decl + ">" + rest)
    ensures Exceeds("<" + ("!" + decl + ">") + rest, depth, limit) == Exceeds(rest, depth, limit)
  {
    var body := "!" + decl + ">" + rest;
    assert body[0] == '!' && "!" <= body && !("?" <= body);
    DeclarationEnds(decl, rest);
    MarkScan("!" + decl + ">", rest, depth, limit, Skip(|decl| + 2, depth));
  }

  /** An end tag with nothing open does not make room for another level. */
  lemma StrayEndTag(inside: string, rest: string, limit: nat)
    requires Plain(inside)
    ensures Exceeds("<" + ("/" + inside + ">") + rest, 0, limit) == Exceeds(rest, 0, limit)
  {
    var body := "/" + inside + ">" + rest;
    assert body[0] == '/' && "/" <= body;
    EndTagEnds(inside, rest);
    MarkScan("/" + inside + ">", rest, 0, limit, Skip(|inside| + 2, 0));
  }
}
