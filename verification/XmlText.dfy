/** Characters, names, line ends and references, as an XML parser treats them (XML 1.0,
    sections 2.2, 2.3, 2.11, 3.3.3 and 4.1; Namespaces in XML 1.0, section 4). */
module XmlText {
  import opened Wrappers

  // ---- Characters ----------------------------------------------------------------------

  /** `Char` */
  predicate IsCharCode(n: int) {
    n == 0x9 || n == 0xA || n == 0xD || 0x20 <= n <= 0xD7FF || 0xE000 <= n <= 0xFFFD || 0x10000 <= n <= 0x10FFFF
  }

  predicate XmlChars(s: string) {
    forall i :: 0 <= i < |s| ==> IsCharCode(s[i] as int)
  }

  /** Printable ASCII, no space. */
  predicate Visible(s: string) {
    forall i :: 0 <= i < |s| ==> '!' <= s[i] <= '~'
  }

  predicate IsSpaceChar(c: char) {
    c == ' ' || c == '\t' || c == '\n' || c == '\r'
  }

  predicate AllSpace(s: string) {
    forall i :: 0 <= i < |s| ==> IsSpaceChar(s[i])
  }

  // ---- Names ---------------------------------------------------------------------------

  /** `NameStartChar` without the colon. */
  predicate NameStart(c: char) {
    var n := c as int;
    || 'A' <= c <= 'Z' || c == '_' || 'a' <= c <= 'z'
    || 0xC0 <= n <= 0xD6 || 0xD8 <= n <= 0xF6 || 0xF8 <= n <= 0x2FF || 0x370 <= n <= 0x37D || 0x37F <= n <= 0x1FFF
    || 0x200C <= n <= 0x200D || 0x2070 <= n <= 0x218F || 0x2C00 <= n <= 0x2FEF || 0x3001 <= n <= 0xD7FF
    || 0xF900 <= n <= 0xFDCF || 0xFDF0 <= n <= 0xFFFD || 0x10000 <= n <= 0xEFFFF
  }

  /** `NameChar` without the colon. */
  predicate NameChar(c: char) {
    var n := c as int;
    NameStart(c) || c == '-' || c == '.' || '0' <= c <= '9' || n == 0xB7 || 0x300 <= n <= 0x36F || 0x203F <= n <= 0x2040
  }

  predicate IsNcName(s: string) {
    s != [] && NameStart(s[0]) && forall i :: 0 <= i < |s| ==> NameChar(s[i])
  }

  /** A name, or a prefix and a name. */
  predicate IsQName(q: string) {
    IsNcName(q) || exists i :: 0 <= i < |q| && q[i] == ':' && IsNcName(q[..i]) && IsNcName(q[i + 1..])
  }

  lemma NameCharIsTame(c: char)
    requires NameChar(c)
    ensures c !in {'<', '>', '/', '"', '\'', '&', ':', '!', '?', '=', ' ', '\t', '\n', '\r'}
    ensures IsCharCode(c as int)
  {
  }

  lemma NcNameIsTame(s: string)
    requires IsNcName(s)
    ensures XmlChars(s) && ':' !in s && '&' !in s && '<' !in s
    ensures forall i :: 0 <= i < |s| ==> s[i] !in {'<', '>', '/', '"', '\'', '!', '?', ' ', '\t', '\n', '\r'}
  {
    forall i | 0 <= i < |s|
      ensures s[i] !in {'<', '>', '/', '"', '\'', '&', ':', '!', '?', ' ', '\t', '\n', '\r'} && IsCharCode(s[i] as int)
    {
      NameCharIsTame(s[i]);
    }
  }

  // ---- Line ends -----------------------------------------------------------------------

  /** CR LF, and CR alone, become LF. */
  function Eol(s: string): string {
    if s == [] then []
    else if s[0] != '\r' then [s[0]] + Eol(s[1..])
    else if |s| > 1 && s[1] == '\n' then ['\n'] + Eol(s[2..])
    else ['\n'] + Eol(s[1..])
  }

  lemma {:induction false} EolHasNoReturn(s: string)
    ensures '\r' !in Eol(s)
    ensures XmlChars(s) ==> XmlChars(Eol(s))
  {
    if s != [] {
      EolHasNoReturn(s[1..]);
      if |s| > 1 { EolHasNoReturn(s[2..]); }
    }
  }

  /** Line ends are all that changes. */
  lemma {:induction false} EolFixed(s: string)
    ensures Eol(s) == s <==> '\r' !in s
  {
    if '\r' in s {
      EolHasNoReturn(s);
    } else if s != [] {
      EolFixed(s[1..]);
    }
  }

  /** White space in an attribute value is space. */
  function Spaced(s: string): string {
    if s == [] then [] else [if IsSpaceChar(s[0]) then ' ' else s[0]] + Spaced(s[1..])
  }

  lemma {:induction false} SpacedFixed(s: string)
    requires forall i :: 0 <= i < |s| ==> !IsSpaceChar(s[i])
    ensures Spaced(s) == s
  {
    if s != [] { SpacedFixed(s[1..]); }
  }

  // ---- References ----------------------------------------------------------------------

  /** A reference: how long it is, and the character it stands for. */
  datatype Ref = Ref(length: nat, c: char)

  function DigitValue(c: char, base: nat): Option<nat> {
    if '0' <= c <= '9' then Some(c as int - '0' as int)
    else if base == 16 && 'a' <= c <= 'f' then Some(c as int - 'a' as int + 10)
    else if base == 16 && 'A' <= c <= 'F' then Some(c as int - 'A' as int + 10)
    else None
  }

  /** How many digits the text begins with, and what they come to. */
  function Leading(text: string, base: nat, value: nat): (r: (nat, nat))
    ensures r.0 <= |text|
    decreases |text|
  {
    if text == [] || DigitValue(text[0], base).None? then (0, value)
    else
      var rest := Leading(text[1..], base, value * base + DigitValue(text[0], base).value);
      (rest.0 + 1, rest.1)
  }

  function CharRef(text: string, base: nat, start: nat): (r: Option<Ref>)
    requires 1 < start <= |text|
    ensures r.Some? ==> 1 < r.value.length <= |text| && IsCharCode(r.value.c as int)
  {
    var d := Leading(text[start..], base, 0);
    var end := start + d.0;
    if d.0 > 0 && end < |text| && text[end] == ';' && IsCharCode(d.1) then Some(Ref(end + 1, d.1 as char)) else None
  }

  /** The five predefined entities, and character references to legal characters. */
  function Reference(text: string): (r: Option<Ref>)
    ensures r.Some? ==> 1 < r.value.length <= |text| && IsCharCode(r.value.c as int)
  {
    if "&amp;" <= text then Some(Ref(5, '&'))
    else if "&lt;" <= text then Some(Ref(4, '<'))
    else if "&gt;" <= text then Some(Ref(4, '>'))
    else if "&quot;" <= text then Some(Ref(6, '"'))
    else if "&apos;" <= text then Some(Ref(6, '\''))
    else if "&#x" <= text then CharRef(text, 16, 3)
    else if "&#" <= text then CharRef(text, 10, 2)
    else None
  }

  /** Every ampersand begins a reference. */
  predicate RefsOk(text: string)
    decreases |text|
  {
    if text == [] then true
    else if text[0] != '&' then RefsOk(text[1..])
    else Reference(text).Some? && RefsOk(text[Reference(text).value.length..])
  }

  /** References replaced by what they stand for. */
  function Resolve(text: string): string
    decreases |text|
  {
    if text == [] then []
    else if text[0] == '&' && Reference(text).Some? then
      [Reference(text).value.c] + Resolve(text[Reference(text).value.length..])
    else [text[0]] + Resolve(text[1..])
  }

  lemma {:induction false} ResolveKeepsChars(text: string)
    requires XmlChars(text)
    ensures XmlChars(Resolve(text))
    decreases |text|
  {
    if text != [] {
      if text[0] == '&' && Reference(text).Some? {
        ResolveKeepsChars(text[Reference(text).value.length..]);
      } else {
        ResolveKeepsChars(text[1..]);
      }
    }
  }

  lemma {:induction false} ResolveOfPlain(s: string)
    requires '&' !in s
    ensures Resolve(s) == s && RefsOk(s)
  {
    if s != [] {
      assert s[0] in s;
      ResolveOfPlain(s[1..]);
    }
  }
}
