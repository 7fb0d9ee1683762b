/** Leaf text: trimming, and integers written as text. */
module UciText {
  import opened Wrappers
  import opened XmlText
  import Decimal

  /** Unicode `White_Space`, which is what `str::trim` removes. */
  predicate IsWhite(c: char) {
    var n := c as int;
    || 0x09 <= n <= 0x0D || n == 0x20 || n == 0x85 || n == 0xA0 || n == 0x1680
    || 0x2000 <= n <= 0x200A || n == 0x2028 || n == 0x2029 || n == 0x202F || n == 0x205F || n == 0x3000
  }

  function TrimStart(s: string): string {
    if s != [] && IsWhite(s[0]) then TrimStart(s[1..]) else s
  }

  function TrimEnd(s: string): string {
    if s != [] && IsWhite(s[|s| - 1]) then TrimEnd(s[..|s| - 1]) else s
  }

  function Trim(s: string): string {
    TrimEnd(TrimStart(s))
  }

  predicate Trimmed(s: string) {
    s == [] || (!IsWhite(s[0]) && !IsWhite(s[|s| - 1]))
  }

  lemma {:induction false} TrimEndKeepsStart(s: string)
    requires s == [] || !IsWhite(s[0])
    ensures Trimmed(TrimEnd(s)) && (TrimEnd(s) != [] ==> TrimEnd(s)[0] == s[0])
  {
    if s != [] && IsWhite(s[|s| - 1]) {
      TrimEndKeepsStart(s[..|s| - 1]);
    }
  }

  lemma {:induction false} TrimStartStarts(s: string)
    ensures TrimStart(s) == [] || !IsWhite(TrimStart(s)[0])
  {
    if s != [] && IsWhite(s[0]) { TrimStartStarts(s[1..]); }
  }

  lemma {:induction false} TrimEndShrinks(s: string)
    ensures |TrimEnd(s)| <= |s|
  {
    if s != [] && IsWhite(s[|s| - 1]) { TrimEndShrinks(s[..|s| - 1]); }
  }

  lemma {:induction false} TrimStartShrinks(s: string)
    ensures |TrimStart(s)| <= |s| && (|TrimStart(s)| == |s| ==> TrimStart(s) == s)
  {
    if s != [] && IsWhite(s[0]) { TrimStartShrinks(s[1..]); }
  }

  /** Trimmed text is exactly what trimming leaves alone, and trimming produces it. */
  lemma TrimMeaning(s: string)
    ensures Trimmed(Trim(s))
    ensures Trim(s) == s <==> Trimmed(s)
  {
    TrimStartStarts(s);
    TrimEndKeepsStart(TrimStart(s));
    TrimEndShrinks(TrimStart(s));
    TrimStartShrinks(s);
  }

  function Codes(s: string): (d: seq<int>)
    ensures |d| == |s|
  {
    seq(|s|, i requires 0 <= i < |s| => s[i] as int)
  }

  predicate Ascii(d: seq<int>) {
    forall i :: 0 <= i < |d| ==> 0 <= d[i] < 128
  }

  function Chars(d: seq<int>): (s: string)
    requires Ascii(d)
    ensures |s| == |d|
  {
    seq(|d|, i requires 0 <= i < |d| => d[i] as char)
  }

  lemma PrintIsAscii(n: int)
    ensures Ascii(Decimal.PrintInt(n))
  {
    var d := Decimal.Print(if n < 0 then -n else n);
    assert forall i :: 0 <= i < |d| ==> Decimal.IsDigit(d[i]);
  }

  /** `n.to_string()`. */
  function Show(n: int): string {
    PrintIsAscii(n);
    Chars(Decimal.PrintInt(n))
  }

  lemma CodesOfShow(n: int)
    ensures Codes(Show(n)) == Decimal.PrintInt(n)
  {
    PrintIsAscii(n);
  }

  lemma ShowIsVisible(n: int)
    ensures Visible(Show(n)) && Trimmed(Show(n))
  {
    var d := Decimal.PrintInt(n);
    var m := Decimal.Print(if n < 0 then -n else n);
    assert forall i :: 0 <= i < |m| ==> Decimal.IsDigit(m[i]);
    PrintIsAscii(n);
    forall i | 0 <= i < |d| ensures '!' <= Show(n)[i] <= '~' {
      assert d[i] == Decimal.MINUS || d[i] in m;
    }
    VisibleIsTame(Show(n));
  }

  lemma VisibleIsTame(s: string)
    requires Visible(s)
    ensures Trimmed(s) && XmlChars(s) && '\r' !in s
  {
  }

  lemma {:induction false} TrimKeepsChars(s: string)
    ensures forall c :: c in Trim(s) ==> c in s
    ensures XmlChars(s) ==> XmlChars(Trim(s))
  {
    TrimStartKeeps(s);
    TrimEndKeeps(TrimStart(s));
    var t := Trim(s);
    if XmlChars(s) {
      forall i | 0 <= i < |t| ensures IsCharCode(t[i] as int) {
        assert t[i] in t;
        var j :| 0 <= j < |s| && s[j] == t[i];
      }
    }
  }

  lemma {:induction false} TrimStartKeeps(s: string)
    ensures forall c :: c in TrimStart(s) ==> c in s
  {
    if s != [] && IsWhite(s[0]) { TrimStartKeeps(s[1..]); }
  }

  lemma {:induction false} TrimEndKeeps(s: string)
    ensures forall c :: c in TrimEnd(s) ==> c in s
  {
    if s != [] && IsWhite(s[|s| - 1]) { TrimEndKeeps(s[..|s| - 1]); }
  }

  /** `text.parse::<i64>()` */
  function ParseI64(s: string): Option<int> {
    Decimal.ParseSigned(Codes(s))
  }

  /** `text.parse::<u64>()` */
  function ParseU64(s: string): Option<nat> {
    Decimal.ParseUnsigned(Codes(s))
  }

  const I128_LIMIT: int := 0x8000_0000_0000_0000_0000_0000_0000_0000

  /** `text.parse::<i128>()` */
  function ParseI128(s: string): Option<int> {
    var r := Decimal.ParseInteger(Codes(s));
    if r.Some? && -I128_LIMIT <= r.value < I128_LIMIT then r else None
  }
}
