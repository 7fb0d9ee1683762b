/** The two hexBinary decoders: the streaming one of crates/oa-gateway-agra/src/lib.rs and
    the filter-then-pair one of crates/oa-gateway-owp/src/convert.rs. */
module Hex {
  import opened Wrappers
  import opened Utf8

  const MAX_DECODED_PAYLOAD: nat := 8 * 1024 * 1024

  datatype HexError = BadHex | PayloadTooLarge

  /** `is_ascii_whitespace` */
  predicate IsSpace(b: byte) {
    b == 0x20 || b == 0x09 || b == 0x0A || b == 0x0C || b == 0x0D
  }

  /** `hex_nibble` */
  function Nibble(b: byte): (r: Option<nat>)
    ensures r.Some? ==> r.value < 16
  {
    if 48 <= b <= 57 then Some(b - 48)
    else if 97 <= b <= 102 then Some(b - 87)
    else if 65 <= b <= 70 then Some(b - 55)
    else None
  }

  /** The text without its white space. */
  function Strip(s: Text): (r: Text)
    ensures |r| <= |s|
  {
    if s == [] then [] else if IsSpace(s[0]) then Strip(s[1..]) else [s[0]] + Strip(s[1..])
  }

  // ---- What digits spell ---------------------------------------------------------------

  predicate AllHex(d: Text) {
    forall i :: 0 <= i < |d| ==> Nibble(d[i]).Some?
  }

  /** `out` is what the digits spell: two to a byte, the high one first. */
  predicate Spells(d: Text, out: seq<byte>) {
    && |d| == 2 * |out|
    && AllHex(d)
    && forall i: nat :: i < |out| ==> PairAt(d, out, i)
  }

  function Decoded(d: Text): Option<seq<byte>> {
    if d == [] then Some([])
    else if |d| == 1 || Nibble(d[0]).None? || Nibble(d[1]).None? then None
    else Following([16 * Nibble(d[0]).value + Nibble(d[1]).value], Decoded(d[2..]))
  }

  function Following(out: seq<byte>, rest: Option<seq<byte>>): Option<seq<byte>> {
    if rest.None? then None else Some(out + rest.value)
  }

  lemma FollowingTwice(a: seq<byte>, b: seq<byte>, rest: Option<seq<byte>>)
    ensures Following(a, Following(b, rest)) == Following(a + b, rest)
  {
    if rest.Some? { assert a + (b + rest.value) == a + b + rest.value; }
  }

  lemma FollowingNothing(rest: Option<seq<byte>>)
    ensures Following([], rest) == rest
  {
    if rest.Some? { assert [] + rest.value == rest.value; }
  }

  lemma {:induction false} DecodedLength(d: Text)
    requires Decoded(d).Some?
    ensures |d| == 2 * |Decoded(d).value|
  {
    if d != [] { DecodedLength(d[2..]); }
  }

  lemma {:induction false} DecodedSpells(d: Text)
    requires Decoded(d).Some?
    ensures Spells(d, Decoded(d).value)
  {
    if d != [] {
      DecodedSpells(d[2..]);
      SpellsOne(d, Decoded(d[2..]).value);
    }
  }

  lemma SpellsOne(d: Text, rest: seq<byte>)
    requires |d| >= 2 && Nibble(d[0]).Some? && Nibble(d[1]).Some? && Spells(d[2..], rest)
    ensures Spells(d, [16 * Nibble(d[0]).value + Nibble(d[1]).value] + rest)
  {
    SpellsCons(d[0], d[1], d[2..], rest);
    assert d == [d[0], d[1]] + d[2..];
  }

  lemma HexCons(hi: byte, lo: byte, e: Text)
    requires Nibble(hi).Some? && Nibble(lo).Some?
    ensures AllHex([hi, lo] + e) <==> AllHex(e)
  {
    var d := [hi, lo] + e;
    assert forall i :: 0 <= i < |e| ==> e[i] == d[i + 2];
    if AllHex(e) {
      forall i | 0 <= i < |d| ensures Nibble(d[i]).Some? { if i >= 2 { assert d[i] == e[i - 2]; } }
    }
  }

  lemma SpellsCons(hi: byte, lo: byte, e: Text, rest: seq<byte>)
    requires Nibble(hi).Some? && Nibble(lo).Some?
    ensures Spells([hi, lo] + e, [16 * Nibble(hi).value + Nibble(lo).value] + rest) <==> Spells(e, rest)
  {
    var d, out := [hi, lo] + e, [16 * Nibble(hi).value + Nibble(lo).value] + rest;
    HexCons(hi, lo, e);
    if |e| == 2 * |rest| && AllHex(e) {
      forall i | 0 <= i < |rest| ensures PairAt(d, out, i + 1) <==> PairAt(e, rest, i) {
        assert d[2 * (i + 1)] == e[2 * i] && d[2 * (i + 1) + 1] == e[2 * i + 1] && out[i + 1] == rest[i];
      }
      assert PairAt(d, out, 0);
      PairsShift(d, out, e, rest);
    }
  }

  /** The `i`-th byte is what its two digits make. */
  predicate PairAt(d: Text, out: seq<byte>, i: nat)
    requires |d| == 2 * |out| && AllHex(d)
  {
    i < |out| && out[i] == 16 * Nibble(d[2 * i]).value + Nibble(d[2 * i + 1]).value
  }

  lemma PairsShift(d: Text, out: seq<byte>, e: Text, rest: seq<byte>)
    requires |d| == 2 * |out| && AllHex(d) && |e| == 2 * |rest| && AllHex(e) && |out| == |rest| + 1
    requires PairAt(d, out, 0) && forall i: nat :: i < |rest| ==> (PairAt(d, out, i + 1) <==> PairAt(e, rest, i))
    ensures Spells(d, out) <==> Spells(e, rest)
  {
    if Spells(e, rest) {
      forall i: nat | i < |out| ensures PairAt(d, out, i) {
        if i > 0 { assert PairAt(e, rest, i - 1); }
      }
    }
    if Spells(d, out) {
      forall i: nat | i < |rest| ensures PairAt(e, rest, i) { assert PairAt(d, out, i + 1); }
    }
  }

  lemma SpellsTail(d: Text, out: seq<byte>)
    requires Spells(d, out) && d != []
    ensures |d| >= 2 && out != [] && Nibble(d[0]).Some? && Nibble(d[1]).Some?
    ensures out[0] == 16 * Nibble(d[0]).value + Nibble(d[1]).value && Spells(d[2..], out[1..])
  {
    assert PairAt(d, out, 0) && d[2 * 0] == d[0] && d[2 * 0 + 1] == d[1];
    assert Nibble(d[0]).Some? && Nibble(d[1]).Some?;
    assert d == [d[0], d[1]] + d[2..] && out == [out[0]] + out[1..];
    SpellsCons(d[0], d[1], d[2..], out[1..]);
  }

  lemma {:induction false} SpelledDecodes(d: Text, out: seq<byte>)
    requires Spells(d, out)
    ensures Decoded(d) == Some(out)
  {
    if d != [] {
      SpellsTail(d, out);
      SpelledDecodes(d[2..], out[1..]);
      assert out == [out[0]] + out[1..];
    }
  }

  /** Digits decode to exactly what they spell. */
  lemma DecodedExactly(d: Text, out: seq<byte>)
    ensures Decoded(d) == Some(out) <==> Spells(d, out)
  {
    if Decoded(d).Some? { DecodedSpells(d); }
    if Spells(d, out) { SpelledDecodes(d, out); }
  }

  // ---- The streaming decoder -----------------------------------------------------------

  /** Digits still to come, with a high nibble already in hand or not. */
  function Stream(high: Option<nat>, d: Text): Option<seq<byte>>
    requires high.Some? ==> high.value < 16
    decreases |d|
  {
    if d == [] then (if high.Some? then None else Some([]))
    else if Nibble(d[0]).None? then None
    else if high.None? then Stream(Nibble(d[0]), d[1..])
    else Following([16 * high.value + Nibble(d[0]).value], Stream(None, d[1..]))
  }

  lemma {:induction false} StreamIsDecoded(d: Text)
    ensures Stream(None, d) == Decoded(d)
    decreases |d|
  {
    if |d| >= 2 {
      assert d[1..][0] == d[1] && d[1..][1..] == d[2..];
      StreamIsDecoded(d[2..]);
    } else if |d| == 1 {
      assert d[1..] == [];
    }
  }

  /** How many bytes are not white space. */
  method CountDigits(s: Text) returns (digits: nat)
    ensures digits == |Strip(s)|
  {
    digits := 0;
    for i := 0 to |s|
      invariant |Strip(s)| == digits + |Strip(s[i..])|
    {
      assert s[i..][1..] == s[i + 1..];
      if !IsSpace(s[i]) { digits := digits + 1; }
    }
  }

  /** `decode_hex` of the A-GRA codec. */
  method AgraDecodeHex(s: Text) returns (r: Result<seq<byte>, HexError>)
    ensures r == AgraHex(s)
  {
    if |s| / 2 > MAX_DECODED_PAYLOAD {
      var digits := CountDigits(s);
      if digits / 2 > MAX_DECODED_PAYLOAD { return Err(PayloadTooLarge); }
    }
    var out: seq<byte> := [];
    var high: Option<nat> := None;
    StreamIsDecoded(Strip(s));
    FollowingNothing(Decoded(Strip(s)));
    assert s[0..] == s;
    for i := 0 to |s|
      invariant high.Some? ==> high.value < 16
      invariant Decoded(Strip(s)) == Following(out, Stream(high, Strip(s[i..])))
    {
      assert s[i..][1..] == s[i + 1..];
      if IsSpace(s[i]) { continue; }
      assert Strip(s[i..])[1..] == Strip(s[i + 1..]);
      var nibble := Nibble(s[i]);
      if nibble.None? { return Err(BadHex); }
      if high.None? {
        high := nibble;
      } else {
        FollowingTwice(out, [16 * high.value + nibble.value], Stream(None, Strip(s[i + 1..])));
        out := out + [16 * high.value + nibble.value];
        high := None;
      }
    }
    if high.Some? { return Err(BadHex); }
    assert out + [] == out;
    return Ok(out);
  }

  // ---- The filter-then-pair decoder ----------------------------------------------------

  method DropSpace(s: Text) returns (digits: Text)
    ensures digits == Strip(s)
  {
    digits := [];
    for i := 0 to |s|
      invariant Strip(s) == digits + Strip(s[i..])
    {
      assert s[i..][1..] == s[i + 1..];
      if !IsSpace(s[i]) { digits := digits + [s[i]]; }
    }
  }

  /** `decode_hex` of the OWP converter. */
  method OwpDecodeHex(s: Text) returns (r: Option<seq<byte>>)
    ensures r == OwpHex(s)
  {
    var digits := DropSpace(s);
    if |digits| % 2 != 0 {
      OddIsNothing(digits);
      return None;
    }
    var out: seq<byte> := [];
    var k := 0;
    FollowingNothing(Decoded(digits));
    assert digits[0..] == digits;
    while k < |digits|
      invariant 0 <= k <= |digits| && k % 2 == 0
      invariant Decoded(digits) == Following(out, Decoded(digits[k..]))
    {
      assert digits[k..][0] == digits[k] && digits[k..][1] == digits[k + 1] && digits[k..][2..] == digits[k + 2..];
      var hi, lo := Nibble(digits[k]), Nibble(digits[k + 1]);
      if hi.None? || lo.None? { return None; }
      FollowingTwice(out, [16 * hi.value + lo.value], Decoded(digits[k + 2..]));
      out := out + [16 * hi.value + lo.value];
      k := k + 2;
    }
    assert out + [] == out;
    return Some(out);
  }

  lemma OddIsNothing(d: Text)
    requires |d| % 2 == 1
    ensures Decoded(d).None?
  {
    if Decoded(d).Some? { DecodedLength(d); }
  }

  // ---- Agreement -----------------------------------------------------------------------

  function OwpHex(s: Text): Option<seq<byte>> {
    Decoded(Strip(s))
  }

  function AgraHex(s: Text): Result<seq<byte>, HexError> {
    if |Strip(s)| / 2 > MAX_DECODED_PAYLOAD then Err(PayloadTooLarge)
    else if Decoded(Strip(s)).None? then Err(BadHex)
    else Ok(Decoded(Strip(s)).value)
  }

  /** The two agree on every text: A-GRA decodes exactly what OWP decodes to no more than
      the limit, fails where OWP fails, and never calls a short text too large. */
  lemma DecodersAgree(s: Text, b: seq<byte>)
    ensures AgraHex(s) == Ok(b) <==> OwpHex(s) == Some(b) && |b| <= MAX_DECODED_PAYLOAD
    ensures AgraHex(s) == Err(BadHex) <==> OwpHex(s).None? && |Strip(s)| / 2 <= MAX_DECODED_PAYLOAD
    ensures |s| / 2 <= MAX_DECODED_PAYLOAD ==> (AgraHex(s).Ok? <==> OwpHex(s).Some?)
  {
    if OwpHex(s).Some? { DecodedLength(Strip(s)); }
  }

  /** And what they decode is what the digits spell. */
  lemma DecodersMean(s: Text, b: seq<byte>)
    ensures OwpHex(s) == Some(b) <==> Spells(Strip(s), b)
    ensures AgraHex(s) == Ok(b) <==> Spells(Strip(s), b) && |b| <= MAX_DECODED_PAYLOAD
  {
    DecodersAgree(s, b);
    DecodedExactly(Strip(s), b);
  }

  // ---- Encoding ------------------------------------------------------------------------

  function Digit(n: nat): byte
    requires n < 16
  {
    if n < 10 then 48 + n else 55 + n
  }

  function EncodeUpper(b: seq<byte>): (r: Text)
    ensures |r| == 2 * |b|
  {
    if b == [] then [] else [Digit(b[0] / 16), Digit(b[0] % 16)] + EncodeUpper(b[1..])
  }

  /** `encode_hex_upper`, and `hex::encode_upper`. */
  method EncodeHexUpper(b: seq<byte>) returns (out: Text)
    ensures out == EncodeUpper(b)
  {
    out := [];
    assert b[0..] == b;
    for i := 0 to |b|
      invariant EncodeUpper(b) == out + EncodeUpper(b[i..])
    {
      assert b[i..][1..] == b[i + 1..];
      var rest := EncodeUpper(b[i + 1..]);
      assert out + ([Digit(b[i] / 16), Digit(b[i] % 16)] + rest) == out + [Digit(b[i] / 16)] + [Digit(b[i] % 16)] + rest;
      out := out + [Digit(b[i] / 16)];
      out := out + [Digit(b[i] % 16)];
    }
  }

  lemma {:induction false} EncodedIsBare(b: seq<byte>)
    ensures Strip(EncodeUpper(b)) == EncodeUpper(b)
    ensures Decoded(EncodeUpper(b)) == Some(b)
    ensures forall i :: 0 <= i < |EncodeUpper(b)| ==> EncodeUpper(b)[i] < 0x80
  {
    if b != [] {
      var e, hi, lo := EncodeUpper(b[1..]), Digit(b[0] / 16), Digit(b[0] % 16);
      EncodedIsBare(b[1..]);
      var d := [hi, lo] + e;
      assert d[1..] == [lo] + e && ([lo] + e)[1..] == e && d[2..] == e;
      assert [hi] + ([lo] + e) == d;
      assert b == [b[0]] + b[1..];
    }
  }

  /** Both decoders undo the encoder, A-GRA's up to its limit. */
  lemma DecodeOfEncode(b: seq<byte>)
    ensures OwpHex(EncodeUpper(b)) == Some(b)
    ensures AgraHex(EncodeUpper(b)) == if |b| <= MAX_DECODED_PAYLOAD then Ok(b) else Err(PayloadTooLarge)
  {
    EncodedIsBare(b);
  }

  lemma {:induction false} StripAppend(a: Text, b: Text)
    ensures Strip(a + b) == Strip(a) + Strip(b)
  {
    if a == [] {
      assert a + b == b;
    } else {
      assert (a + b)[1..] == a[1..] + b;
      StripAppend(a[1..], b);
    }
  }

  /** White space anywhere changes nothing: tab, line feed, form feed, carriage return, space. */
  lemma SpaceIsIgnored(a: Text, space: byte, b: Text)
    requires space in {9, 10, 12, 13, 32}
    ensures AgraHex(a + [space] + b) == AgraHex(a + b) && OwpHex(a + [space] + b) == OwpHex(a + b)
  {
    SpaceIsStripped(a, space, b);
  }

  lemma SpaceIsStripped(a: Text, space: byte, b: Text)
    requires IsSpace(space)
    ensures Strip(a + [space] + b) == Strip(a + b)
  {
    StripAppend(a, b);
    StripAppend(a + [space], b);
    StripAppend(a, [space]);
    assert [space][1..] == [];
    assert Strip([space]) == [];
  }

  // ---- The alphabet --------------------------------------------------------------------

  /** `0123456789abcdef` */
  const LOWER: Text := [48, 49, 50, 51, 52, 53, 54, 55, 56, 57, 97, 98, 99, 100, 101, 102]

  /** `0123456789ABCDEF` */
  const UPPER: Text := [48, 49, 50, 51, 52, 53, 54, 55, 56, 57, 65, 66, 67, 68, 69, 70]

  /** A digit is worth its place in either alphabet, and nothing else is a digit. */
  lemma NibbleIsPlace(b: byte, n: nat)
    ensures Nibble(b) == Some(n) <==> n < 16 && (b == LOWER[n] || b == UPPER[n])
  {
  }

  /** The encoder writes upper-case digits, each byte's high one first. */
  lemma {:induction false} EncodedInUpper(b: seq<byte>, i: nat)
    requires i < |b|
    ensures EncodeUpper(b)[2 * i] == UPPER[b[i] / 16] && EncodeUpper(b)[2 * i + 1] == UPPER[b[i] % 16]
  {
    if i > 0 { EncodedInUpper(b[1..], i - 1); }
  }

  /** Two bytes that spell the same, but for the case of a digit. */
  predicate SameButCase(a: byte, b: byte) {
    a == b || exists n :: 0 <= n < 16 && {a, b} == {LOWER[n], UPPER[n]}
  }

  lemma CaseOfOne(a: byte, b: byte)
    requires SameButCase(a, b)
    ensures Nibble(a) == Nibble(b) && IsSpace(a) == IsSpace(b)
  {
    if a != b {
      var n :| 0 <= n < 16 && {a, b} == {LOWER[n], UPPER[n]};
      assert a in {a, b} && b in {a, b};
      NibbleIsPlace(a, n);
      NibbleIsPlace(b, n);
    }
  }

  /** The case of digits makes no difference to either decoder. */
  lemma CaseIsIgnored(s: Text, t: Text)
    requires |s| == |t| && forall i :: 0 <= i < |s| ==> SameButCase(s[i], t[i])
    ensures OwpHex(s) == OwpHex(t) && AgraHex(s) == AgraHex(t)
  {
    StripAlike(s, t);
    DecodedAlike(Strip(s), Strip(t));
  }

  predicate Alike(s: Text, t: Text) {
    |s| == |t| && forall i :: 0 <= i < |s| ==> Nibble(s[i]) == Nibble(t[i])
  }

  lemma {:induction false} StripAlike(s: Text, t: Text)
    requires |s| == |t| && forall i :: 0 <= i < |s| ==> SameButCase(s[i], t[i])
    ensures Alike(Strip(s), Strip(t))
  {
    if s != [] {
      CaseOfOne(s[0], t[0]);
      assert forall i :: 0 <= i < |s[1..]| ==> s[1..][i] == s[i + 1] && t[1..][i] == t[i + 1];
      StripAlike(s[1..], t[1..]);
    }
  }

  lemma {:induction false} DecodedAlike(d: Text, e: Text)
    requires Alike(d, e)
    ensures Decoded(d) == Decoded(e)
  {
    if |d| >= 2 {
      assert forall i :: 0 <= i < |d[2..]| ==> d[2..][i] == d[i + 2] && e[2..][i] == e[i + 2];
      DecodedAlike(d[2..], e[2..]);
    }
  }
}
