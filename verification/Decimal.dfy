/** Decimal text as character codes: what Rust's integer `to_string` prints and what its
    integer `parse` reads back. Codes are plain integers, so the same functions serve
    UTF-8 bytes and characters. */
module Decimal {
  import opened Wrappers

  const U64_LIMIT: int := 0x1_0000_0000_0000_0000
  const I64_LIMIT: int := 0x8000_0000_0000_0000

  const PLUS := 43
  const MINUS := 45

  predicate IsDigit(c: int) {
    48 <= c <= 57
  }

  predicate AllDigits(d: seq<int>) {
    forall i :: 0 <= i < |d| ==> IsDigit(d[i])
  }

  /** `n.to_string()` for an unsigned integer. */
  function Print(n: nat): (d: seq<int>)
    ensures |d| > 0 && AllDigits(d)
  {
    if n < 10 then [48 + n] else Print(n / 10) + [48 + n % 10]
  }

  /** The number a run of digits denotes. */
  function Value(d: seq<int>): nat
    requires AllDigits(d)
  {
    if d == [] then 0 else Value(d[..|d| - 1]) * 10 + (d[|d| - 1] - 48)
  }

  lemma {:induction false} ValueOfPrint(n: nat)
    ensures Value(Print(n)) == n
  {
    if n >= 10 {
      ValueOfPrint(n / 10);
      assert Print(n)[..|Print(n)| - 1] == Print(n / 10);
    }
  }

  /** `text.parse::<usize>()` (64 bits): an optional `+`, at least one digit, no overflow. */
  function ParseUnsigned(text: seq<int>): (r: Option<nat>)
  {
    var d := if |text| > 0 && text[0] == PLUS then text[1..] else text;
    if |d| == 0 || !AllDigits(d) || Value(d) >= U64_LIMIT then None else Some(Value(d))
  }

  /** Reading back a printed length gives the length. */
  lemma ParseOfPrint(n: nat)
    requires n < U64_LIMIT
    ensures ParseUnsigned(Print(n)) == Some(n)
  {
    ValueOfPrint(n);
    assert IsDigit(Print(n)[0]);
  }

  /** `n.to_string()` for a signed integer. */
  function PrintInt(n: int): (d: seq<int>)
    ensures |d| > 0
  {
    if n < 0 then [MINUS] + Print(-n) else Print(n)
  }

  /** An optional sign and at least one digit, of any size. */
  function ParseInteger(text: seq<int>): (r: Option<int>)
  {
    var negative := |text| > 0 && text[0] == MINUS;
    var signed := |text| > 0 && (text[0] == MINUS || text[0] == PLUS);
    var d := if signed then text[1..] else text;
    if |d| == 0 || !AllDigits(d) then None
    else
      var v: int := Value(d);
      Some(if negative then -v else v)
  }

  lemma IntegerOfPrint(n: int)
    ensures ParseInteger(PrintInt(n)) == Some(n)
  {
    if n < 0 {
      ValueOfPrint(-n);
      assert PrintInt(n)[1..] == Print(-n);
    } else {
      ValueOfPrint(n);
      assert IsDigit(Print(n)[0]);
    }
  }

  /** `text.parse::<i64>()`: refused on overflow. */
  function ParseSigned(text: seq<int>): (r: Option<int>)
  {
    var r := ParseInteger(text);
    if r.Some? && -I64_LIMIT <= r.value < I64_LIMIT then r else None
  }

  lemma ParseSignedOfPrint(n: int)
    requires -I64_LIMIT <= n < I64_LIMIT
    ensures ParseSigned(PrintInt(n)) == Some(n)
  {
    IntegerOfPrint(n);
  }

  /** A printed number past `i64` is refused by the signed reader, never misread. */
  lemma ParseSignedPastRange(n: int)
    requires n >= I64_LIMIT
    ensures ParseSigned(PrintInt(n)) == None
  {
    IntegerOfPrint(n);
  }
}
