/** What each `xs:` primitive accepts (crates/oa-gateway-uci/src/primitive.rs), and the
    parts of the platform the model takes as given: the `f64` printer and parser, the
    regular expressions behind dates, times and decimals, and pattern facets. */
module Primitive {
  import opened Wrappers
  import opened UciText
  import opened XmlText

  /** 64 bits. */
  type Bits = n: nat | n < 0x1_0000_0000_0000_0000

  /** A double, by its bits. */
  datatype F64 = F64(bits: Bits)

  /** The number a double denotes. */
  datatype Extended = NaN | NegInf | Fin(value: real) | PosInf

  function Pow2(e: int): real
    decreases if e < 0 then -e else e
  {
    if e == 0 then 1.0 else if e > 0 then 2.0 * Pow2(e - 1) else Pow2(e + 1) / 2.0
  }

  /** IEEE 754 binary64: sign, 11 bits of exponent, 52 of fraction. */
  function Denotes(f: F64): Extended {
    var negative := (f.bits / 0x8000_0000_0000_0000) % 2 == 1;
    var exponent := (f.bits / 0x10_0000_0000_0000) % 2048;
    var fraction := f.bits % 0x10_0000_0000_0000;
    if exponent == 2047 then (if fraction != 0 then NaN else if negative then NegInf else PosInf)
    else
      var size := if exponent == 0 then fraction as real * Pow2(-1074)
                  else (fraction + 0x10_0000_0000_0000) as real * Pow2(exponent - 1075);
      Fin(if negative then -size else size)
  }

  /** `a < b` on doubles: false when either is NaN. */
  predicate Less(a: Extended, b: Extended) {
    match (a, b)
    case (NaN, _) => false
    case (_, NaN) => false
    case (NegInf, _) => b != NegInf
    case (_, PosInf) => a != PosInf
    case (Fin(x), Fin(y)) => x < y
    case _ => false
  }

  predicate Finite(f: F64) {
    Denotes(f).Fin?
  }

  datatype Kind =
    | Boolean
    | Integer(min: int, max: int)
    | Real(exponent: bool, special: bool)
    | DateTime
    | Date
    | Time
    | Duration
    | HexBinary
    | AnyText

  datatype Platform = Platform(
    printFloat: F64 -> string,          // `Number::to_string` on a float
    parseFloat: string -> Option<F64>,  // `text.parse::<f64>()`
    fits: (Kind, string) -> bool,       // the lexical regular expressions
    matches: (string, string) -> bool)  // a pattern facet's source, and a value

  /** What Rust promises of its float printer: a finite double reads back as itself, and is
      printed in digits, signs, a point and `e`. */
  ghost predicate Faithful(p: Platform) {
    forall f: F64 :: Finite(f) ==> p.parseFloat(p.printFloat(f)) == Some(f) && Visible(p.printFloat(f))
  }

  function KindOf(primitive: string): Kind {
    match primitive
    case "xs:boolean" => Boolean
    case "xs:byte" => Integer(-128, 127)
    case "xs:short" => Integer(-32_768, 32_767)
    case "xs:int" => Integer(-2_147_483_648, 2_147_483_647)
    case "xs:long" => Integer(-0x8000_0000_0000_0000, 0x7FFF_FFFF_FFFF_FFFF)
    case "xs:unsignedByte" => Integer(0, 255)
    case "xs:unsignedShort" => Integer(0, 65_535)
    case "xs:unsignedInt" => Integer(0, 4_294_967_295)
    case "xs:unsignedLong" => Integer(0, 0xFFFF_FFFF_FFFF_FFFF)
    case "xs:nonNegativeInteger" => Integer(0, I128_LIMIT - 1)
    case "xs:positiveInteger" => Integer(1, I128_LIMIT - 1)
    case "xs:nonPositiveInteger" => Integer(-I128_LIMIT, 0)
    case "xs:negativeInteger" => Integer(-I128_LIMIT, -1)
    case "xs:integer" => Integer(-I128_LIMIT, I128_LIMIT - 1)
    case "xs:decimal" => Real(false, false)
    case "xs:double" => Real(true, true)
    case "xs:float" => Real(true, true)
    case "xs:dateTime" => DateTime
    case "xs:date" => Date
    case "xs:time" => Time
    case "xs:duration" => Duration
    case "xs:hexBinary" => HexBinary
    case _ => AnyText
  }

  /** What a text would have had to be. */
  datatype Expected = ABoolean | AWholeNumber | Between(min: int, max: int) | A(kind: Kind)

  predicate IsHexDigit(c: char) {
    '0' <= c <= '9' || 'a' <= c <= 'f' || 'A' <= c <= 'F'
  }

  predicate AllDigits(text: string) {
    forall i :: 0 <= i < |text| ==> '0' <= text[i] <= '9'
  }

  predicate Integral(text: string) {
    var digits := if text != [] && (text[0] == '+' || text[0] == '-') then text[1..] else text;
    digits != [] && AllDigits(digits)
  }

  function Refuses(p: Platform, kind: Kind, text: string): Option<Expected> {
    match kind
    case Boolean => if text in ["true", "false", "1", "0"] then None else Some(ABoolean)
    case Integer(min, max) =>
      if !Integral(text) then Some(AWholeNumber)
      else
        var v := ParseI128(text);
        if v.Some? && min <= v.value <= max then None
        else if min == -I128_LIMIT && max == I128_LIMIT - 1 then None
        else Some(Between(min, max))
    case HexBinary =>
      if |text| % 2 == 0 && (forall i :: 0 <= i < |text| ==> IsHexDigit(text[i])) then None else Some(A(kind))
    case AnyText => None
    case Real(_, special) =>
      if special && text in ["INF", "-INF", "NaN"] then None
      else if p.fits(kind, text) then None
      else Some(A(kind))
    case _ => if p.fits(kind, text) then None else Some(A(kind))
  }
}
