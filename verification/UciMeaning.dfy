/** What the two readers make of a leaf: the value its text denotes under its type
    (crates/oa-gateway-uci/src/json.rs, `read_simple`, and xml.rs, `parse_text`). */
module UciMeaning {
  import opened Wrappers
  import opened UciText
  import opened Primitive
  import opened UciInstance
  import opened UciJson
  import opened UciXml
  import Decimal

  // ---- Values --------------------------------------------------------------------------

  /** A value of a type; text that denotes none stands for itself. */
  datatype Meaning = Truth(b: bool) | Whole(n: int) | Double(x: Extended) | Words(text: string)

  /** The lexical mapping of booleans (XML Schema Part 2, section 3.2.2). */
  function BooleanValue(text: string): Option<bool> {
    if text in ["true", "1"] then Some(true) else if text in ["false", "0"] then Some(false) else None
  }

  /** The integer an optional sign and digits denote, of any size. */
  function IntegerValue(text: string): Option<int> {
    Decimal.ParseInteger(Codes(text))
  }

  /** The finite double a text is read as. */
  function DoubleMeant(p: Platform, text: string): Meaning {
    var f := p.parseFloat(text);
    if f.Some? && Finite(f.value) then Double(Denotes(f.value)) else Words(text)
  }

  /** What a text denotes under a kind. */
  function Meant(p: Platform, kind: Kind, text: string): Meaning {
    match kind
    case Boolean => if BooleanValue(text).Some? then Truth(BooleanValue(text).value) else Words(text)
    case Integer(_, _) => if IntegerValue(text).Some? then Whole(IntegerValue(text).value) else DoubleMeant(p, text)
    case Real(_, _) => DoubleMeant(p, text)
    case _ => Words(text)
  }

  /** What a leaf holds. */
  function Held(leaf: Simple): Meaning {
    match leaf
    case Str(text) => Words(text)
    case Bool(b) => Truth(b)
    case Num(Int(n)) => Whole(n)
    case Num(Float(f)) => Double(Denotes(f))
  }

  predicate FitsI64(n: int) {
    -Decimal.I64_LIMIT <= n < Decimal.I64_LIMIT
  }

  /** What Rust promises of numbers beyond `Faithful`: a float is never printed as an integer,
      integers of 64 bits are read as finite floats, and integers are read as floats by their
      value, whatever their sign and leading zeros. */
  ghost predicate ByValue(p: Platform) {
    && (forall f: F64 :: Finite(f) ==> IntegerValue(p.printFloat(f)).None?)
    && (forall a: string :: IntegerValue(a).Some? && FitsI64(IntegerValue(a).value) ==> DoubleMeant(p, a).Double?)
    && forall a: string, b: string :: IntegerValue(a).Some? && IntegerValue(a) == IntegerValue(b) ==>
         p.parseFloat(a).Some? && p.parseFloat(b).Some? && Denotes(p.parseFloat(a).value) == Denotes(p.parseFloat(b).value)
  }

  // ---- XML -----------------------------------------------------------------------------

  /** Text that XML carries as a value of its kind rather than as text. */
  predicate TypedByXml(p: Platform, kind: Kind, text: string) {
    match kind
    case Boolean => BooleanValue(text).Some?
    case Integer(_, _) => IntegerValue(text).Some? && -Decimal.I64_LIMIT <= IntegerValue(text).value < Decimal.U64_LIMIT
    case Real(_, _) => DoubleMeant(p, text).Double?
    case _ => false
  }

  lemma UnsignedValue(text: string)
    ensures ParseU64(text).Some? ==> IntegerValue(text) == Some(ParseU64(text).value)
    ensures IntegerValue(text).Some? && Decimal.I64_LIMIT <= IntegerValue(text).value < Decimal.U64_LIMIT ==> ParseU64(text).Some?
  {
  }

  /** A leaf read from XML holds the value its text denotes, if that is one XML carries, and
      else the text itself. */
  lemma XmlLeafHolds(p: Platform, kind: Kind, text: string)
    ensures Held(ParseText(p, kind, text)) == if TypedByXml(p, kind, text) then Meant(p, kind, text) else Words(text)
    ensures ParseText(p, kind, text).Str? <==> !TypedByXml(p, kind, text)
  {
    if kind.Integer? { XmlIntegerHolds(p, kind, text); }
  }

  lemma XmlIntegerHolds(p: Platform, kind: Kind, text: string)
    requires kind.Integer?
    ensures var leaf, v := ParseText(p, kind, text), IntegerValue(text);
            leaf == if v.Some? && -Decimal.I64_LIMIT <= v.value < Decimal.U64_LIMIT then Num(Int(v.value)) else Str(text)
  {
    UnsignedValue(text);
  }

  lemma ShownValue(n: int)
    ensures IntegerValue(Show(n)) == Some(n)
  {
    CodesOfShow(n);
    Decimal.IntegerOfPrint(n);
  }

  /** And it is spelled as a text that denotes the same. */
  lemma XmlLeafMeans(p: Platform, kind: Kind, text: string)
    requires Faithful(p)
    ensures Meant(p, kind, AsText(p, ParseText(p, kind, text))) == Meant(p, kind, text)
  {
    XmlLeafHolds(p, kind, text);
    var leaf := ParseText(p, kind, text);
    if leaf.Num? && leaf.number.Int? { ShownValue(leaf.number.n); }
  }

  // ---- JSON ----------------------------------------------------------------------------

  predicate Scalar(v: Json) {
    v.JBool? || v.JNumber? || v.JString?
  }

  /** A scalar as JSON spells it, without quotes. */
  function ScalarText(p: Platform, v: Json): string
    requires Scalar(v)
  {
    match v
    case JBool(b) => if b then "true" else "false"
    case JNumber(n) => ShowNumber(p, n)
    case JString(text) => text
  }

  /** An integer in a string, past 64 bits signed, under an integer type whose strings are read as
      numbers: it becomes a double. */
  predicate Rounded(p: Platform, t: string, v: Json) {
    && v.JString? && t in NUMERIC && KindOf(t).Integer?
    && IntegerValue(v.s).Some? && !FitsI64(IntegerValue(v.s).value)
    && DoubleMeant(p, v.s).Double?
  }

  /** The string is read as a value of its type. */
  predicate TypedByJson(p: Platform, t: string, text: string) {
    || (t == "xs:boolean" && BooleanValue(text).Some?)
    || (t in NUMERIC && ((IntegerValue(text).Some? && FitsI64(IntegerValue(text).value)) || DoubleMeant(p, text).Double?))
  }

  /** A scalar is read, and nothing else is: booleans and numbers as they are, a string as the
      value it denotes if its type has such values and else as itself. An integer that fits is
      kept as one under every numeric type. */
  lemma JsonLeafHolds(p: Platform, v: Json, t: string)
    ensures ReadSimple(p, v, t).Ok? <==> Scalar(v)
    ensures v.JBool? ==> ReadSimple(p, v, t) == Ok(Bool(v.b))
    ensures v.JNumber? ==> ReadSimple(p, v, t) == Ok(Num(v.number))
    ensures v.JString? ==>
              var leaf := ReadSimple(p, v, t).value;
              && (leaf.Str? <==> !TypedByJson(p, t, v.s))
              && Held(leaf) == if !TypedByJson(p, t, v.s) then Words(v.s)
                               else if t == "xs:boolean" then Truth(BooleanValue(v.s).value)
                               else if IntegerValue(v.s).Some? && FitsI64(IntegerValue(v.s).value) then Whole(IntegerValue(v.s).value)
                               else DoubleMeant(p, v.s)
  {
    NumericIsNoBoolean();
  }

  lemma NumericIsNoBoolean()
    ensures "xs:boolean" !in NUMERIC
    ensures forall t :: t in NUMERIC ==> KindOf(t).Integer? || KindOf(t).Real?
  {
  }

  /** What is read denotes what was given, under every type, except exactly where an integer is
      rounded. */
  lemma JsonLeafMeans(p: Platform, v: Json, t: string)
    requires Faithful(p) && ByValue(p) && Scalar(v)
    ensures ReadSimple(p, v, t).Ok?
    ensures Meant(p, KindOf(t), AsText(p, ReadSimple(p, v, t).value)) == Meant(p, KindOf(t), ScalarText(p, v)) <==> !Rounded(p, t, v)
  {
    JsonLeafHolds(p, v, t);
    NumericIsNoBoolean();
    if v.JString? {
      var leaf := ReadSimple(p, v, t).value;
      if leaf.Num? && leaf.number.Int? { WholeMeans(p, KindOf(t), v.s, leaf.number.n); }
      if leaf.Num? && leaf.number.Float? { DoubleMeans(p, KindOf(t), v.s, leaf.number.f); }
    }
  }

  lemma WholeMeans(p: Platform, kind: Kind, text: string, n: int)
    requires ByValue(p) && IntegerValue(text) == Some(n) && FitsI64(n) && (kind.Integer? || kind.Real?)
    ensures Meant(p, kind, Show(n)) == Meant(p, kind, text)
  {
    ShownValue(n);
    assert DoubleMeant(p, text).Double? && DoubleMeant(p, Show(n)).Double?;
  }

  lemma DoubleMeans(p: Platform, kind: Kind, text: string, f: F64)
    requires Faithful(p) && ByValue(p) && Finite(f) && p.parseFloat(text) == Some(f) && (kind.Integer? || kind.Real?)
    ensures Meant(p, kind, p.printFloat(f)) == Double(Denotes(f))
    ensures Meant(p, kind, text) == if kind.Integer? && IntegerValue(text).Some? then Whole(IntegerValue(text).value) else Double(Denotes(f))
  {
  }

  // ---- Both ----------------------------------------------------------------------------

  /** The same text under the same type denotes the same to both readers, except exactly where
      JSON rounds it. */
  lemma ReadersAgree(p: Platform, text: string, t: string)
    requires Faithful(p) && ByValue(p)
    ensures var json, xml := ReadSimple(p, JString(text), t).value, ParseText(p, KindOf(t), text);
            Meant(p, KindOf(t), AsText(p, json)) == Meant(p, KindOf(t), AsText(p, xml)) <==> !Rounded(p, t, JString(text))
  {
    JsonLeafMeans(p, JString(text), t);
    XmlLeafMeans(p, KindOf(t), text);
  }

  /** Such integers there are: from 2^63 on, where XML still keeps them up to 2^64. */
  lemma LargeIntegers(p: Platform, t: string, n: int)
    requires t in NUMERIC && KindOf(t).Integer?
    requires Decimal.I64_LIMIT <= n < Decimal.U64_LIMIT && DoubleMeant(p, Show(n)).Double?
    ensures Rounded(p, t, JString(Show(n)))
    ensures Held(ParseText(p, KindOf(t), Show(n))) == Whole(n)
    ensures ReadSimple(p, JString(Show(n)), t).Ok? && Held(ReadSimple(p, JString(Show(n)), t).value) == DoubleMeant(p, Show(n))
  {
    ShownValue(n);
    XmlLeafHolds(p, KindOf(t), Show(n));
    JsonLeafHolds(p, JString(Show(n)), t);
    NumericIsNoBoolean();
  }

  // ---- What each primitive accepts -----------------------------------------------------

  function Power(bits: nat): int {
    if bits == 0 then 1 else 2 * Power(bits - 1)
  }

  /** The range of a signed integer of so many bits. */
  function Signed(bits: nat): Kind
    requires bits > 0
  {
    Integer(-Power(bits - 1), Power(bits - 1) - 1)
  }

  function Unsigned(bits: nat): Kind {
    Integer(0, Power(bits) - 1)
  }

  lemma Powers()
    ensures Power(7) == 128 && Power(8) == 256 && Power(15) == 0x8000 && Power(16) == 0x1_0000
    ensures Power(31) == 0x8000_0000 && Power(32) == 0x1_0000_0000
    ensures Power(63) == 0x8000_0000_0000_0000 && Power(64) == 0x1_0000_0000_0000_0000
    ensures Power(127) == I128_LIMIT
  {
    PowerAdds(16, 15);
    PowerAdds(16, 16);
    PowerAdds(32, 31);
    PowerAdds(32, 32);
    PowerAdds(64, 63);
  }

  lemma {:induction false} PowerAdds(a: nat, b: nat)
    ensures Power(a + b) == Power(a) * Power(b)
  {
    if a > 0 { PowerAdds(a - 1, b); }
  }

  /** The signed integer types (XML Schema Part 2, sections 3.3.16 to 3.3.19). */
  lemma SignedTypes()
    ensures KindOf("xs:byte") == Signed(8) && KindOf("xs:short") == Signed(16)
    ensures KindOf("xs:int") == Signed(32) && KindOf("xs:long") == Signed(64)
  {
    Powers();
    assert Signed(8) == Integer(-128, 127) && Signed(16) == Integer(-32_768, 32_767);
  }

  /** The unsigned ones (sections 3.3.21 to 3.3.24). */
  lemma UnsignedTypes()
    ensures KindOf("xs:unsignedByte") == Unsigned(8) && KindOf("xs:unsignedShort") == Unsigned(16)
    ensures KindOf("xs:unsignedInt") == Unsigned(32) && KindOf("xs:unsignedLong") == Unsigned(64)
  {
    Powers();
  }

  /** Those without a bound (sections 3.3.13 to 3.3.15, 3.3.20 and 3.3.25) are held to 128 bits. */
  lemma UnboundedTypes()
    ensures var limit := Power(127);
            && KindOf("xs:integer") == Integer(-limit, limit - 1)
            && KindOf("xs:nonNegativeInteger") == Integer(0, limit - 1) && KindOf("xs:positiveInteger") == Integer(1, limit - 1)
            && KindOf("xs:nonPositiveInteger") == Integer(-limit, 0) && KindOf("xs:negativeInteger") == Integer(-limit, -1)
  {
    Powers();
  }

  /** A text is a value of an integer type exactly when it denotes an integer of its range; of
      `xs:integer` itself, when it denotes any. */
  lemma IntegersExactly(p: Platform, min: int, max: int, text: string)
    requires -I128_LIMIT <= min && max < I128_LIMIT
    ensures Refuses(p, Integer(min, max), text).None? <==>
            && IntegerValue(text).Some?
            && (min <= IntegerValue(text).value <= max || Integer(min, max) == KindOf("xs:integer"))
    ensures Refuses(p, Integer(min, max), text) == Some(AWholeNumber) <==> IntegerValue(text).None?
  {
    IntegralExactly(text);
  }

  lemma IntegralExactly(text: string)
    ensures Integral(text) <==> IntegerValue(text).Some?
  {
    var codes := Codes(text);
    DigitsAsCodes(text);
    if text != [] {
      DigitsAsCodes(text[1..]);
      assert codes[1..] == Codes(text[1..]) && codes[0] == text[0] as int;
    }
  }

  lemma DigitsAsCodes(text: string)
    ensures Decimal.AllDigits(Codes(text)) <==> AllDigits(text)
  {
    assert forall i :: 0 <= i < |text| ==> Codes(text)[i] == text[i] as int;
    if Decimal.AllDigits(Codes(text)) {
      forall i | 0 <= i < |text| ensures '0' <= text[i] <= '9' { assert Decimal.IsDigit(Codes(text)[i]); }
    }
  }

  /** The words for what is no finite number are values of the two floating types, and not of
      decimals (XML Schema Part 2, sections 3.2.3 to 3.2.5). */
  lemma SpecialWords(p: Platform, text: string)
    ensures text in ["INF", "-INF", "NaN"] ==> Refuses(p, KindOf("xs:double"), text).None? && Refuses(p, KindOf("xs:float"), text).None?
    ensures Refuses(p, KindOf("xs:decimal"), text).None? <==> p.fits(KindOf("xs:decimal"), text)
  {
  }

  lemma BooleansExactly(p: Platform, text: string)
    ensures Refuses(p, Boolean, text).None? <==> BooleanValue(text).Some?
  {
  }

  /** Strings are read as numbers under exactly the real types and the integer types that have
      values on both sides of zero. */
  lemma NumericExactly(t: string)
    ensures t in NUMERIC <==> KindOf(t).Real? || (KindOf(t).Integer? && KindOf(t).min < 0 < KindOf(t).max)
  {
  }
}
