/** OMS JSON to instance tree and back (crates/oa-gateway-uci/src/json.rs). JSON text is
    already parsed: `serde_json` objects are maps ordered by key. */
module UciJson {
  import opened Wrappers
  import opened UciText
  import opened Primitive
  import opened UciSchema
  import opened UciFacets
  import opened UciInstance

  datatype Json =
    | JNull
    | JBool(b: bool)
    | JNumber(number: Number)
    | JString(s: string)
    | JArray(items: seq<Json>)
    | JObject(members: seq<Member>)

  datatype Member = Member(key: string, value: Json)

  const TYPE_KEY := "$type"

  // ---- Objects as ordered maps ---------------------------------------------------------

  /** Lexicographic order on strings. */
  predicate Before(a: string, b: string) {
    b != [] && (a == [] || a[0] < b[0] || (a[0] == b[0] && Before(a[1..], b[1..])))
  }

  lemma {:induction false} BeforeTotal(a: string, b: string)
    ensures a == b || Before(a, b) || Before(b, a)
    ensures !(Before(a, b) && Before(b, a)) && !Before(a, a)
  {
    if a != [] { BeforeTotal(a[1..], a[1..]); }
    if a != [] && b != [] && a[0] == b[0] {
      BeforeTotal(a[1..], b[1..]);
      assert a == [a[0]] + a[1..] && b == [b[0]] + b[1..];
    }
  }

  lemma {:induction false} BeforeTransitive(a: string, b: string, c: string)
    requires Before(a, b) && Before(b, c)
    ensures Before(a, c)
  {
    if a != [] && a[0] == b[0] == c[0] { BeforeTransitive(a[1..], b[1..], c[1..]); }
  }

  /** Keys strictly ascend. */
  predicate Ascending(ms: seq<Member>) {
    forall i, j :: 0 <= i < j < |ms| ==> Before(ms[i].key, ms[j].key)
  }

  /** Every object in a value is a map. */
  predicate IsMap(v: Json) {
    match v
    case JArray(items) => forall i :: 0 <= i < |items| ==> IsMap(items[i])
    case JObject(ms) => Ascending(ms) && forall i :: 0 <= i < |ms| ==> IsMap(ms[i].value)
    case _ => true
  }

  /** `Map::insert`. */
  function Insert(ms: seq<Member>, m: Member): seq<Member> {
    if ms == [] || Before(m.key, ms[0].key) then [m] + ms
    else if m.key == ms[0].key then [m] + ms[1..]
    else [ms[0]] + Insert(ms[1..], m)
  }

  function InsertAll(ms: seq<Member>, more: seq<Member>): seq<Member>
    decreases |more|
  {
    if more == [] then ms else InsertAll(Insert(ms, more[0]), more[1..])
  }

  function Lookup(ms: seq<Member>, key: string): Option<Json> {
    if ms == [] then None else if ms[0].key == key then Some(ms[0].value) else Lookup(ms[1..], key)
  }

  // ---- Reading -------------------------------------------------------------------------

  const NUMERIC: seq<string> :=
    ["xs:int", "xs:integer", "xs:long", "xs:short", "xs:byte", "xs:decimal", "xs:double", "xs:float"]

  /** `parse_numeric_string`. */
  function NumericString(p: Platform, t: string, text: string): Option<Number> {
    if t !in NUMERIC then None
    else if ParseI64(text).Some? then Some(Int(ParseI64(text).value))
    else
      var f := p.parseFloat(text);
      if f.Some? && Finite(f.value) then Some(Float(f.value)) else None
  }

  /** `read_simple`. */
  function ReadSimple(p: Platform, v: Json, t: string): Result<Simple, UciError> {
    match v
    case JBool(b) => Ok(Bool(b))
    case JNumber(n) => Ok(Num(n))
    case JString(text) =>
      if t == "xs:boolean" && (text == "true" || text == "1") then Ok(Bool(true))
      else if t == "xs:boolean" && (text == "false" || text == "0") then Ok(Bool(false))
      else
        var n := NumericString(p, t, text);
        if n.Some? then Ok(Num(n.value)) else Ok(Str(text))
    case _ => Err(CannotMap)
  }

  /** The type an object claims: `$type` when it is a string, else the declared one. */
  function ActualType(ms: seq<Member>, t: string): string {
    var claim := Lookup(ms, TYPE_KEY);
    if claim.Some? && claim.value.JString? then claim.value.s else t
  }

  /** `read_node`. */
  function ReadNode(p: Platform, s: Schema, v: Json, t: string, depth: nat): Result<Node, UciError>
    decreases v, 1
  {
    if depth > MAX_DEPTH then Err(TooDeep)
    else if IsLeafType(s, t) then
      match ReadSimple(p, v, Reduce(s, t, MAX_SIMPLE_DEPTH))
      case Ok(leaf) => Ok(Leaf(leaf))
      case Err(e) => Err(e)
    else if !v.JObject? then Err(CannotMap)
    else
      var actual := ActualType(v.members, t);
      if !IsComplex(s, actual) then Err(NoSuchType(actual))
      else
        match Flatten(s, actual)
        case Err(e) => Err(FromSchema(e))
        case Ok(decls) =>
          match ReadMembers(p, s, v.members, decls, depth + 1)
          case Ok(fields) => Ok(Complex(Override(actual, t), fields))
          case Err(e) => Err(e)
  }

  function ReadMembers(p: Platform, s: Schema, ms: seq<Member>, decls: seq<ElementDecl>, depth: nat): Result<seq<NamedField>, UciError>
    decreases ms
  {
    if ms == [] then Ok([])
    else if ms[0].key == TYPE_KEY then ReadMembers(p, s, ms[1..], decls, depth)
    else
      match ReadField(p, s, ms[0].value, ChildType(decls, ms[0].key), Repeats(decls, ms[0].key), depth)
      case Err(e) => Err(e)
      case Ok(field) =>
        match ReadMembers(p, s, ms[1..], decls, depth)
        case Err(e) => Err(e)
        case Ok(rest) => Ok([NamedField(ms[0].key, field)] + rest)
  }

  function ReadField(p: Platform, s: Schema, v: Json, t: string, repeats: bool, depth: nat): Result<Field, UciError>
    decreases v, 2
  {
    if repeats && v.JArray? then
      match ReadItems(p, s, v.items, t, depth)
      case Ok(nodes) => Ok(Many(nodes))
      case Err(e) => Err(e)
    else
      match ReadNode(p, s, v, t, depth)
      case Ok(node) => Ok(if repeats then Many([node]) else One(node))
      case Err(e) => Err(e)
  }

  function ReadItems(p: Platform, s: Schema, vs: seq<Json>, t: string, depth: nat): Result<seq<Node>, UciError>
    decreases vs
  {
    if vs == [] then Ok([])
    else
      match ReadNode(p, s, vs[0], t, depth)
      case Err(e) => Err(e)
      case Ok(node) =>
        match ReadItems(p, s, vs[1..], t, depth)
        case Err(e) => Err(e)
        case Ok(rest) => Ok([node] + rest)
  }

  /** `from_json`, on a parsed value. */
  function FromJson(p: Platform, s: Schema, v: Json): Result<Message, UciError> {
    if !v.JObject? then Err(NotAnObject)
    else if |v.members| != 1 then Err(NotOneMember)
    else
      var name := v.members[0].key;
      match GlobalType(s, name)
      case None => Err(UnknownElement(name))
      case Some(declared) =>
        match ReadNode(p, s, v.members[0].value, declared, 0)
        case Ok(body) => Ok(Message(name, body))
        case Err(e) => Err(e)
  }

  // ---- Writing -------------------------------------------------------------------------

  function WriteSimple(leaf: Simple): Json {
    match leaf
    case Str(text) => JString(text)
    case Bool(b) => JBool(b)
    case Num(n) => JNumber(n)
  }

  function TypeMember(typeName: Option<string>): seq<Member> {
    if typeName.Some? then [Member(TYPE_KEY, JString(typeName.value))] else []
  }

  /** `write_node`. */
  function WriteNode(s: Schema, n: Node, t: string, depth: nat): Result<Json, UciError>
    decreases n, 1
  {
    if depth > MAX_DEPTH then Err(TooDeep)
    else if n.Leaf? then Ok(WriteSimple(n.simple))
    else
      match DeclsOf(s, ActualOf(n, t))
      case Err(e) => Err(e)
      case Ok(decls) =>
        match WriteFields(s, n.fields, decls, depth + 1)
        case Err(e) => Err(e)
        case Ok(ms) => Ok(JObject(InsertAll(TypeMember(n.typeName), ms)))
  }

  function WriteFields(s: Schema, fields: seq<NamedField>, decls: seq<ElementDecl>, depth: nat): Result<seq<Member>, UciError>
    decreases fields
  {
    if fields == [] then Ok([])
    else
      match WriteField(s, fields[0].field, ChildType(decls, fields[0].name), depth)
      case Err(e) => Err(e)
      case Ok(v) =>
        match WriteFields(s, fields[1..], decls, depth)
        case Err(e) => Err(e)
        case Ok(rest) => Ok([Member(fields[0].name, v)] + rest)
  }

  function WriteField(s: Schema, f: Field, t: string, depth: nat): Result<Json, UciError>
    decreases f, 2
  {
    match f
    case One(n) => WriteNode(s, n, t, depth)
    case Many(ns) =>
      match WriteItems(s, ns, t, depth)
      case Ok(vs) => Ok(JArray(vs))
      case Err(e) => Err(e)
  }

  function WriteItems(s: Schema, ns: seq<Node>, t: string, depth: nat): Result<seq<Json>, UciError>
    decreases ns
  {
    if ns == [] then Ok([])
    else
      match WriteNode(s, ns[0], t, depth)
      case Err(e) => Err(e)
      case Ok(v) =>
        match WriteItems(s, ns[1..], t, depth)
        case Err(e) => Err(e)
        case Ok(rest) => Ok([v] + rest)
  }

  /** `to_json`, up to printing. */
  function ToJson(s: Schema, m: Message): Result<Json, UciError> {
    var g := GlobalType(s, m.name);
    match WriteNode(s, m.body, if g.Some? then g.value else m.name, 0)
    case Ok(v) => Ok(JObject([Member(m.name, v)]))
    case Err(e) => Err(e)
  }

  // ---- Maps keep what is put in --------------------------------------------------------

  /** Members other than `$type`, in order. */
  function Named(ms: seq<Member>): seq<Member> {
    if ms == [] then [] else if ms[0].key == TYPE_KEY then Named(ms[1..]) else [ms[0]] + Named(ms[1..])
  }

  predicate AllBefore(ms: seq<Member>, key: string) {
    forall i :: 0 <= i < |ms| ==> ms[i].key == TYPE_KEY || Before(ms[i].key, key)
  }

  lemma {:induction false} InsertLast(ms: seq<Member>, m: Member)
    requires Ascending(ms) && m.key != TYPE_KEY && AllBefore(ms, m.key)
    ensures var r := Insert(ms, m);
            && Ascending(r) && Named(r) == Named(ms) + [m] && Lookup(r, TYPE_KEY) == Lookup(ms, TYPE_KEY)
            && (forall x :: x in r <==> x in ms || x == m)
  {
    if ms == [] {
      assert [m] + ms == [m];
      assert [m][1..] == [];
    } else {
      var rest := ms[1..];
      assert forall i :: 0 <= i < |rest| ==> rest[i] == ms[i + 1];
      BeforeTotal(ms[0].key, m.key);
      if Before(m.key, ms[0].key) {
        OnlyType(ms, m);
      } else {
        InsertLast(rest, m);
        var r := Insert(rest, m);
        AscendingCons(ms[0], r, rest, m);
        assert Insert(ms, m) == [ms[0]] + r;
        assert ([ms[0]] + r)[1..] == r;
        assert [ms[0]] + (Named(rest) + [m]) == [ms[0]] + Named(rest) + [m];
        assert ms == [ms[0]] + rest;
      }
    }
  }

  lemma AscendingCons(first: Member, r: seq<Member>, rest: seq<Member>, m: Member)
    requires Ascending(r) && Ascending([first] + rest) && Before(first.key, m.key)
    requires forall x :: x in r <==> x in rest || x == m
    ensures Ascending([first] + r)
  {
    var all := [first] + r;
    forall j | 0 < j < |all|
      ensures Before(first.key, all[j].key)
    {
      assert all[j] == r[j - 1] && r[j - 1] in r;
      if all[j] in rest {
        var k :| 0 <= k < |rest| && rest[k] == all[j];
        assert ([first] + rest)[k + 1] == all[j] && ([first] + rest)[0] == first;
      }
    }
    assert forall i :: 0 < i < |all| ==> all[i] == r[i - 1];
  }

  /** A key goes before the whole map only when the map is `$type` alone. */
  lemma OnlyType(ms: seq<Member>, m: Member)
    requires Ascending(ms) && m.key != TYPE_KEY && AllBefore(ms, m.key)
    requires ms != [] && Before(m.key, ms[0].key)
    ensures ms == [ms[0]] && ms[0].key == TYPE_KEY
    ensures Ascending([m] + ms) && Named([m] + ms) == Named(ms) + [m] && Lookup([m] + ms, TYPE_KEY) == Lookup(ms, TYPE_KEY)
  {
    BeforeTotal(ms[0].key, m.key);
    assert ms[0].key == TYPE_KEY;
    if |ms| > 1 {
      BeforeTotal(ms[0].key, ms[1].key);
      BeforeTransitive(ms[0].key, ms[1].key, m.key);
    }
    var r := [m] + ms;
    assert ms == [ms[0]];
    assert r[1..] == ms;
    var none: seq<Member> := ms[1..];
    assert none == [];
    assert Named(ms) == Named(none);
    assert Named(r) == [m] + Named(ms);
  }

  lemma StillBefore(ms: seq<Member>, m: Member, next: seq<Member>, key: string)
    requires AllBefore(ms, key) && Before(m.key, key) && forall x :: x in next <==> x in ms || x == m
    ensures AllBefore(next, key)
  {
    forall k | 0 <= k < |next|
      ensures next[k].key == TYPE_KEY || Before(next[k].key, key)
    {
      assert next[k] in next;
      if next[k] != m {
        var j :| 0 <= j < |ms| && ms[j] == next[k];
      }
    }
  }

  lemma {:induction false} InsertAllAscending(ms: seq<Member>, more: seq<Member>)
    requires Ascending(ms) && Ascending(more)
    requires forall i :: 0 <= i < |more| ==> more[i].key != TYPE_KEY && AllBefore(ms, more[i].key)
    ensures var r := InsertAll(ms, more);
            && Ascending(r) && Named(r) == Named(ms) + more && Lookup(r, TYPE_KEY) == Lookup(ms, TYPE_KEY)
            && (forall x :: x in r <==> x in ms || x in more)
    decreases |more|
  {
    if more == [] {
      assert Named(ms) + more == Named(ms);
    } else {
      var m, rest := more[0], more[1..];
      var next := Insert(ms, m);
      InsertLast(ms, m);
      AllStillBefore(ms, more, next);
      InsertAllAscending(next, rest);
      NamedMore(Named(ms), more);
    }
  }

  lemma AllStillBefore(ms: seq<Member>, more: seq<Member>, next: seq<Member>)
    requires more != [] && Ascending(more) && forall x :: x in next <==> x in ms || x == more[0]
    requires forall i :: 0 <= i < |more| ==> more[i].key != TYPE_KEY && AllBefore(ms, more[i].key)
    ensures Ascending(more[1..]) && forall i :: 0 <= i < |more[1..]| ==> more[1..][i].key != TYPE_KEY && AllBefore(next, more[1..][i].key)
  {
    var rest := more[1..];
    assert forall i :: 0 <= i < |rest| ==> rest[i] == more[i + 1];
    forall i | 0 <= i < |rest| ensures AllBefore(next, rest[i].key) {
      assert AllBefore(ms, more[i + 1].key);
      StillBefore(ms, more[0], next, rest[i].key);
    }
  }

  lemma NamedMore(named: seq<Member>, more: seq<Member>)
    requires more != []
    ensures named + [more[0]] + more[1..] == named + more
    ensures forall x :: x in more <==> x == more[0] || x in more[1..]
  {
    assert more == [more[0]] + more[1..];
  }

  /** The object a node is written as: its fields, and `$type` if it has one. */
  lemma WrittenObject(typeName: Option<string>, ms: seq<Member>)
    requires Ascending(ms) && forall i :: 0 <= i < |ms| ==> ms[i].key != TYPE_KEY
    ensures var r := InsertAll(TypeMember(typeName), ms);
            && Ascending(r) && Named(r) == ms
            && Lookup(r, TYPE_KEY) == (if typeName.Some? then Some(JString(typeName.value)) else None)
            && (forall x :: x in r <==> x in TypeMember(typeName) || x in ms)
  {
    var base := TypeMember(typeName);
    InsertAllAscending(base, ms);
    if typeName.Some? {
      var none: seq<Member> := base[1..];
      assert none == [] && Named(base) == Named(none);
    }
    assert [] + ms == ms;
  }

  // ---- Round trip ----------------------------------------------------------------------

  /** A leaf that was read is written as a value that reads as the same leaf. */
  lemma LeafRoundTrip(p: Platform, v: Json, t: string)
    requires ReadSimple(p, v, t).Ok?
    ensures ReadSimple(p, WriteSimple(ReadSimple(p, v, t).value), t) == ReadSimple(p, v, t)
    ensures IsMap(WriteSimple(ReadSimple(p, v, t).value))
  {
  }

  /** Reading looks at members by name, `$type` aside. */
  lemma {:induction false} ReadNamed(p: Platform, s: Schema, ms: seq<Member>, decls: seq<ElementDecl>, depth: nat)
    ensures ReadMembers(p, s, ms, decls, depth) == ReadMembers(p, s, Named(ms), decls, depth)
  {
    if ms != [] {
      ReadNamed(p, s, ms[1..], decls, depth);
      if ms[0].key != TYPE_KEY {
        assert Named(ms)[1..] == Named(ms[1..]);
      }
    }
  }

  /** Fields read from a map carry its keys, ascending. */
  lemma {:induction false} FieldNames(p: Platform, s: Schema, ms: seq<Member>, decls: seq<ElementDecl>, depth: nat)
    requires Ascending(ms) && ReadMembers(p, s, ms, decls, depth).Ok?
    ensures var fs := ReadMembers(p, s, ms, decls, depth).value;
            && (forall i :: 0 <= i < |fs| ==> fs[i].name != TYPE_KEY && exists k :: 0 <= k < |ms| && ms[k].key == fs[i].name)
            && (forall i, j :: 0 <= i < j < |fs| ==> Before(fs[i].name, fs[j].name))
  {
    if ms != [] {
      var rest := ms[1..];
      assert forall i :: 0 <= i < |rest| ==> rest[i] == ms[i + 1];
      FieldNames(p, s, rest, decls, depth);
      var tail := ReadMembers(p, s, rest, decls, depth).value;
      forall i | 0 <= i < |tail|
        ensures Before(ms[0].key, tail[i].name)
        ensures exists k :: 0 <= k < |ms| && ms[k].key == tail[i].name
      {
        var k :| 0 <= k < |rest| && rest[k].key == tail[i].name;
        assert ms[k + 1].key == tail[i].name;
      }
    }
  }

  /** What a read node is written as reads back as the same node. */
  lemma {:induction false} NodeRoundTrip(p: Platform, s: Schema, v: Json, t: string, depth: nat)
    requires IsMap(v) && ReadNode(p, s, v, t, depth).Ok?
    ensures var n := ReadNode(p, s, v, t, depth).value;
            var w := WriteNode(s, n, t, depth);
            w.Ok? && IsMap(w.value) && ReadNode(p, s, w.value, t, depth) == Ok(n) && !w.value.JArray?
    decreases v, 1
  {
    if IsLeafType(s, t) {
      LeafRoundTrip(p, v, Reduce(s, t, MAX_SIMPLE_DEPTH));
    } else {
      var actual := ActualType(v.members, t);
      var decls := Flatten(s, actual).value;
      MembersRoundTrip(p, s, v.members, decls, depth + 1);
      FieldNames(p, s, v.members, decls, depth + 1);
      ComplexRoundTrip(p, s, ReadMembers(p, s, v.members, decls, depth + 1).value, decls, actual, t, depth);
    }
  }

  /** Fields that read back from what they are written as, under an object of their own. */
  lemma ComplexRoundTrip(p: Platform, s: Schema, fields: seq<NamedField>, decls: seq<ElementDecl>, actual: string, t: string, depth: nat)
    requires depth <= MAX_DEPTH && !IsLeafType(s, t) && IsComplex(s, actual) && Flatten(s, actual) == Ok(decls)
    requires forall i :: 0 <= i < |fields| ==> fields[i].name != TYPE_KEY
    requires forall i, j :: 0 <= i < j < |fields| ==> Before(fields[i].name, fields[j].name)
    requires var w := WriteFields(s, fields, decls, depth + 1);
             && w.Ok? && |w.value| == |fields| && ReadMembers(p, s, w.value, decls, depth + 1) == Ok(fields)
             && (forall i :: 0 <= i < |fields| ==> w.value[i].key == fields[i].name && IsMap(w.value[i].value))
    ensures var n := Complex(Override(actual, t), fields);
            var w := WriteNode(s, n, t, depth);
            w.Ok? && IsMap(w.value) && ReadNode(p, s, w.value, t, depth) == Ok(n) && w.value.JObject?
  {
    var n := Complex(Override(actual, t), fields);
    var ms := WriteFields(s, fields, decls, depth + 1).value;
    KeysAscend(fields, ms);
    ObjectReads(p, s, fields, ms, decls, actual, t, depth);
    assert ActualOf(n, t) == actual && DeclsOf(s, actual) == Ok(decls);
  }

  lemma KeysAscend(fields: seq<NamedField>, ms: seq<Member>)
    requires |ms| == |fields| && forall i :: 0 <= i < |ms| ==> ms[i].key == fields[i].name
    requires forall i, j :: 0 <= i < j < |fields| ==> Before(fields[i].name, fields[j].name)
    ensures Ascending(ms)
  {
  }

  /** An object written from fields reads as those fields, under the type it names. */
  lemma ObjectReads(
      p: Platform, s: Schema, fields: seq<NamedField>, ms: seq<Member>, decls: seq<ElementDecl>, actual: string, t: string, depth: nat)
    requires Ascending(ms) && forall i :: 0 <= i < |ms| ==> ms[i].key != TYPE_KEY && IsMap(ms[i].value)
    requires ReadMembers(p, s, ms, decls, depth + 1) == Ok(fields)
    requires depth <= MAX_DEPTH && !IsLeafType(s, t) && IsComplex(s, actual) && Flatten(s, actual) == Ok(decls)
    ensures var w := JObject(InsertAll(TypeMember(Override(actual, t)), ms));
            IsMap(w) && ReadNode(p, s, w, t, depth) == Ok(Complex(Override(actual, t), fields))
  {
    var typeName := Override(actual, t);
    WrittenObject(typeName, ms);
    var written := InsertAll(TypeMember(typeName), ms);
    ReadNamed(p, s, written, decls, depth + 1);
    assert ActualType(written, t) == actual;
    forall i | 0 <= i < |written|
      ensures IsMap(written[i].value)
    {
      assert written[i] in written;
      if written[i] in ms {
        var k :| 0 <= k < |ms| && ms[k] == written[i];
      }
    }
  }

  lemma {:induction false} MembersRoundTrip(p: Platform, s: Schema, ms: seq<Member>, decls: seq<ElementDecl>, depth: nat)
    requires forall i :: 0 <= i < |ms| ==> IsMap(ms[i].value)
    requires ReadMembers(p, s, ms, decls, depth).Ok?
    ensures var fs := ReadMembers(p, s, ms, decls, depth).value;
            var w := WriteFields(s, fs, decls, depth);
            && w.Ok? && |w.value| == |fs|
            && (forall i :: 0 <= i < |fs| ==> w.value[i].key == fs[i].name && IsMap(w.value[i].value))
            && ReadMembers(p, s, w.value, decls, depth) == Ok(fs)
    decreases ms
  {
    if ms != [] {
      var rest := ms[1..];
      assert forall i :: 0 <= i < |rest| ==> rest[i] == ms[i + 1];
      MembersRoundTrip(p, s, rest, decls, depth);
      if ms[0].key != TYPE_KEY {
        var t, repeats := ChildType(decls, ms[0].key), Repeats(decls, ms[0].key);
        FieldRoundTrip(p, s, ms[0].value, t, repeats, depth);
        var field := ReadField(p, s, ms[0].value, t, repeats, depth).value;
        var tail := ReadMembers(p, s, rest, decls, depth).value;
        var fs := [NamedField(ms[0].key, field)] + tail;
        assert fs[1..] == tail;
        var w := WriteFields(s, fs, decls, depth).value;
        assert w[1..] == WriteFields(s, tail, decls, depth).value;
      }
    }
  }

  lemma {:induction false} FieldRoundTrip(p: Platform, s: Schema, v: Json, t: string, repeats: bool, depth: nat)
    requires IsMap(v) && ReadField(p, s, v, t, repeats, depth).Ok?
    ensures var f := ReadField(p, s, v, t, repeats, depth).value;
            var w := WriteField(s, f, t, depth);
            w.Ok? && IsMap(w.value) && ReadField(p, s, w.value, t, repeats, depth) == Ok(f)
    decreases v, 2
  {
    if repeats && v.JArray? {
      ItemsRoundTrip(p, s, v.items, t, depth);
    } else {
      NodeRoundTrip(p, s, v, t, depth);
      if repeats {
        var n := ReadNode(p, s, v, t, depth).value;
        var w := WriteNode(s, n, t, depth).value;
        SingleItem(p, s, n, w, t, depth);
      }
    }
  }

  lemma SingleItem(p: Platform, s: Schema, n: Node, w: Json, t: string, depth: nat)
    requires WriteNode(s, n, t, depth) == Ok(w) && ReadNode(p, s, w, t, depth) == Ok(n)
    ensures WriteItems(s, [n], t, depth) == Ok([w]) && ReadItems(p, s, [w], t, depth) == Ok([n])
  {
    var ns, ws := [n], [w];
    assert ns[1..] == [] && ws[1..] == [];
    assert [w] + [] == [w] && [n] + [] == [n];
  }

  lemma {:induction false} ItemsRoundTrip(p: Platform, s: Schema, vs: seq<Json>, t: string, depth: nat)
    requires (forall i :: 0 <= i < |vs| ==> IsMap(vs[i])) && ReadItems(p, s, vs, t, depth).Ok?
    ensures var ns := ReadItems(p, s, vs, t, depth).value;
            var w := WriteItems(s, ns, t, depth);
            w.Ok? && (forall i :: 0 <= i < |w.value| ==> IsMap(w.value[i])) && ReadItems(p, s, w.value, t, depth) == Ok(ns)
    decreases vs
  {
    if vs != [] {
      assert forall i :: 0 <= i < |vs[1..]| ==> vs[1..][i] == vs[i + 1];
      NodeRoundTrip(p, s, vs[0], t, depth);
      ItemsRoundTrip(p, s, vs[1..], t, depth);
      var n := ReadNode(p, s, vs[0], t, depth).value;
      var rest := ReadItems(p, s, vs[1..], t, depth).value;
      assert ([n] + rest)[1..] == rest;
      var w := WriteItems(s, [n] + rest, t, depth).value;
      assert w[1..] == WriteItems(s, rest, t, depth).value;
    }
  }

  /** Every message read from JSON, root `$type` included, is written as JSON that reads as
      the same message. */
  lemma JsonRoundTrip(p: Platform, s: Schema, v: Json)
    requires IsMap(v) && FromJson(p, s, v).Ok?
    ensures var m := FromJson(p, s, v).value;
            ToJson(s, m).Ok? && FromJson(p, s, ToJson(s, m).value) == Ok(m)
  {
    NodeRoundTrip(p, s, v.members[0].value, GlobalType(s, v.members[0].key).value, 0);
  }
}
