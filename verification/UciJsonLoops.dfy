/** The JSON reader and writer as they run: fields pushed one by one, members inserted into
    the object as they are written (crates/oa-gateway-uci/src/json.rs). */
module UciJsonLoops {
  import opened Wrappers
  import opened Primitive
  import opened UciSchema
  import opened UciFacets
  import opened UciInstance
  import opened UciJson

  /** What has been read, followed by what is still to come. */
  function Then<T>(done: seq<T>, rest: Result<seq<T>, UciError>): Result<seq<T>, UciError> {
    if rest.Err? then rest else Ok(done + rest.value)
  }

  lemma ThenNothing<T>(rest: Result<seq<T>, UciError>)
    ensures Then([], rest) == rest
  {
    if rest.Ok? { assert [] + rest.value == rest.value; }
  }

  lemma ThenOne<T>(done: seq<T>, x: T, rest: Result<seq<T>, UciError>)
    ensures Then(done, Then([x], rest)) == Then(done + [x], rest)
  {
    if rest.Ok? { assert done + ([x] + rest.value) == done + [x] + rest.value; }
  }

  /** `read_node` */
  method ReadValue(p: Platform, s: Schema, v: Json, t: string, depth: nat) returns (r: Result<Node, UciError>)
    ensures r == ReadNode(p, s, v, t, depth)
    decreases v, 1
  {
    if depth > MAX_DEPTH { return Err(TooDeep); }
    if IsLeafType(s, t) {
      var primitive := PrimitiveOf(s, t);
      var leaf := ReadSimple(p, v, primitive);
      return if leaf.Ok? then Ok(Leaf(leaf.value)) else Err(leaf.error);
    }
    if !v.JObject? { return Err(CannotMap); }
    var actual := ActualType(v.members, t);
    if !IsComplex(s, actual) { return Err(NoSuchType(actual)); }
    var decls := Flatten(s, actual);
    if decls.Err? { return Err(FromSchema(decls.error)); }
    var fields := ReadAllMembers(p, s, v.members, decls.value, depth + 1);
    return if fields.Ok? then Ok(Complex(Override(actual, t), fields.value)) else Err(fields.error);
  }

  /** The loop over the members of an object. */
  method ReadAllMembers(p: Platform, s: Schema, ms: seq<Member>, decls: seq<ElementDecl>, depth: nat)
      returns (r: Result<seq<NamedField>, UciError>)
    ensures r == ReadMembers(p, s, ms, decls, depth)
    decreases ms
  {
    var fields: seq<NamedField> := [];
    ThenNothing(ReadMembers(p, s, ms, decls, depth));
    assert ms[0..] == ms;
    for i := 0 to |ms|
      invariant ReadMembers(p, s, ms, decls, depth) == Then(fields, ReadMembers(p, s, ms[i..], decls, depth))
    {
      assert ms[i..][0] == ms[i] && ms[i..][1..] == ms[i + 1..];
      var key, val := ms[i].key, ms[i].value;
      if key == TYPE_KEY { continue; }
      var childType, repeats := ChildType(decls, key), Repeats(decls, key);
      var field: Field;
      if repeats && val.JArray? {
        var items := ReadAllItems(p, s, val.items, childType, depth);
        if items.Err? { return Err(items.error); }
        field := Many(items.value);
      } else {
        var node := ReadValue(p, s, val, childType, depth);
        if node.Err? { return Err(node.error); }
        field := if repeats then Many([node.value]) else One(node.value);
      }
      ThenOne(fields, NamedField(key, field), ReadMembers(p, s, ms[i + 1..], decls, depth));
      fields := fields + [NamedField(key, field)];
    }
    assert fields + [] == fields;
    return Ok(fields);
  }

  method ReadAllItems(p: Platform, s: Schema, vs: seq<Json>, t: string, depth: nat) returns (r: Result<seq<Node>, UciError>)
    ensures r == ReadItems(p, s, vs, t, depth)
    decreases vs
  {
    var nodes: seq<Node> := [];
    ThenNothing(ReadItems(p, s, vs, t, depth));
    assert vs[0..] == vs;
    for i := 0 to |vs|
      invariant ReadItems(p, s, vs, t, depth) == Then(nodes, ReadItems(p, s, vs[i..], t, depth))
    {
      assert vs[i..][0] == vs[i] && vs[i..][1..] == vs[i + 1..];
      var node := ReadValue(p, s, vs[i], t, depth);
      if node.Err? { return Err(node.error); }
      ThenOne(nodes, node.value, ReadItems(p, s, vs[i + 1..], t, depth));
      nodes := nodes + [node.value];
    }
    assert nodes + [] == nodes;
    return Ok(nodes);
  }

  // ---- Writing -------------------------------------------------------------------------

  /** Members still to come, put into an object. */
  function PutInto(ms: seq<Member>, rest: Result<seq<Member>, UciError>): Result<Json, UciError> {
    if rest.Err? then Err(rest.error) else Ok(JObject(InsertAll(ms, rest.value)))
  }

  /** `write_node` */
  method WriteValue(s: Schema, n: Node, t: string, depth: nat) returns (r: Result<Json, UciError>)
    ensures r == WriteNode(s, n, t, depth)
    decreases n, 1
  {
    if depth > MAX_DEPTH { return Err(TooDeep); }
    if n.Leaf? { return Ok(WriteSimple(n.simple)); }
    var decls := DeclsOf(s, ActualOf(n, t));
    if decls.Err? { return Err(decls.error); }
    r := WriteObject(s, TypeMember(n.typeName), n.fields, decls.value, depth + 1);
  }

  /** The loop that fills the object. */
  method WriteObject(s: Schema, start: seq<Member>, fields: seq<NamedField>, decls: seq<ElementDecl>, depth: nat)
      returns (r: Result<Json, UciError>)
    ensures r == PutInto(start, UciJson.WriteFields(s, fields, decls, depth))
    decreases fields
  {
    var members := start;
    assert fields[0..] == fields;
    for i := 0 to |fields|
      invariant PutInto(start, UciJson.WriteFields(s, fields, decls, depth)) == PutInto(members, UciJson.WriteFields(s, fields[i..], decls, depth))
    {
      assert fields[i..][0] == fields[i] && fields[i..][1..] == fields[i + 1..];
      var name := fields[i].name;
      var childType := ChildType(decls, name);
      var value: Json;
      match fields[i].field {
        case One(n) =>
          var one := WriteValue(s, n, childType, depth);
          if one.Err? { return Err(one.error); }
          value := one.value;
        case Many(items) =>
          var all := WriteArray(s, items, childType, depth);
          if all.Err? { return Err(all.error); }
          value := JArray(all.value);
      }
      InsertFirst(members, Member(name, value), UciJson.WriteFields(s, fields[i + 1..], decls, depth));
      members := Insert(members, Member(name, value));
    }
    return Ok(JObject(members));
  }

  lemma InsertFirst(members: seq<Member>, m: Member, rest: Result<seq<Member>, UciError>)
    ensures rest.Ok? ==> PutInto(members, Ok([m] + rest.value)) == PutInto(Insert(members, m), rest)
  {
    if rest.Ok? { assert ([m] + rest.value)[1..] == rest.value; }
  }

  method WriteArray(s: Schema, ns: seq<Node>, t: string, depth: nat) returns (r: Result<seq<Json>, UciError>)
    ensures r == UciJson.WriteItems(s, ns, t, depth)
    decreases ns
  {
    var values: seq<Json> := [];
    ThenNothing(UciJson.WriteItems(s, ns, t, depth));
    assert ns[0..] == ns;
    for i := 0 to |ns|
      invariant UciJson.WriteItems(s, ns, t, depth) == Then(values, UciJson.WriteItems(s, ns[i..], t, depth))
    {
      assert ns[i..][0] == ns[i] && ns[i..][1..] == ns[i + 1..];
      var value := WriteValue(s, ns[i], t, depth);
      if value.Err? { return Err(value.error); }
      ThenOne(values, value.value, UciJson.WriteItems(s, ns[i + 1..], t, depth));
      values := values + [value.value];
    }
    assert values + [] == values;
    return Ok(values);
  }

  /** `from_json`, on a parsed value. */
  method ReadMessage(p: Platform, s: Schema, v: Json) returns (r: Result<Message, UciError>)
    ensures r == FromJson(p, s, v)
  {
    if !v.JObject? { return Err(NotAnObject); }
    if |v.members| != 1 { return Err(NotOneMember); }
    var name := v.members[0].key;
    var declared := GlobalType(s, name);
    if declared.None? { return Err(UnknownElement(name)); }
    var body := ReadValue(p, s, v.members[0].value, declared.value, 0);
    return if body.Ok? then Ok(Message(name, body.value)) else Err(body.error);
  }

  /** `to_json`, up to printing. */
  method WriteMessage(s: Schema, m: Message) returns (r: Result<Json, UciError>)
    ensures r == ToJson(s, m)
  {
    var g := GlobalType(s, m.name);
    var body := WriteValue(s, m.body, if g.Some? then g.value else m.name, 0);
    return if body.Ok? then Ok(JObject([Member(m.name, body.value)])) else Err(body.error);
  }
}
