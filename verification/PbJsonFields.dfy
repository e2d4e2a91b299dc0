/**
 What reading JSON makes of a message, field by field, apart from the functions that do it: which value sets which
 field to what, what is refused with which error, and that nothing else of the message changes (pbjson.cc).
 */
module PbJsonFields {
  import opened Bytes
  import opened PbJson
  import Base64
  import Json = JsonText

  /** A JSON value and what it stands for as a value of this kind: integers in range, enums by number or by name. */
  predicate Spells(kind: Kind, json: Json.Value, v: Val) {
    match kind
    case Int32 => json.Number? && v == Int(json.n) && -0x8000_0000 <= json.n <= 0x7FFF_FFFF
    case Uint32 => json.Number? && v == Int(json.n) && 0 <= json.n <= 0xFFFF_FFFF
    case Int64 => json.Number? && v == Int(json.n) && -0x8000_0000_0000_0000 <= json.n <= 0x7FFF_FFFF_FFFF_FFFF
    case Uint64 => json.Number? && v == Int(json.n) && 0 <= json.n <= 0xFFFF_FFFF_FFFF_FFFF
    case Boolean => json.Bool? && v == Bool(json.b)
    case Text => json.String? && v == Bytes(json.s)
    case Binary => json.String? && v.Bytes? && Base64.Decode(json.s) == Base64.Decoded(v.s)
    case Enum(numbers, names) =>
      || (json.Number? && v == Int(json.n) && json.n in numbers && -0x8000_0000 <= json.n <= 0x7FFF_FFFF)
      || (json.String? && CString(json.s) in names && v == Int(names[CString(json.s)]))
    case Message(_) => false
  }

  predicate IsNumeric(kind: Kind) {
    kind.Int32? || kind.Uint32? || kind.Int64? || kind.Uint64?
  }

  /** The value is taken exactly for what it spells; otherwise its type decides how it is refused. */
  lemma PlainExactly(schema: Schema, kind: Kind, json: Json.Value, v: Val)
    requires !kind.Message?
    requires kind.Enum? ==> forall name | name in kind.names :: NumberFits(kind, kind.names[name])
    ensures DecodePlain(schema, kind, json) == Ok(v) <==> Spells(kind, json, v)
    ensures DecodePlain(schema, kind, json).Thrown? <==> kind.Binary? && json.String? && !Base64.Decode(json.s).Decoded?
    ensures DecodePlain(schema, kind, json).Fault? <==>
      json.Number? && (if kind.Enum? then !(-0x8000_0000 <= json.n <= 0x7FFF_FFFF)
                       else IsNumeric(kind) && !Spells(kind, json, Int(json.n)))
    ensures DecodePlain(schema, kind, json).Err? ==> DecodePlain(schema, kind, json).error == InvalidJson
  {
  }

  /** The names of a type's fields differ, so there is one place for a name or none. */
  lemma FoundExactly(schema: Schema, t: nat, name: seq<byte>, i: nat)
    requires ValidSchema(schema) && t < |schema|
    ensures i < |schema[t].fields| && schema[t].fields[i].name == name ==> Find(schema[t].fields, name) == i
    ensures (forall f | f in schema[t].fields :: f.name != name) ==> Find(schema[t].fields, name) == |schema[t].fields|
  {
    assert ValidType(schema, schema[t]);
    var found := Find(schema[t].fields, name);
    if found < |schema[t].fields| { assert schema[t].fields[found] in schema[t].fields; }
  }

  /** A member whose name no field has. */
  lemma UnknownMember(schema: Schema, t: nat, member: Json.Member, m: Msg)
    requires ValidSchema(schema) && t < |schema| && FitsType(schema, t, m)
    requires forall f | f in schema[t].fields :: f.name != CString(member.name)
    ensures DecodeMember(schema, t, member, m) == Err(UnknownField)
  {
    FoundExactly(schema, t, CString(member.name), 0);
  }

  /** Values one by one. */
  predicate SpellsAll(kind: Kind, elements: seq<Json.Value>, vs: seq<Val>) {
    |vs| == |elements| && forall k | 0 <= k < |vs| :: Spells(kind, elements[k], vs[k])
  }

  /** A member for a field that is no message: it sets that field, or adds to it, and changes nothing else. */
  lemma PlainMember(schema: Schema, t: nat, member: Json.Member, m: Msg, i: nat, r: Msg)
    requires ValidSchema(schema) && t < |schema| && FitsType(schema, t, m) && i < |schema[t].fields|
    requires schema[t].fields[i].name == CString(member.name) && !schema[t].fields[i].kind.Message?
    ensures
      var f := schema[t].fields[i];
      DecodeMember(schema, t, member, m) == Ok(r) <==>
      if f.rule.Repeated?
      then member.value.Array? && m.slots[i].Many?
           && exists vs :: SpellsAll(f.kind, member.value.elements, vs) && r == Msg(m.slots[i := Many(m.slots[i].vs + vs)])
      else exists v :: Spells(f.kind, member.value, v) && r == Msg(m.slots[i := Set(v)])
  {
    var f := schema[t].fields[i];
    FoundExactly(schema, t, CString(member.name), i);
    assert ValidType(schema, schema[t]);
    assert FitsSlot(schema, f, m.slots[i]);
    if f.rule.Repeated? {
      if member.value.Array? { PlainElements(schema, t, i, member.value.elements, m, r); }
    } else {
      PlainField(schema, t, i, member.value, m, r);
    }
  }

  /** The slot after one more value. */
  function Stored(f: Field, slot: Slot, v: Val): Slot {
    if f.rule.Repeated? && slot.Many? then Many(slot.vs + [v]) else Set(v)
  }

  lemma PlainField(schema: Schema, t: nat, i: nat, json: Json.Value, m: Msg, r: Msg)
    requires ValidSchema(schema) && t < |schema| && FitsType(schema, t, m) && i < |m.slots|
    requires ValidField(schema, schema[t], schema[t].fields[i]) && !schema[t].fields[i].kind.Message?
    ensures
      var f := schema[t].fields[i];
      DecodeField(schema, t, i, json, m) == Ok(r) <==>
      exists v :: Spells(f.kind, json, v) && r == Msg(m.slots[i := Stored(f, m.slots[i], v)])
  {
    hide DecodePlain, Spells, ValidSchema;
    var f := schema[t].fields[i];
    assert FitsSlot(schema, f, m.slots[i]);
    var d := DecodePlain(schema, f.kind, json);
    if d.Ok? { PlainExactly(schema, f.kind, json, d.value); }
    if v :| Spells(f.kind, json, v) && r == Msg(m.slots[i := Stored(f, m.slots[i], v)]) {
      PlainExactly(schema, f.kind, json, v);
    }
  }

  lemma PlainElements(schema: Schema, t: nat, i: nat, elements: seq<Json.Value>, m: Msg, r: Msg)
    requires ValidSchema(schema) && t < |schema| && FitsType(schema, t, m) && i < |m.slots|
    requires ValidField(schema, schema[t], schema[t].fields[i]) && !schema[t].fields[i].kind.Message? && m.slots[i].Many?
    ensures
      DecodeElements(schema, t, i, elements, m) == Ok(r) <==>
      exists vs :: SpellsAll(schema[t].fields[i].kind, elements, vs) && r == Msg(m.slots[i := Many(m.slots[i].vs + vs)])
  {
    hide DecodeElements, SpellsAll, ValidField, ValidSchema;
    if DecodeElements(schema, t, i, elements, m) == Ok(r) {
      var vs := ElementsOf(schema, t, i, elements, m, r);
    }
    if vs :| SpellsAll(schema[t].fields[i].kind, elements, vs) && r == Msg(m.slots[i := Many(m.slots[i].vs + vs)]) {
      ElementsRead(schema, t, i, elements, m, vs);
    }
  }

  /** The message after one more value of a repeated field. */
  function Added(m: Msg, i: nat, vs: seq<Val>): Msg
    requires i < |m.slots| && m.slots[i].Many?
  {
    Msg(m.slots[i := Many(m.slots[i].vs + vs)])
  }

  lemma AddedTwice(m: Msg, i: nat, v: Val, vs: seq<Val>)
    requires i < |m.slots| && m.slots[i].Many?
    ensures Added(Added(m, i, [v]), i, vs) == Added(m, i, [v] + vs) && Added(m, i, []) == m
  {
    assert m.slots[i].vs + [v] + vs == m.slots[i].vs + ([v] + vs);
    assert m.slots[i].vs + [] == m.slots[i].vs;
    assert m.slots[i := m.slots[i]] == m.slots;
    assert Added(m, i, [v]).slots[i := Many(m.slots[i].vs + ([v] + vs))] == m.slots[i := Many(m.slots[i].vs + ([v] + vs))];
  }

  lemma {:induction false} ElementsRead(schema: Schema, t: nat, i: nat, elements: seq<Json.Value>, m: Msg, vs: seq<Val>)
    requires ValidSchema(schema) && t < |schema| && FitsType(schema, t, m) && i < |m.slots|
    requires ValidField(schema, schema[t], schema[t].fields[i]) && !schema[t].fields[i].kind.Message? && m.slots[i].Many?
    requires SpellsAll(schema[t].fields[i].kind, elements, vs)
    ensures DecodeElements(schema, t, i, elements, m) == Ok(Added(m, i, vs))
    decreases |elements|
  {
    hide DecodeField, Spells, ValidField, ValidSchema;
    var f := schema[t].fields[i];
    assert FitsSlot(schema, f, m.slots[i]);
    if |elements| == 0 {
      assert vs == [];
      AddedTwice(m, i, f.default, []);
    } else {
      assert vs == [vs[0]] + vs[1..];
      PlainField(schema, t, i, elements[0], m, Added(m, i, [vs[0]]));
      ElementsRead(schema, t, i, elements[1..], Added(m, i, [vs[0]]), vs[1..]);
      AddedTwice(m, i, vs[0], vs[1..]);
    }
  }

  lemma {:induction false} ElementsOf(schema: Schema, t: nat, i: nat, elements: seq<Json.Value>, m: Msg, r: Msg)
      returns (vs: seq<Val>)
    requires ValidSchema(schema) && t < |schema| && FitsType(schema, t, m) && i < |m.slots|
    requires ValidField(schema, schema[t], schema[t].fields[i]) && !schema[t].fields[i].kind.Message? && m.slots[i].Many?
    requires DecodeElements(schema, t, i, elements, m) == Ok(r)
    ensures SpellsAll(schema[t].fields[i].kind, elements, vs) && r == Added(m, i, vs)
    decreases |elements|
  {
    hide DecodeField, Spells, ValidField, ValidSchema;
    var f := schema[t].fields[i];
    assert FitsSlot(schema, f, m.slots[i]);
    if |elements| == 0 {
      vs := [];
      AddedTwice(m, i, f.default, []);
    } else {
      var next := DecodeField(schema, t, i, elements[0], m).value;
      PlainField(schema, t, i, elements[0], m, next);
      var v :| Spells(f.kind, elements[0], v) && next == Added(m, i, [v]);
      var rest := ElementsOf(schema, t, i, elements[1..], next, r);
      vs := [v] + rest;
      AddedTwice(m, i, v, rest);
    }
  }

  /** A member for a message field: an object that is read into what is there, or into a new element. */
  lemma MessageMember(schema: Schema, t: nat, member: Json.Member, m: Msg, i: nat, r: Msg)
    requires ValidSchema(schema) && t < |schema| && FitsType(schema, t, m) && i < |schema[t].fields|
    requires schema[t].fields[i].name == CString(member.name) && schema[t].fields[i].kind.Message?
    requires !schema[t].fields[i].rule.Repeated?
    ensures
      var u := schema[t].fields[i].kind.t;
      u < |schema| && FitsType(schema, u, Empty(schema[u]))
      && (DecodeMember(schema, t, member, m) == Ok(r) <==>
          exists x :: r == Msg(m.slots[i := Set(Sub(x))])
            && (m.slots[i].Set? ==> m.slots[i].v.Sub? && FitsType(schema, u, m.slots[i].v.m))
            && Decode(schema, u, member.value, if m.slots[i].Set? then m.slots[i].v.m else Empty(schema[u])) == Ok(x))
  {
    hide Decode;
    var f := schema[t].fields[i];
    FoundExactly(schema, t, CString(member.name), i);
    assert ValidType(schema, schema[t]);
    assert FitsSlot(schema, f, m.slots[i]);
    assert m.slots[i].Set? ==> Fits(schema, f.kind, m.slots[i].v);
    EmptyFits(schema, f.kind.t);
    var d := Decode(schema, f.kind.t, member.value, Target(schema, f, m.slots[i]));
    if d.Ok? { assert Put(schema, t, m, i, Sub(d.value)) == Msg(m.slots[i := Set(Sub(d.value))]); }
  }

  /** Members are taken in order, and the first that is refused decides. */
  lemma {:induction false} MembersInOrder(schema: Schema, t: nat, a: seq<Json.Member>, b: seq<Json.Member>, m: Msg)
    requires ValidSchema(schema) && t < |schema| && FitsType(schema, t, m)
    ensures
      var first := DecodeMembers(schema, t, a, m);
      DecodeMembers(schema, t, a + b, m) == if first.Ok? then DecodeMembers(schema, t, b, first.value) else first
    decreases |a|
  {
    hide DecodeMember, ValidSchema, FitsType;
    if |a| == 0 {
      assert a + b == b;
    } else {
      assert (a + b)[1..] == a[1..] + b;
      var d := DecodeMember(schema, t, a[0], m);
      if d.Ok? { MembersInOrder(schema, t, a[1..], b, d.value); }
    }
  }

  /** Only an object is read at all. */
  lemma OnlyObjects(schema: Schema, t: nat, json: Json.Value, m: Msg, members: seq<Json.Member>)
    requires ValidSchema(schema) && t < |schema| && FitsType(schema, t, m)
    ensures !json.Object? ==> Decode(schema, t, json, m) == Err(InvalidJson)
    ensures DecodeMembers(schema, t, [], m) == Ok(m)
    ensures Decode(schema, t, Json.Object(members), m) == DecodeMembers(schema, t, members, m)
  {
  }
}
