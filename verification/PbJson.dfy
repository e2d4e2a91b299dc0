/**
 Messages to JSON and back, directed by their schema (pbjson.cc). Decode of Encode gives the message with its
 required fields filled in; so it gives the message itself exactly if all of them were set.
 */
module PbJson {
  import opened Bytes
  import Base64
  import Json = JsonText
  import JsonReader
  import JsonWriter

  // ---- Schemas and messages ----

  /** The types of a field; a message type is named by its place in the schema. */
  datatype Kind =
    | Int32 | Uint32 | Int64 | Uint64 | Boolean | Text | Binary
    | Enum(numbers: set<int>, names: map<seq<byte>, int>)
    | Message(t: nat)

  datatype Rule = Required | Optional | Repeated

  datatype Field = Field(name: seq<byte>, rule: Rule, kind: Kind, default: Val)

  /** `depth` is more than that of the types of required fields: without it no message of the type could be complete. */
  datatype Descriptor = Descriptor(fields: seq<Field>, depth: nat)

  type Schema = seq<Descriptor>

  datatype Val = Int(n: int) | Bool(b: bool) | Bytes(s: seq<byte>) | Sub(m: Msg)

  datatype Slot = Unset | Set(v: Val) | Many(vs: seq<Val>)

  /** One slot for each field of the type. */
  datatype Msg = Msg(slots: seq<Slot>)

  predicate NumberFits(kind: Kind, n: int) {
    match kind
    case Int32 => JsonReader.FitsInt32(n)
    case Uint32 => JsonReader.FitsUint32(n)
    case Int64 => JsonReader.FitsInt64(n)
    case Uint64 => JsonReader.FitsUint64(n)
    case Enum(numbers, _) => n in numbers && JsonReader.FitsInt32(n)
    case _ => false
  }

  predicate Fits(schema: Schema, kind: Kind, v: Val)
    decreases v, 0
  {
    match v
    case Int(n) => NumberFits(kind, n)
    case Bool(_) => kind.Boolean?
    case Bytes(_) => kind.Text? || kind.Binary?
    case Sub(m) => kind.Message? && kind.t < |schema| && FitsType(schema, kind.t, m)
  }

  predicate FitsType(schema: Schema, t: nat, m: Msg)
    requires t < |schema|
    decreases m, 0
  {
    && |m.slots| == |schema[t].fields|
    && forall i | 0 <= i < |m.slots| :: FitsSlot(schema, schema[t].fields[i], m.slots[i])
  }

  predicate FitsSlot(schema: Schema, f: Field, slot: Slot)
    decreases slot, 0
  {
    match slot
    case Unset => !f.rule.Repeated?
    case Set(v) => !f.rule.Repeated? && Fits(schema, f.kind, v)
    case Many(vs) => f.rule.Repeated? && forall v | v in vs :: Fits(schema, f.kind, v)
  }

  /** Names differ and hold no NUL, defaults fit, and types are part of the schema. */
  ghost predicate ValidSchema(schema: Schema) {
    forall t | 0 <= t < |schema| :: ValidType(schema, schema[t])
  }

  ghost predicate ValidType(schema: Schema, d: Descriptor) {
    && (forall i, j | 0 <= i < j < |d.fields| :: d.fields[i].name != d.fields[j].name)
    && (forall i | 0 <= i < |d.fields| :: ValidField(schema, d, d.fields[i]))
  }

  predicate ValidField(schema: Schema, d: Descriptor, f: Field) {
    && 0 !in f.name
    && (f.kind.Enum? ==> forall name | name in f.kind.names :: NumberFits(f.kind, f.kind.names[name]))
    && (if f.kind.Message?
        then f.kind.t < |schema| && (f.rule.Required? ==> schema[f.kind.t].depth < d.depth)
        else !f.default.Sub? && Fits(schema, f.kind, f.default))
  }

  /** The default instance of a type. */
  function Empty(d: Descriptor): Msg {
    Msg(seq(|d.fields|, i requires 0 <= i < |d.fields| => EmptySlot(d.fields[i])))
  }

  function EmptySlot(f: Field): Slot {
    if f.rule.Repeated? then Many([]) else Unset
  }

  lemma EmptyFits(schema: Schema, t: nat)
    requires t < |schema|
    ensures FitsType(schema, t, Empty(schema[t])) && Weight(Empty(schema[t])) == 0
  {
    EmptyWeighsNothing(Empty(schema[t]).slots);
  }

  // ---- The number of values in a message, for termination ----

  function Weight(m: Msg): nat
    decreases m
  {
    SlotsWeight(m.slots)
  }

  function SlotsWeight(slots: seq<Slot>): nat
    decreases slots
  {
    if |slots| == 0 then 0 else SlotWeight(slots[0]) + SlotsWeight(slots[1..])
  }

  function SlotWeight(slot: Slot): nat
    decreases slot
  {
    match slot
    case Unset => 0
    case Set(v) => ValWeight(v)
    case Many(vs) => ValsWeight(vs)
  }

  function ValsWeight(vs: seq<Val>): nat
    decreases vs
  {
    if |vs| == 0 then 0 else ValWeight(vs[0]) + ValsWeight(vs[1..])
  }

  function ValWeight(v: Val): nat
    decreases v
  {
    if v.Sub? then 1 + Weight(v.m) else 1
  }

  lemma {:induction false} EmptyWeighsNothing(slots: seq<Slot>)
    requires forall i | 0 <= i < |slots| :: slots[i] == Unset || slots[i] == Many([])
    ensures SlotsWeight(slots) == 0
  {
    if |slots| > 0 { EmptyWeighsNothing(slots[1..]); }
  }

  lemma {:induction false} SlotIsLighter(slots: seq<Slot>, i: nat)
    requires i < |slots|
    ensures SlotWeight(slots[i]) <= SlotsWeight(slots)
  {
    if i > 0 { SlotIsLighter(slots[1..], i - 1); }
  }

  lemma {:induction false} ValIsLighter(vs: seq<Val>, i: nat)
    requires i < |vs|
    ensures ValWeight(vs[i]) <= ValsWeight(vs)
  {
    if i > 0 { ValIsLighter(vs[1..], i - 1); }
  }

  // ---- To JSON ----

  /** parse_msg */
  function Encode(schema: Schema, t: nat, m: Msg): Json.Value
    requires ValidSchema(schema) && t < |schema| && FitsType(schema, t, m)
    decreases Weight(m), schema[t].depth, |m.slots| + 4
  {
    Json.Object(EncodeFields(schema, t, m, 0))
  }

  /** The members for the fields from i on: an optional field that is not set has none. */
  function EncodeFields(schema: Schema, t: nat, m: Msg, i: nat): seq<Json.Member>
    requires ValidSchema(schema) && t < |schema| && FitsType(schema, t, m) && i <= |m.slots|
    decreases Weight(m), schema[t].depth, |m.slots| - i + 3
  {
    if i == |m.slots| then []
    else
      var f, slot := schema[t].fields[i], m.slots[i];
      SlotIsLighter(m.slots, i);
      (if f.rule.Optional? && slot.Unset? then [] else [Json.Member(f.name, EncodeSlot(schema, t, f, slot))])
      + EncodeFields(schema, t, m, i + 1)
  }

  /** field2json: a required field that is not set gives its default. */
  function EncodeSlot(schema: Schema, t: nat, f: Field, slot: Slot): Json.Value
    requires ValidSchema(schema) && t < |schema| && ValidField(schema, schema[t], f) && FitsSlot(schema, f, slot)
    requires !(f.rule.Optional? && slot.Unset?)
    decreases SlotWeight(slot), schema[t].depth, 2
  {
    match slot
    case Set(v) => EncodeVal(schema, f.kind, v)
    case Many(vs) => Json.Array(EncodeAll(schema, f.kind, vs))
    case Unset =>
      match f.kind
      case Message(u) => EmptyFits(schema, u); Encode(schema, u, Empty(schema[u]))
      case _ => EncodePlain(f.kind, f.default)
  }

  function EncodePlain(kind: Kind, v: Val): Json.Value
    requires !v.Sub?
  {
    match v
    case Int(n) => Json.Number(n)
    case Bool(b) => Json.Bool(b)
    case Bytes(s) => Json.String(if kind.Binary? then Base64.Encode(s) else s)
  }

  function EncodeVal(schema: Schema, kind: Kind, v: Val): Json.Value
    requires ValidSchema(schema) && Fits(schema, kind, v)
    decreases ValWeight(v), 0, 0
  {
    if v.Sub? then Encode(schema, kind.t, v.m) else EncodePlain(kind, v)
  }

  function EncodeAll(schema: Schema, kind: Kind, vs: seq<Val>): seq<Json.Value>
    requires ValidSchema(schema) && forall v | v in vs :: Fits(schema, kind, v)
    decreases ValsWeight(vs), 0, 1
  {
    if |vs| == 0 then [] else [EncodeVal(schema, kind, vs[0])] + EncodeAll(schema, kind, vs[1..])
  }

  // ---- The message with its required fields filled in ----

  function Filled(schema: Schema, t: nat, m: Msg): (r: Msg)
    requires ValidSchema(schema) && t < |schema| && FitsType(schema, t, m)
    ensures |r.slots| == |m.slots|
    decreases Weight(m), schema[t].depth, |m.slots| + 4
  {
    Msg(FilledSlots(schema, t, m, 0))
  }

  function FilledSlots(schema: Schema, t: nat, m: Msg, i: nat): (r: seq<Slot>)
    requires ValidSchema(schema) && t < |schema| && FitsType(schema, t, m) && i <= |m.slots|
    ensures |r| == |m.slots| - i
    decreases Weight(m), schema[t].depth, |m.slots| - i + 3
  {
    if i == |m.slots| then []
    else
      SlotIsLighter(m.slots, i);
      [FilledSlot(schema, t, schema[t].fields[i], m.slots[i])] + FilledSlots(schema, t, m, i + 1)
  }

  function FilledSlot(schema: Schema, t: nat, f: Field, slot: Slot): Slot
    requires ValidSchema(schema) && t < |schema| && ValidField(schema, schema[t], f) && FitsSlot(schema, f, slot)
    decreases SlotWeight(slot), schema[t].depth, 2
  {
    match slot
    case Set(v) => Set(FilledVal(schema, f.kind, v))
    case Many(vs) => Many(FilledAll(schema, f.kind, vs))
    case Unset =>
      if f.rule.Optional? then Unset
      else
        match f.kind
        case Message(u) => EmptyFits(schema, u); Set(Sub(Filled(schema, u, Empty(schema[u]))))
        case _ => Set(f.default)
  }

  function FilledVal(schema: Schema, kind: Kind, v: Val): Val
    requires ValidSchema(schema) && Fits(schema, kind, v)
    decreases ValWeight(v), 0, 0
  {
    if v.Sub? then Sub(Filled(schema, kind.t, v.m)) else v
  }

  function FilledAll(schema: Schema, kind: Kind, vs: seq<Val>): seq<Val>
    requires ValidSchema(schema) && forall v | v in vs :: Fits(schema, kind, v)
    decreases ValsWeight(vs), 0, 1
  {
    if |vs| == 0 then [] else [FilledVal(schema, kind, vs[0])] + FilledAll(schema, kind, vs[1..])
  }

  // ---- From JSON ----

  datatype Error = InvalidJson | UnknownField

  /** `Thrown`: the exception of b64_decode; `Fault`: a failing assertion of rapidjson about the type of a number. */
  datatype Outcome<T> = Ok(value: T) | Err(error: Error) | Thrown | Fault

  function Find(fields: seq<Field>, name: seq<byte>): (i: nat)
    ensures i <= |fields| && (i < |fields| ==> fields[i].name == name)
    ensures forall j | 0 <= j < i :: fields[j].name != name
  {
    if |fields| == 0 || fields[0].name == name then 0 else 1 + Find(fields[1..], name)
  }

  /** Set or add: an element more, or a new value. */
  function Store(schema: Schema, f: Field, slot: Slot, v: Val): (r: Slot)
    requires FitsSlot(schema, f, slot) && Fits(schema, f.kind, v)
    ensures FitsSlot(schema, f, r)
  {
    if f.rule.Repeated? then
      assert forall x | x in slot.vs + [v] :: x in slot.vs || x == v;
      Many(slot.vs + [v])
    else Set(v)
  }

  function Put(schema: Schema, t: nat, m: Msg, i: nat, v: Val): (r: Msg)
    requires t < |schema| && FitsType(schema, t, m) && i < |m.slots| && Fits(schema, schema[t].fields[i].kind, v)
    ensures FitsType(schema, t, r)
  {
    Msg(m.slots[i := Store(schema, schema[t].fields[i], m.slots[i], v)])
  }

  /** The message that a message field is read into: a new element, or what is there already. */
  function Target(schema: Schema, f: Field, slot: Slot): (r: Msg)
    requires f.kind.Message? && f.kind.t < |schema| && FitsSlot(schema, f, slot)
    ensures FitsType(schema, f.kind.t, r)
  {
    EmptyFits(schema, f.kind.t);
    assert slot.Set? ==> Fits(schema, f.kind, slot.v);
    if !f.rule.Repeated? && slot.Set? then slot.v.m else Empty(schema[f.kind.t])
  }

  /** Everything but message fields. */
  function DecodePlain(schema: Schema, kind: Kind, json: Json.Value): (r: Outcome<Val>)
    requires !kind.Message?
    requires kind.Enum? ==> forall name | name in kind.names :: NumberFits(kind, kind.names[name])
    ensures r.Ok? ==> Fits(schema, kind, r.value)
  {
    if kind.Boolean? then
      if json.Bool? then Ok(Bool(json.b)) else Err(InvalidJson)
    else if kind.Text? then
      if json.String? then Ok(Bytes(json.s)) else Err(InvalidJson)
    else if kind.Binary? then
      if !json.String? then Err(InvalidJson)
      else
        var d := Base64.Decode(json.s);
        if d.Decoded? then Ok(Bytes(d.bytes)) else Thrown
    else if kind.Enum? then
      if json.Number? then
        if !JsonReader.FitsInt32(json.n) then Fault
        else if json.n in kind.numbers then Ok(Int(json.n))
        else Err(InvalidJson)
      else if json.String? then
        if CString(json.s) in kind.names then Ok(Int(kind.names[CString(json.s)])) else Err(InvalidJson)
      else Err(InvalidJson)
    else
      if !json.Number? then Err(InvalidJson) else if NumberFits(kind, json.n) then Ok(Int(json.n)) else Fault
  }

  /** json2field */
  function DecodeField(schema: Schema, t: nat, i: nat, json: Json.Value, m: Msg): (r: Outcome<Msg>)
    requires ValidSchema(schema) && t < |schema| && FitsType(schema, t, m) && i < |m.slots|
    ensures r.Ok? ==> FitsType(schema, t, r.value)
    decreases json, 1
  {
    var f := schema[t].fields[i];
    match f.kind
    case Message(u) =>
      (match Decode(schema, u, json, Target(schema, f, m.slots[i]))
       case Ok(x) => Ok(Put(schema, t, m, i, Sub(x)))
       case Err(e) => Err(e)
       case Thrown => Thrown
       case Fault => Fault)
    case _ =>
      match DecodePlain(schema, f.kind, json)
      case Ok(v) => Ok(Put(schema, t, m, i, v))
      case Err(e) => Err(e)
      case Thrown => Thrown
      case Fault => Fault
  }

  /** parse_json */
  function Decode(schema: Schema, t: nat, json: Json.Value, m: Msg): (r: Outcome<Msg>)
    requires ValidSchema(schema) && t < |schema| && FitsType(schema, t, m)
    ensures r.Ok? ==> FitsType(schema, t, r.value)
    decreases json, 0
  {
    if json.Object? then DecodeMembers(schema, t, json.members, m) else Err(InvalidJson)
  }

  function DecodeMembers(schema: Schema, t: nat, members: seq<Json.Member>, m: Msg): (r: Outcome<Msg>)
    requires ValidSchema(schema) && t < |schema| && FitsType(schema, t, m)
    ensures r.Ok? ==> FitsType(schema, t, r.value)
    decreases members, 0
  {
    if |members| == 0 then Ok(m)
    else
      match DecodeMember(schema, t, members[0], m)
      case Ok(m') => DecodeMembers(schema, t, members[1..], m')
      case Err(e) => Err(e)
      case Thrown => Thrown
      case Fault => Fault
  }

  function DecodeMember(schema: Schema, t: nat, member: Json.Member, m: Msg): (r: Outcome<Msg>)
    requires ValidSchema(schema) && t < |schema| && FitsType(schema, t, m)
    ensures r.Ok? ==> FitsType(schema, t, r.value)
    decreases member, 0
  {
    var i := Find(schema[t].fields, CString(member.name));
    if i == |schema[t].fields| then Err(UnknownField)
    else if !schema[t].fields[i].rule.Repeated? then DecodeField(schema, t, i, member.value, m)
    else if member.value.Array? then DecodeElements(schema, t, i, member.value.elements, m)
    else Err(InvalidJson)
  }

  function DecodeElements(schema: Schema, t: nat, i: nat, elements: seq<Json.Value>, m: Msg): (r: Outcome<Msg>)
    requires ValidSchema(schema) && t < |schema| && FitsType(schema, t, m) && i < |m.slots|
    ensures r.Ok? ==> FitsType(schema, t, r.value)
    decreases elements, 2
  {
    if |elements| == 0 then Ok(m)
    else
      match DecodeField(schema, t, i, elements[0], m)
      case Ok(m') => DecodeElements(schema, t, i, elements[1..], m')
      case Err(e) => Err(e)
      case Thrown => Thrown
      case Fault => Fault
  }

  // ---- The round trip ----

  lemma PlainRoundTrip(schema: Schema, kind: Kind, v: Val)
    requires !kind.Message? && Fits(schema, kind, v)
    requires kind.Enum? ==> forall name | name in kind.names :: NumberFits(kind, kind.names[name])
    ensures DecodePlain(schema, kind, EncodePlain(kind, v)) == Ok(v)
  {
    if v.Bytes? { Base64.RoundTrip(v.s); }
  }

  lemma {:induction false} WholeCString(s: seq<byte>)
    requires 0 !in s
    ensures CString(s) == s
  {
    if |s| > 0 { WholeCString(s[1..]); }
  }

  lemma FoundByName(schema: Schema, t: nat, i: nat)
    requires ValidSchema(schema) && t < |schema| && i < |schema[t].fields|
    ensures Find(schema[t].fields, CString(schema[t].fields[i].name)) == i
  {
    assert ValidType(schema, schema[t]);
    WholeCString(schema[t].fields[i].name);
  }

  lemma {:induction false} FilledAt(schema: Schema, t: nat, m: Msg, j: nat, k: nat)
    requires ValidSchema(schema) && t < |schema| && FitsType(schema, t, m) && j <= k < |m.slots|
    ensures FilledSlots(schema, t, m, j)[k - j] == FilledSlot(schema, t, schema[t].fields[k], m.slots[k])
    decreases k - j
  {
    if j < k { FilledAt(schema, t, m, j + 1, k); }
  }

  /** The fields up to i filled in, the others empty. */
  function Partial(schema: Schema, t: nat, m: Msg, i: nat): (r: Msg)
    requires ValidSchema(schema) && t < |schema| && FitsType(schema, t, m) && i <= |m.slots|
    ensures |r.slots| == |m.slots|
  {
    Msg(Filled(schema, t, m).slots[..i] + Empty(schema[t]).slots[i..])
  }

  /** Reading back gives the message with its required fields filled in. */
  lemma {:induction false} DecodeEncode(schema: Schema, t: nat, m: Msg)
    requires ValidSchema(schema) && t < |schema| && FitsType(schema, t, m)
    ensures FitsType(schema, t, Empty(schema[t])) && FitsType(schema, t, Filled(schema, t, m))
    ensures Decode(schema, t, Encode(schema, t, m), Empty(schema[t])) == Ok(Filled(schema, t, m))
    decreases Weight(m), schema[t].depth, |m.slots| + 4
  {
    EmptyFits(schema, t);
    FieldsRoundTrip(schema, t, m, 0);
    assert Partial(schema, t, m, 0).slots == Empty(schema[t]).slots;
  }

  lemma {:induction false} FieldsRoundTrip(schema: Schema, t: nat, m: Msg, i: nat)
    requires ValidSchema(schema) && t < |schema| && FitsType(schema, t, m) && i <= |m.slots|
    requires FitsType(schema, t, Partial(schema, t, m, i))
    ensures FitsType(schema, t, Filled(schema, t, m))
    ensures DecodeMembers(schema, t, EncodeFields(schema, t, m, i), Partial(schema, t, m, i)) == Ok(Filled(schema, t, m))
    decreases Weight(m), schema[t].depth, |m.slots| - i + 3
  {
    hide DecodeMember, FilledSlot, EncodeSlot, FitsSlot, ValidField;
    var p := Partial(schema, t, m, i);
    if i == |m.slots| {
      assert p.slots == Filled(schema, t, m).slots;
    } else {
      var f, slot := schema[t].fields[i], m.slots[i];
      assert ValidType(schema, schema[t]);
      SlotIsLighter(m.slots, i);
      PartialStep(schema, t, m, i);
      var next := Partial(schema, t, m, i + 1);
      if f.rule.Optional? && slot.Unset? {
        assert EncodeFields(schema, t, m, i) == EncodeFields(schema, t, m, i + 1);
      } else {
        MemberRoundTrip(schema, t, i, slot, p);
        MembersStep(schema, t, Json.Member(f.name, EncodeSlot(schema, t, f, slot)), EncodeFields(schema, t, m, i + 1), p, next);
      }
      FieldsRoundTrip(schema, t, m, i + 1);
    }
  }

  lemma PartialStep(schema: Schema, t: nat, m: Msg, i: nat)
    requires ValidSchema(schema) && t < |schema| && FitsType(schema, t, m) && i < |m.slots|
    requires ValidField(schema, schema[t], schema[t].fields[i])
    ensures
      var f, p := schema[t].fields[i], Partial(schema, t, m, i);
      p.slots[i] == EmptySlot(f)
      && Partial(schema, t, m, i + 1) == Msg(p.slots[i := FilledSlot(schema, t, f, m.slots[i])])
      && (f.rule.Optional? && m.slots[i].Unset? ==> Partial(schema, t, m, i + 1) == p)
  {
    var f, slots := schema[t].fields[i], FilledSlots(schema, t, m, 0);
    assert Filled(schema, t, m).slots == slots;
    FilledAt(schema, t, m, 0, i);
    hide FilledSlots, FilledSlot, ValidSchema, ValidField, FitsType, Filled;
    Spliced(slots, Empty(schema[t]).slots, i);
    if f.rule.Optional? && m.slots[i].Unset? { FilledUnset(schema, t, f); }
  }

  lemma FilledUnset(schema: Schema, t: nat, f: Field)
    requires ValidSchema(schema) && t < |schema| && ValidField(schema, schema[t], f) && f.rule.Optional?
    requires FitsSlot(schema, f, Unset)
    ensures FilledSlot(schema, t, f, Unset) == EmptySlot(f) == Unset
  {
  }

  lemma Spliced<T>(x: seq<T>, y: seq<T>, i: nat)
    requires i < |x| == |y|
    ensures (x[..i] + y[i..])[i] == y[i]
    ensures x[..i + 1] + y[i + 1..] == (x[..i] + y[i..])[i := x[i]]
    ensures x[i] == y[i] ==> x[..i + 1] + y[i + 1..] == x[..i] + y[i..]
  {
  }

  lemma MembersStep(schema: Schema, t: nat, x: Json.Member, rest: seq<Json.Member>, p: Msg, next: Msg)
    requires ValidSchema(schema) && t < |schema| && FitsType(schema, t, p) && FitsType(schema, t, next)
    requires DecodeMember(schema, t, x, p) == Ok(next)
    ensures DecodeMembers(schema, t, [x] + rest, p) == DecodeMembers(schema, t, rest, next)
  {
    hide DecodeMember;
    assert ([x] + rest)[1..] == rest;
  }

  /** One field of a message that does not have it yet. */
  lemma {:induction false} MemberRoundTrip(schema: Schema, t: nat, i: nat, slot: Slot, p: Msg)
    requires ValidSchema(schema) && t < |schema| && FitsType(schema, t, p) && i < |p.slots|
    requires ValidField(schema, schema[t], schema[t].fields[i]) && FitsSlot(schema, schema[t].fields[i], slot)
    requires !(schema[t].fields[i].rule.Optional? && slot.Unset?) && p.slots[i] == EmptySlot(schema[t].fields[i])
    ensures
      var f := schema[t].fields[i];
      var r := Msg(p.slots[i := FilledSlot(schema, t, f, slot)]);
      FitsType(schema, t, r) && DecodeMember(schema, t, Json.Member(f.name, EncodeSlot(schema, t, f, slot)), p) == Ok(r)
    decreases SlotWeight(slot), schema[t].depth, 2
  {
    var f := schema[t].fields[i];
    FoundByName(schema, t, i);
    match slot {
      case Set(v) => ValRoundTrip(schema, t, i, v, p);
      case Many(vs) =>
        ElementsRoundTrip(schema, t, i, [], vs, p);
        assert [] + FilledAll(schema, f.kind, vs) == FilledAll(schema, f.kind, vs);
      case Unset =>
        if f.kind.Message? {
          var u := f.kind.t;
          EmptyFits(schema, u);
          DecodeEncode(schema, u, Empty(schema[u]));
          assert FilledSlot(schema, t, f, slot) == Set(Sub(Filled(schema, u, Empty(schema[u]))));
        } else {
          PlainRoundTrip(schema, f.kind, f.default);
        }
    }
  }

  /** One value of a field, set or added. */
  lemma {:induction false} ValRoundTrip(schema: Schema, t: nat, i: nat, v: Val, p: Msg)
    requires ValidSchema(schema) && t < |schema| && FitsType(schema, t, p) && i < |p.slots|
    requires Fits(schema, schema[t].fields[i].kind, v) && ValidField(schema, schema[t], schema[t].fields[i])
    requires p.slots[i].Many? || p.slots[i].Unset?
    ensures
      var f := schema[t].fields[i];
      Fits(schema, f.kind, FilledVal(schema, f.kind, v))
      && DecodeField(schema, t, i, EncodeVal(schema, f.kind, v), p)
         == Ok(Put(schema, t, p, i, FilledVal(schema, f.kind, v)))
    decreases ValWeight(v), 0, 0
  {
    var f := schema[t].fields[i];
    if v.Sub? {
      DecodeEncode(schema, f.kind.t, v.m);
    } else {
      PlainRoundTrip(schema, f.kind, v);
    }
  }

  lemma {:induction false} ElementsRoundTrip(schema: Schema, t: nat, i: nat, front: seq<Val>, vs: seq<Val>, p: Msg)
    requires ValidSchema(schema) && t < |schema| && FitsType(schema, t, p) && i < |p.slots|
    requires ValidField(schema, schema[t], schema[t].fields[i])
    requires (forall v | v in vs :: Fits(schema, schema[t].fields[i].kind, v)) && p.slots[i] == Many(front)
    ensures
      var f := schema[t].fields[i];
      var r := Msg(p.slots[i := Many(front + FilledAll(schema, f.kind, vs))]);
      FitsType(schema, t, r) && DecodeElements(schema, t, i, EncodeAll(schema, f.kind, vs), p) == Ok(r)
    decreases ValsWeight(vs), 0, 1
  {
    hide DecodeField, EncodeVal, FilledVal, ValidField, ValidSchema;
    var f := schema[t].fields[i];
    if |vs| == 0 {
      assert front + [] == front;
      assert p.slots[i := Many(front)] == p.slots;
    } else {
      ValRoundTrip(schema, t, i, vs[0], p);
      var v := FilledVal(schema, f.kind, vs[0]);
      var p' := Put(schema, t, p, i, v);
      assert p'.slots[i] == Many(front + [v]);
      ElementsRoundTrip(schema, t, i, front + [v], vs[1..], p');
      var rest := FilledAll(schema, f.kind, vs[1..]);
      assert front + [v] + rest == front + ([v] + rest);
      assert p'.slots[i := Many(front + [v] + rest)] == p.slots[i := Many(front + ([v] + rest))];
    }
  }

  // ---- Exactly which messages come back unchanged ----

  /** All required fields are set, here and in every message inside. */
  predicate Complete(schema: Schema, t: nat, m: Msg)
    requires t < |schema| && FitsType(schema, t, m)
    decreases m, 0
  {
    forall i | 0 <= i < |m.slots| :: CompleteSlot(schema, schema[t].fields[i], m.slots[i])
  }

  predicate CompleteSlot(schema: Schema, f: Field, slot: Slot)
    requires FitsSlot(schema, f, slot)
    decreases slot, 0
  {
    match slot
    case Unset => !f.rule.Required?
    case Set(v) => CompleteVal(schema, f.kind, v)
    case Many(vs) => forall i | 0 <= i < |vs| :: CompleteVal(schema, f.kind, vs[i])
  }

  predicate CompleteVal(schema: Schema, kind: Kind, v: Val)
    requires Fits(schema, kind, v)
    decreases v, 0
  {
    v.Sub? ==> Complete(schema, kind.t, v.m)
  }

  lemma {:induction false} FilledIffComplete(schema: Schema, t: nat, m: Msg)
    requires ValidSchema(schema) && t < |schema| && FitsType(schema, t, m)
    ensures Filled(schema, t, m) == m <==> Complete(schema, t, m)
    decreases m, 0
  {
    var r := Filled(schema, t, m);
    assert ValidType(schema, schema[t]);
    forall i | 0 <= i < |m.slots|
      ensures r.slots[i] == m.slots[i] <==> CompleteSlot(schema, schema[t].fields[i], m.slots[i])
    {
      FilledAt(schema, t, m, 0, i);
      SlotIffComplete(schema, t, schema[t].fields[i], m.slots[i]);
    }
    if Complete(schema, t, m) { assert r.slots == m.slots; }
  }

  lemma {:induction false} SlotIffComplete(schema: Schema, t: nat, f: Field, slot: Slot)
    requires ValidSchema(schema) && t < |schema| && ValidField(schema, schema[t], f) && FitsSlot(schema, f, slot)
    ensures FilledSlot(schema, t, f, slot) == slot <==> CompleteSlot(schema, f, slot)
    decreases slot, 0
  {
    match slot {
      case Unset =>
      case Set(v) => ValIffComplete(schema, f.kind, v);
      case Many(vs) => AllIffComplete(schema, f.kind, vs);
    }
  }

  lemma {:induction false} ValIffComplete(schema: Schema, kind: Kind, v: Val)
    requires ValidSchema(schema) && Fits(schema, kind, v)
    ensures FilledVal(schema, kind, v) == v <==> CompleteVal(schema, kind, v)
    decreases v, 0
  {
    if v.Sub? { FilledIffComplete(schema, kind.t, v.m); }
  }

  lemma {:induction false} AllIffComplete(schema: Schema, kind: Kind, vs: seq<Val>)
    requires ValidSchema(schema) && forall v | v in vs :: Fits(schema, kind, v)
    ensures FilledAll(schema, kind, vs) == vs <==> forall i | 0 <= i < |vs| :: CompleteVal(schema, kind, vs[i])
    decreases vs, 0
  {
    if |vs| > 0 {
      ValIffComplete(schema, kind, vs[0]);
      AllIffComplete(schema, kind, vs[1..]);
      var head, rest := FilledVal(schema, kind, vs[0]), FilledAll(schema, kind, vs[1..]);
      assert ([head] + rest)[0] == head && ([head] + rest)[1..] == rest;
      assert vs == [vs[0]] + vs[1..];
      assert forall i | 0 < i < |vs| :: vs[i] == vs[1..][i - 1];
      assert forall i | 0 <= i < |vs| - 1 :: vs[1..][i] == vs[i + 1];
    }
  }

  /** To JSON and back gives the same message exactly if all its required fields are set. */
  lemma RoundTrip(schema: Schema, t: nat, m: Msg)
    requires ValidSchema(schema) && t < |schema| && FitsType(schema, t, m)
    ensures FitsType(schema, t, Empty(schema[t]))
    ensures Decode(schema, t, Encode(schema, t, m), Empty(schema[t])) == Ok(m) <==> Complete(schema, t, m)
  {
    DecodeEncode(schema, t, m);
    FilledIffComplete(schema, t, m);
  }

  // ---- The text in between ----

  lemma {:induction false} EncodeRepresentable(schema: Schema, t: nat, m: Msg)
    requires ValidSchema(schema) && t < |schema| && FitsType(schema, t, m)
    ensures Json.Representable(Encode(schema, t, m))
    decreases Weight(m), schema[t].depth, |m.slots| + 4
  {
    FieldsRepresentable(schema, t, m, 0);
  }

  lemma {:induction false} FieldsRepresentable(schema: Schema, t: nat, m: Msg, i: nat)
    requires ValidSchema(schema) && t < |schema| && FitsType(schema, t, m) && i <= |m.slots|
    ensures forall x | x in EncodeFields(schema, t, m, i) :: Json.Representable(x.value)
    decreases Weight(m), schema[t].depth, |m.slots| - i + 3
  {
    hide EncodeSlot, FitsSlot, ValidField;
    if i < |m.slots| {
      var f, slot := schema[t].fields[i], m.slots[i];
      assert ValidType(schema, schema[t]);
      SlotIsLighter(m.slots, i);
      if !(f.rule.Optional? && slot.Unset?) { SlotRepresentable(schema, t, f, slot); }
      FieldsRepresentable(schema, t, m, i + 1);
    }
  }

  lemma {:induction false} SlotRepresentable(schema: Schema, t: nat, f: Field, slot: Slot)
    requires ValidSchema(schema) && t < |schema| && ValidField(schema, schema[t], f) && FitsSlot(schema, f, slot)
    requires !(f.rule.Optional? && slot.Unset?)
    ensures Json.Representable(EncodeSlot(schema, t, f, slot))
    decreases SlotWeight(slot), schema[t].depth, 2
  {
    match slot {
      case Unset =>
        if f.kind.Message? {
          EmptyFits(schema, f.kind.t);
          EncodeRepresentable(schema, f.kind.t, Empty(schema[f.kind.t]));
        }
      case Set(v) => ValRepresentable(schema, f.kind, v);
      case Many(vs) => AllRepresentable(schema, f.kind, vs);
    }
  }

  lemma {:induction false} ValRepresentable(schema: Schema, kind: Kind, v: Val)
    requires ValidSchema(schema) && Fits(schema, kind, v)
    ensures Json.Representable(EncodeVal(schema, kind, v))
    decreases ValWeight(v), 0, 0
  {
    if v.Sub? { EncodeRepresentable(schema, kind.t, v.m); }
  }

  lemma {:induction false} AllRepresentable(schema: Schema, kind: Kind, vs: seq<Val>)
    requires ValidSchema(schema) && forall v | v in vs :: Fits(schema, kind, v)
    ensures forall e | e in EncodeAll(schema, kind, vs) :: Json.Representable(e)
    decreases ValsWeight(vs), 0, 1
  {
    if |vs| > 0 {
      ValRepresentable(schema, kind, vs[0]);
      AllRepresentable(schema, kind, vs[1..]);
    }
  }

  // ---- The methods ----

  method ParseMsg(schema: Schema, t: nat, m: Msg) returns (json: Json.Value)
    requires ValidSchema(schema) && t < |schema| && FitsType(schema, t, m)
    ensures json == Encode(schema, t, m)
    decreases Weight(m), schema[t].depth, |m.slots| + 4
  {
    hide EncodeSlot, FitsSlot, ValidField;
    var members := [];
    var i := 0;
    while i < |schema[t].fields|
      invariant 0 <= i <= |m.slots|
      invariant members + EncodeFields(schema, t, m, i) == EncodeFields(schema, t, m, 0)
    {
      var f, slot := schema[t].fields[i], m.slots[i];
      assert ValidType(schema, schema[t]);
      SlotIsLighter(m.slots, i);
      ghost var rest := EncodeFields(schema, t, m, i + 1);
      if f.rule.Optional? && slot.Unset? {
        assert EncodeFields(schema, t, m, i) == rest;
      } else {
        var value := Field2Json(schema, t, f, slot);
        assert members + ([Json.Member(f.name, value)] + rest) == members + [Json.Member(f.name, value)] + rest;
        members := members + [Json.Member(f.name, value)];
      }
      i := i + 1;
    }
    assert members + [] == members;
    json := Json.Object(members);
  }

  method Field2Json(schema: Schema, t: nat, f: Field, slot: Slot) returns (json: Json.Value)
    requires ValidSchema(schema) && t < |schema| && ValidField(schema, schema[t], f) && FitsSlot(schema, f, slot)
    requires !(f.rule.Optional? && slot.Unset?)
    ensures json == EncodeSlot(schema, t, f, slot)
    decreases SlotWeight(slot), schema[t].depth, 2
  {
    match slot {
      case Set(v) => json := Val2Json(schema, f.kind, v);
      case Unset =>
        if f.kind.Message? {
          EmptyFits(schema, f.kind.t);
          json := ParseMsg(schema, f.kind.t, Empty(schema[f.kind.t]));
        } else {
          json := EncodePlain(f.kind, f.default);
        }
      case Many(vs) =>
        var elements := All2Json(schema, f.kind, vs);
        json := Json.Array(elements);
    }
  }

  method All2Json(schema: Schema, kind: Kind, vs: seq<Val>) returns (elements: seq<Json.Value>)
    requires ValidSchema(schema) && forall v | v in vs :: Fits(schema, kind, v)
    ensures elements == EncodeAll(schema, kind, vs)
    decreases ValsWeight(vs), 0, 1
  {
    hide Fits, ValidSchema, EncodeAll, EncodeVal;
    elements := [];
    var i := 0;
    assert vs[0..] == vs;
    while i != |vs|
      invariant 0 <= i <= |vs|
      invariant elements + EncodeAll(schema, kind, vs[i..]) == EncodeAll(schema, kind, vs)
      decreases |vs| - i
    {
      ValIsLighter(vs, i);
      var v := Val2Json(schema, kind, vs[i]);
      EncodeAllStep(schema, kind, vs, i);
      ghost var rest := EncodeAll(schema, kind, vs[i + 1..]);
      assert elements + ([v] + rest) == elements + [v] + rest;
      elements := elements + [v];
      i := i + 1;
    }
    EncodeAllStep(schema, kind, vs, i);
    assert elements + [] == elements;
  }

  lemma EncodeAllStep(schema: Schema, kind: Kind, vs: seq<Val>, i: nat)
    requires ValidSchema(schema) && (forall v | v in vs :: Fits(schema, kind, v)) && i <= |vs|
    ensures i == |vs| ==> EncodeAll(schema, kind, vs[i..]) == []
    ensures i < |vs| ==>
      EncodeAll(schema, kind, vs[i..]) == [EncodeVal(schema, kind, vs[i])] + EncodeAll(schema, kind, vs[i + 1..])
  {
    if i < |vs| { assert vs[i..][1..] == vs[i + 1..]; }
  }

  method Val2Json(schema: Schema, kind: Kind, v: Val) returns (json: Json.Value)
    requires ValidSchema(schema) && Fits(schema, kind, v)
    ensures json == EncodeVal(schema, kind, v)
    decreases ValWeight(v), 0, 0
  {
    if v.Sub? {
      json := ParseMsg(schema, kind.t, v.m);
    } else if v.Bytes? && kind.Binary? {
      var encoded := Base64.B64Encode(v.s);
      json := Json.String(encoded);
    } else {
      json := EncodePlain(kind, v);
    }
  }

  method Json2Field(schema: Schema, t: nat, i: nat, json: Json.Value, m: Msg) returns (r: Outcome<Msg>)
    requires ValidSchema(schema) && t < |schema| && FitsType(schema, t, m) && i < |m.slots|
    ensures r == DecodeField(schema, t, i, json, m)
    decreases json, 1
  {
    var f := schema[t].fields[i];
    assert ValidType(schema, schema[t]);
    if f.kind.Message? {
      var sub := ParseJson(schema, f.kind.t, json, Target(schema, f, m.slots[i]));
      r := match sub
        case Ok(x) => Ok(Put(schema, t, m, i, Sub(x)))
        case Err(e) => Err(e)
        case Thrown => Thrown
        case Fault => Fault;
    } else {
      r := match DecodePlain(schema, f.kind, json)
        case Ok(v) => Ok(Put(schema, t, m, i, v))
        case Err(e) => Err(e)
        case Thrown => Thrown
        case Fault => Fault;
    }
  }

  method ParseJson(schema: Schema, t: nat, json: Json.Value, start: Msg) returns (r: Outcome<Msg>)
    requires ValidSchema(schema) && t < |schema| && FitsType(schema, t, start)
    ensures r == Decode(schema, t, json, start)
    decreases json, 0
  {
    hide DecodeField, FitsType, ValidSchema;
    if !json.Object? { return Err(InvalidJson); }
    var m, k := start, 0;
    assert json.members[0..] == json.members;
    while k < |json.members|
      invariant 0 <= k <= |json.members| && FitsType(schema, t, m)
      invariant DecodeMembers(schema, t, json.members, start) == DecodeMembers(schema, t, json.members[k..], m)
    {
      assert json.members[k..][1..] == json.members[k + 1..];
      r := ParseMember(schema, t, json.members[k], m);
      if !r.Ok? { return; }
      m := r.value;
      k := k + 1;
    }
    r := Ok(m);
  }

  method ParseMember(schema: Schema, t: nat, member: Json.Member, start: Msg) returns (r: Outcome<Msg>)
    requires ValidSchema(schema) && t < |schema| && FitsType(schema, t, start)
    ensures r == DecodeMember(schema, t, member, start)
    decreases member, 0
  {
    var i := Find(schema[t].fields, CString(member.name));
    if i == |schema[t].fields| { return Err(UnknownField); }
    if !schema[t].fields[i].rule.Repeated? {
      r := Json2Field(schema, t, i, member.value, start);
      return;
    }
    if !member.value.Array? { return Err(InvalidJson); }
    r := ParseElements(schema, t, i, member.value.elements, start);
  }

  method ParseElements(schema: Schema, t: nat, i: nat, elements: seq<Json.Value>, start: Msg) returns (r: Outcome<Msg>)
    requires ValidSchema(schema) && t < |schema| && FitsType(schema, t, start) && i < |start.slots|
    ensures r == DecodeElements(schema, t, i, elements, start)
    decreases elements, 2
  {
    hide DecodeField, ValidSchema;
    var m, k := start, 0;
    assert elements[0..] == elements;
    while k < |elements|
      invariant 0 <= k <= |elements| && FitsType(schema, t, m)
      invariant DecodeElements(schema, t, i, elements, start) == DecodeElements(schema, t, i, elements[k..], m)
    {
      assert elements[k..][1..] == elements[k + 1..];
      r := Json2Field(schema, t, i, elements[k], m);
      if !r.Ok? { return; }
      m := r.value;
      k := k + 1;
    }
    r := Ok(m);
  }

  /** pb2json and json2pb, one after the other: the text is the printed JSON, and reading it fills the message in. */
  method ThroughText(schema: Schema, t: nat, m: Msg) returns (text: seq<byte>, r: Outcome<Msg>)
    requires ValidSchema(schema) && t < |schema| && FitsType(schema, t, m)
    ensures text == Json.Print(Encode(schema, t, m))
    ensures r == Ok(m) <==> Complete(schema, t, m)
    ensures r == Ok(Filled(schema, t, m))
  {
    hide Json.Print, Json.Parse, Decode, Filled, Complete, FitsType, ValidSchema;
    var json := ParseMsg(schema, t, m);
    EncodeRepresentable(schema, t, m);
    EmptyFits(schema, t);
    var st, root;
    text, st, root := JsonWriter.WriteAndRead(json);
    r := ParseJson(schema, t, root, Empty(schema[t]));
    DecodeEncode(schema, t, m);
    RoundTrip(schema, t, m);
  }
}
