/** prism/common/message.py: the conversion between messages and CBOR dictionaries that is driven
    by the declared fields of each class. */
module Codec {
  import opened Wrappers

  type ClassId = nat

  datatype Scalar = Int(i: int) | Str(s: string) | Bytes(bs: seq<nat>) | Bool(b: bool) | Float(f: real)

  /** Field and element values; fields of an instance that are not set are None. */
  datatype Value =
    | Atom(a: Scalar)
    | Enum(enum: nat, n: int)
    | Instance(cls: ClassId, fields: seq<Option<Value>>)
    | Tuple(parts: seq<Scalar>)
    | List(items: seq<Option<Value>>)

  /** The dictionaries in the form cbor2 takes and gives; null is None. */
  datatype Cbor =
    | Leaf(a: Scalar)
    | Array(parts: seq<Scalar>)
    | Items(items: seq<Option<Cbor>>)
    | Dict(entries: map<int, Option<Cbor>>)

  datatype ScalarType = IntType | StrType | BytesType | BoolType | FloatType

  /** Declared types: values of a scalar type, members of an enumeration, instances of a class,
      and lists of scalars, tuples or instances. */
  datatype FieldType =
    | OfScalar(t: ScalarType) | OfEnum(enum: nat) | OfClass(cls: ClassId)
    | ListOfScalar(t: ScalarType) | ListOfTuple | ListOfClass(cls: ClassId)

  /** Fields outside __init__ always hold their default; required ones have none. */
  datatype Field = Field(ty: FieldType, init: bool, required: bool, default: Option<Value>)

  /** The fields of every class and the members of every enumeration. */
  datatype Schema = Schema(classes: map<ClassId, seq<Field>>, members: map<nat, set<int>>)

  predicate HasType(a: Scalar, t: ScalarType) {
    match t
    case IntType => a.Int?
    case StrType => a.Str?
    case BytesType => a.Bytes?
    case BoolType => a.Bool?
    case FloatType => a.Float?
  }

  predicate IsMember(schema: Schema, enum: nat, n: int) {
    enum in schema.members && n in schema.members[enum]
  }

  /** Values that fit a declared type, down to any depth. */
  predicate Fits(schema: Schema, v: Value, ty: FieldType)
    decreases v, 2
  {
    match ty
    case OfScalar(t) => v.Atom? && HasType(v.a, t)
    case OfEnum(enum) => v.Enum? && v.enum == enum && IsMember(schema, enum, v.n)
    case OfClass(cls) => WellTyped(schema, v) && v.cls == cls
    case ListOfScalar(t) => v.List? && forall x :: x in v.items ==> x.Some? && x.value.Atom? && HasType(x.value.a, t)
    case ListOfTuple => v.List? && forall x :: x in v.items ==> x.Some? && x.value.Tuple?
    case ListOfClass(cls) => v.List? && forall x :: x in v.items ==>
                               x.Some? ==> WellTyped(schema, x.value) && x.value.cls == cls
  }

  predicate WellTyped(schema: Schema, v: Value)
    ensures WellTyped(schema, v) ==> v.Instance? && v.cls in schema.classes
    decreases v, 1
  {
    v.Instance? && v.cls in schema.classes && |v.fields| == |schema.classes[v.cls]| &&
    forall i :: 0 <= i < |v.fields| ==> FieldFits(schema, v.fields[i], schema.classes[v.cls][i])
  }

  predicate FieldFits(schema: Schema, v: Option<Value>, field: Field)
    decreases v, 3
  {
    if field.init then (v.None? ==> !field.required && field.default.None?) && (v.Some? ==> Fits(schema, v.value, field.ty))
    else v == field.default && (v.Some? ==> Fits(schema, v.value, field.ty))
  }

  /** as_cbor_dict. */
  function AsDict(schema: Schema, v: Value): Cbor
    requires WellTyped(schema, v)
    decreases v, 1
  {
    Dict(map i: int | 0 <= i < |v.fields| && v.fields[i].Some? ::
           Some(AsField(schema, v.fields[i], schema.classes[v.cls][i])))
  }

  function AsField(schema: Schema, v: Option<Value>, field: Field): Cbor
    requires FieldFits(schema, v, field) && v.Some?
    decreases v, 3
  {
    AsCbor(schema, v.value, field.ty)
  }

  function AsCbor(schema: Schema, v: Value, ty: FieldType): Cbor
    requires Fits(schema, v, ty)
    decreases v, 2
  {
    match v
    case Instance(_, _) => AsDict(schema, v)
    case Enum(_, n) => Leaf(Int(n))
    case List(items) => Items(seq(|items|, i requires 0 <= i < |items| =>
                          if items[i].None? then None else Some(AsElement(schema, items[i].value, ty))))
    case Atom(a) => Leaf(a)
    case Tuple(parts) => Array(parts)
  }

  predicate ElementFits(schema: Schema, v: Value, ty: FieldType) {
    match ty
    case ListOfScalar(t) => v.Atom? && HasType(v.a, t)
    case ListOfTuple => v.Tuple?
    case ListOfClass(cls) => WellTyped(schema, v) && v.cls == cls
    case _ => false
  }

  function AsElement(schema: Schema, v: Value, ty: FieldType): Cbor
    requires ElementFits(schema, v, ty)
    decreases v, 2
  {
    match v
    case Instance(_, _) => AsDict(schema, v)
    case Atom(a) => Leaf(a)
    case Tuple(parts) => Array(parts)
  }

  /** The keys of a dictionary are the indices of the fields that are set, and each value is that
      of the field: a scalar or tuple as it is, an enumeration member as its number, an instance as
      its own dictionary, a list element by element. */
  lemma DictEntries(schema: Schema, v: Value, i: int)
    requires WellTyped(schema, v)
    ensures AsDict(schema, v).Dict?
    ensures i in AsDict(schema, v).entries <==> 0 <= i < |v.fields| && v.fields[i].Some?
    ensures i in AsDict(schema, v).entries ==>
              AsDict(schema, v).entries[i].Some? && Represents(schema, v.fields[i].value, AsDict(schema, v).entries[i].value)
  {
    if 0 <= i < |v.fields| && v.fields[i].Some? {
      var field := schema.classes[v.cls][i];
      assert FieldFits(schema, v.fields[i], field);
      ValueRepresented(schema, v.fields[i].value, field.ty);
      assert AsDict(schema, v).entries[i] == Some(AsField(schema, v.fields[i], field));
    }
  }

  lemma ValueRepresented(schema: Schema, v: Value, ty: FieldType)
    requires Fits(schema, v, ty)
    ensures Represents(schema, v, AsCbor(schema, v, ty))
  {
    if v.List? {
      forall i | 0 <= i < |v.items| && v.items[i].Some?
        ensures RepresentsElement(schema, v.items[i].value, AsElement(schema, v.items[i].value, ty))
      {
        assert v.items[i] in v.items;
      }
    }
  }

  ghost predicate Represents(schema: Schema, v: Value, c: Cbor) {
    match v
    case Atom(a) => c == Leaf(a)
    case Enum(_, n) => c == Leaf(Int(n))
    case Tuple(parts) => c == Array(parts)
    case Instance(_, _) => WellTyped(schema, v) && c == AsDict(schema, v)
    case List(items) =>
      c.Items? && |c.items| == |items| && forall i :: 0 <= i < |items| ==>
        (items[i].Some? <==> c.items[i].Some?) &&
        (items[i].Some? ==> RepresentsElement(schema, items[i].value, c.items[i].value))
  }

  ghost predicate RepresentsElement(schema: Schema, v: Value, c: Cbor) {
    match v
    case Atom(a) => c == Leaf(a)
    case Tuple(parts) => c == Array(parts)
    case Instance(_, _) => WellTyped(schema, v) && c == AsDict(schema, v)
    case _ => false
  }

  /** from_cbor_dict; None stands for the ValueError or TypeError. */
  function FromDict(schema: Schema, cls: ClassId, d: Cbor): Option<Value>
    decreases d, 3
  {
    if cls !in schema.classes || !d.Dict? then None else
      var fields := schema.classes[cls];
      var values := FromFields(schema, fields, d);
      if values.None? then None else Some(Instance(cls, values.value))
  }

  /** The arguments for the constructor, field by field. */
  function FromFields(schema: Schema, fields: seq<Field>, d: Cbor): (r: Option<seq<Option<Value>>>)
    requires d.Dict?
    ensures r.Some? ==> |r.value| == |fields|
    ensures r.Some? ==> forall i :: 0 <= i < |fields| ==> FromField(schema, fields[i], i, d) == Some(r.value[i])
    ensures r.None? ==> exists i :: 0 <= i < |fields| && FromField(schema, fields[i], i, d).None?
    decreases d, 2, |fields|
  {
    if fields == [] then Some([]) else
      var n := |fields| - 1;
      var front, last := FromFields(schema, fields[..n], d), FromField(schema, fields[n], n, d);
      if front.None? || last.None? then None else Some(front.value + [last.value])
  }

  /** The value of one field: an absent required field or a failing conversion fails. */
  function FromField(schema: Schema, field: Field, index: nat, d: Cbor): Option<Option<Value>>
    requires d.Dict?
    decreases d, 1
  {
    if !field.init then Some(field.default)
    else if index !in d.entries || d.entries[index].None? then (if field.required then None else Some(field.default))
    else
      var v := FromCbor(schema, field.ty, d.entries[index].value);
      if v.None? then None else Some(Some(v.value))
  }

  function FromCbor(schema: Schema, ty: FieldType, c: Cbor): Option<Value>
    decreases c, 4
  {
    match ty
    case OfClass(cls) => FromDict(schema, cls, c)
    case OfScalar(t) => if c.Leaf? && HasType(c.a, t) then Some(Atom(c.a)) else None
    case OfEnum(enum) => if c.Leaf? && c.a.Int? && IsMember(schema, enum, c.a.i) then Some(Enum(enum, c.a.i)) else None
    case _ =>
      if !c.Items? then None else
        var items := FromItems(schema, ty, c.items);
        if items.None? then None else Some(List(items.value))
  }

  function FromItems(schema: Schema, ty: FieldType, items: seq<Option<Cbor>>): (r: Option<seq<Option<Value>>>)
    ensures r.Some? ==> |r.value| == |items|
    ensures r.Some? ==> forall i :: 0 <= i < |items| ==> FromItem(schema, ty, items[i]) == Some(r.value[i])
    ensures r.None? ==> exists i :: 0 <= i < |items| && FromItem(schema, ty, items[i]).None?
    decreases items, 6
  {
    if items == [] then Some([]) else
      var n := |items| - 1;
      var front, last := FromItems(schema, ty, items[..n]), FromItem(schema, ty, items[n]);
      if front.None? || last.None? then None else Some(front.value + [last.value])
  }

  function FromItem(schema: Schema, ty: FieldType, c: Option<Cbor>): Option<Option<Value>>
    decreases c, 5
  {
    if c.None? then Some(None) else
      match ty
      case ListOfClass(cls) =>
        var v := FromDict(schema, cls, c.value);
        if v.None? then None else Some(Some(v.value))
      case ListOfTuple => if c.value.Array? then Some(Some(Tuple(c.value.parts))) else None
      case _ => if c.value.Leaf? then Some(Some(Atom(c.value.a))) else None
  }

  // Round trip

  lemma {:induction false} FieldRoundTrip(schema: Schema, v: Value, ty: FieldType)
    requires Fits(schema, v, ty)
    ensures FromCbor(schema, ty, AsCbor(schema, v, ty)) == Some(v)
    decreases v, 2
  {
    match v
    case Instance(_, _) => RoundTrip(schema, v);
    case List(items) =>
      var c := AsCbor(schema, v, ty).items;
      forall i | 0 <= i < |items| ensures FromItem(schema, ty, c[i]) == Some(items[i]) {
        assert items[i] in items;
        if items[i].Some? {
          var x := items[i].value;
          assert c[i] == Some(AsElement(schema, x, ty));
          if x.Instance? {
            RoundTrip(schema, x);
          }
        }
      }
      var r := FromItems(schema, ty, c);
      assert r.Some? && r.value == items;
    case Atom(_) =>
    case Enum(_, _) =>
    case Tuple(_) =>
  }

  /** Decoding the dictionary of a well-typed message of any depth gives the message back. */
  lemma {:induction false} RoundTrip(schema: Schema, v: Value)
    requires WellTyped(schema, v)
    ensures FromDict(schema, v.cls, AsDict(schema, v)) == Some(v)
    decreases v, 1
  {
    var fields, d := schema.classes[v.cls], AsDict(schema, v);
    forall i | 0 <= i < |fields| ensures FromField(schema, fields[i], i, d) == Some(v.fields[i]) {
      assert FieldFits(schema, v.fields[i], fields[i]);
      if v.fields[i].Some? {
        assert AsField(schema, v.fields[i], fields[i]) == AsCbor(schema, v.fields[i].value, fields[i].ty);
        FieldRoundTrip(schema, v.fields[i].value, fields[i].ty);
      }
    }
    var r := FromFields(schema, fields, d);
    assert r.Some? && r.value == v.fields;
  }

  /** A field of a dictionary is absent or null. */
  predicate Absent(d: Cbor, i: int)
    requires d.Dict?
  {
    i !in d.entries || d.entries[i].None?
  }

  /** Decoding fails exactly for an unknown class, something other than a dictionary, a required field
      that is absent, or a present field whose conversion fails; otherwise absent fields and those
      outside __init__ get their defaults, and the others what they convert to. Keys without a field
      play no part. */
  lemma DecodesExactly(schema: Schema, cls: ClassId, d: Cbor)
    ensures FromDict(schema, cls, d).None? <==>
            cls !in schema.classes || !d.Dict? ||
            exists i :: 0 <= i < |schema.classes[cls]| && schema.classes[cls][i].init &&
                        if Absent(d, i) then schema.classes[cls][i].required
                        else FromCbor(schema, schema.classes[cls][i].ty, d.entries[i].value).None?
    ensures FromDict(schema, cls, d).Some? ==>
              var v, fields := FromDict(schema, cls, d).value, schema.classes[cls];
              && v.Instance? && v.cls == cls && |v.fields| == |fields|
              && forall i :: 0 <= i < |fields| ==>
                   v.fields[i] == if !fields[i].init || Absent(d, i) then fields[i].default
                                  else FromCbor(schema, fields[i].ty, d.entries[i].value)
  {
    if cls in schema.classes && d.Dict? {
      var fields := schema.classes[cls];
      forall i | 0 <= i < |fields|
        ensures FromField(schema, fields[i], i, d).None? <==>
                fields[i].init && if Absent(d, i) then fields[i].required
                                  else FromCbor(schema, fields[i].ty, d.entries[i].value).None?
      {
      }
    }
  }

  // clone and digest

  /** Keyword values that clone turns into what from_cbor_dict expects: scalars and instances. */
  predicate Cloneable(schema: Schema, v: Option<Value>) {
    v.Some? ==> v.value.Atom? || v.value.Enum? || (v.value.Instance? && WellTyped(schema, v.value))
  }

  function AsKeyword(schema: Schema, v: Option<Value>): Option<Cbor>
    requires Cloneable(schema, v)
  {
    if v.None? then None else
      match v.value
      case Instance(_, _) => Some(AsDict(schema, v.value))
      case Enum(_, n) => Some(Leaf(Int(n)))
      case Atom(a) => Some(Leaf(a))
  }

  /** updates maps field indices to values; unknown names have index -1. */
  function Clone(schema: Schema, v: Value, updates: map<int, Option<Value>>): Option<Value>
    requires WellTyped(schema, v)
    requires forall i :: i in updates ==> Cloneable(schema, updates[i])
  {
    FromDict(schema, v.cls, Dict(AsDict(schema, v).entries + map i | i in updates :: AsKeyword(schema, updates[i])))
  }

  /** The message with the fields replaced; fields outside __init__ keep their value. */
  function Updated(schema: Schema, v: Value, updates: map<int, Option<Value>>): (r: Value)
    requires WellTyped(schema, v)
    ensures r.Instance? && r.cls == v.cls && |r.fields| == |v.fields|
  {
    Instance(v.cls, seq(|v.fields|, i requires 0 <= i < |v.fields| =>
      if i in updates && schema.classes[v.cls][i].init then updates[i] else v.fields[i]))
  }

  /** The updates fit the fields they are for. */
  predicate UpdatesFit(schema: Schema, v: Value, updates: map<int, Option<Value>>)
    requires WellTyped(schema, v)
  {
    forall i :: 0 <= i < |v.fields| && i in updates && schema.classes[v.cls][i].init ==>
      FieldFits(schema, updates[i], schema.classes[v.cls][i])
  }

  lemma KeywordRoundTrip(schema: Schema, v: Value, ty: FieldType)
    requires Cloneable(schema, Some(v)) && Fits(schema, v, ty)
    ensures FromCbor(schema, ty, AsKeyword(schema, Some(v)).value) == Some(v)
  {
    if v.Instance? {
      RoundTrip(schema, v);
    }
  }

  /** clone is a pure field update. */
  lemma CloneUpdates(schema: Schema, v: Value, updates: map<int, Option<Value>>)
    requires WellTyped(schema, v) && UpdatesFit(schema, v, updates)
    requires forall i :: i in updates ==> Cloneable(schema, updates[i])
    ensures Clone(schema, v, updates) == Some(Updated(schema, v, updates))
  {
    var fields, u := schema.classes[v.cls], Updated(schema, v, updates);
    var before := AsDict(schema, v);
    var d := Dict(before.entries + map i | i in updates :: AsKeyword(schema, updates[i]));
    RoundTrip(schema, v);
    forall i | 0 <= i < |fields| ensures FromField(schema, fields[i], i, d) == Some(u.fields[i]) {
      assert FieldFits(schema, v.fields[i], fields[i]);
      assert FromField(schema, fields[i], i, before) == Some(v.fields[i]);
      if i in updates && fields[i].init {
        assert FieldFits(schema, updates[i], fields[i]);
        if updates[i].Some? {
          KeywordRoundTrip(schema, updates[i].value, fields[i].ty);
        }
      }
    }
    var r := FromFields(schema, fields, d);
    assert r.Some? && r.value == u.fields;
  }

  /** Different messages of a class have different dictionaries. */
  lemma EncodingInjective(schema: Schema, v: Value, w: Value)
    requires WellTyped(schema, v) && WellTyped(schema, w) && v.cls == w.cls
    ensures AsDict(schema, v) == AsDict(schema, w) <==> v == w
  {
    RoundTrip(schema, v);
    RoundTrip(schema, w);
  }

  /** What digest hashes: the dictionary of the message without its debug information. */
  function Digested(schema: Schema, v: Value, debug: nat): Option<Cbor>
    requires WellTyped(schema, v)
  {
    var c := Clone(schema, v, map[debug as int := None]);
    if c.None? || !WellTyped(schema, c.value) then None else Some(AsDict(schema, c.value))
  }

  /** Digested is the dictionary of the message that has no debug information and is otherwise the same. */
  lemma DigestedIs(schema: Schema, v: Value, debug: nat)
    requires WellTyped(schema, v) && debug < |v.fields|
    requires var f := schema.classes[v.cls][debug]; f.init && !f.required && f.default.None?
    ensures var cleared := Instance(v.cls, v.fields[debug := None]);
            WellTyped(schema, cleared) && Digested(schema, v, debug) == Some(AsDict(schema, cleared))
  {
    var updates: map<int, Option<Value>> := map[debug := None];
    CloneUpdates(schema, v, updates);
    UpdatedWellTyped(schema, v, updates);
    assert Updated(schema, v, updates).fields == v.fields[debug := None];
  }

  /** Messages are digested alike exactly if they agree outside the debug information. */
  lemma DigestIgnoresDebug(schema: Schema, v: Value, w: Value, debug: nat)
    requires WellTyped(schema, v) && WellTyped(schema, w) && v.cls == w.cls && debug < |v.fields|
    requires var f := schema.classes[v.cls][debug]; f.init && !f.required && f.default.None?
    ensures Digested(schema, v, debug).Some?
    ensures Digested(schema, v, debug) == Digested(schema, w, debug) <==>
            forall i :: 0 <= i < |v.fields| && i != debug ==> v.fields[i] == w.fields[i]
  {
    var updates: map<int, Option<Value>> := map[debug := None];
    CloneUpdates(schema, v, updates);
    CloneUpdates(schema, w, updates);
    UpdatedWellTyped(schema, v, updates);
    UpdatedWellTyped(schema, w, updates);
    EncodingInjective(schema, Updated(schema, v, updates), Updated(schema, w, updates));
    ClearedAlike(schema, v, w, debug);
  }

  /** Clearing a field makes messages equal exactly if they differ nowhere else. */
  lemma ClearedAlike(schema: Schema, v: Value, w: Value, debug: nat)
    requires WellTyped(schema, v) && WellTyped(schema, w) && v.cls == w.cls && debug < |v.fields|
    requires schema.classes[v.cls][debug].init
    ensures Updated(schema, v, map[debug := None]) == Updated(schema, w, map[debug := None]) <==>
            forall i :: 0 <= i < |v.fields| && i != debug ==> v.fields[i] == w.fields[i]
  {
    var c, e := Updated(schema, v, map[debug := None]), Updated(schema, w, map[debug := None]);
    if c == e {
      forall i | 0 <= i < |v.fields| && i != debug ensures v.fields[i] == w.fields[i] {
        assert c.fields[i] == v.fields[i] && e.fields[i] == w.fields[i];
      }
    }
    if forall i :: 0 <= i < |v.fields| && i != debug ==> v.fields[i] == w.fields[i] {
      assert c.fields == e.fields;
    }
  }

  lemma UpdatedWellTyped(schema: Schema, v: Value, updates: map<int, Option<Value>>)
    requires WellTyped(schema, v) && UpdatesFit(schema, v, updates)
    ensures WellTyped(schema, Updated(schema, v, updates))
  {
    var u, fields := Updated(schema, v, updates), schema.classes[v.cls];
    forall i | 0 <= i < |u.fields| ensures FieldFits(schema, u.fields[i], fields[i]) {
      assert FieldFits(schema, v.fields[i], fields[i]);
    }
  }
}
