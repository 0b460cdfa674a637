/** The closed universe of Go types and values that the assignment engine
    inspects through package reflect: signed integers of every width, strings,
    booleans, pointers, slices and structs. A reflect.Value that is not valid
    (the zero reflect.Value) is represented by `None` wherever one can occur. */
module Reflect {

  datatype Option<+T> = None | Some(value: T)

  /** Go's signed integer kinds; `int` is taken to be 64 bits wide. */
  datatype IntWidth = Int | Int8 | Int16 | Int32 | Int64

  /** Half the number of values of a width: the range is [-Half, Half). */
  function Half(w: IntWidth): nat
  {
    match w
    case Int8 => 0x80
    case Int16 => 0x8000
    case Int32 => 0x8000_0000
    case Int => 0x8000_0000_0000_0000
    case Int64 => 0x8000_0000_0000_0000
  }

  predicate InRange(w: IntWidth, x: int)
  {
    -(Half(w) as int) <= x < Half(w)
  }

  datatype Type =
    | TInt(width: IntWidth)
    | TString
    | TBool
    | TPtr(elem: Type)
    | TSlice(elem: Type)
    | TStruct(fields: seq<FieldType>)

  datatype FieldType = FieldType(name: string, typ: Type)

  /** A Go value. A pointer carries its pointee type, so that a nil pointer
      still knows what to allocate; a slice carries its element type and
      whether it is nil (a nil slice has no items). */
  datatype Value =
    | IntV(width: IntWidth, i: int)
    | StrV(s: string)
    | BoolV(b: bool)
    | PtrV(elem: Type, target: Option<Value>)
    | SliceV(elem: Type, items: seq<Value>, isNil: bool)
    | StructV(fields: seq<Field>)

  datatype Field = Field(name: string, val: Value)

  function TypeOf(v: Value): Type
  {
    match v
    case IntV(w, _) => TInt(w)
    case StrV(_) => TString
    case BoolV(_) => TBool
    case PtrV(t, _) => TPtr(t)
    case SliceV(t, _, _) => TSlice(t)
    case StructV(fs) => TStruct(FieldTypes(fs))
  }

  /** The field list of a struct value's type: names and field types. */
  function FieldTypes(fs: seq<Field>): (r: seq<FieldType>)
    ensures |r| == |fs|
    ensures forall i :: 0 <= i < |fs| ==> r[i] == FieldType(fs[i].name, TypeOf(fs[i].val))
  {
    seq(|fs|, i requires 0 <= i < |fs| => FieldType(fs[i].name, TypeOf(fs[i].val)))
  }

  /** The value reflect.New(t).Elem() holds: Go's zero value of t. */
  function Zero(t: Type): (r: Value)
    ensures TypeOf(r) == t
  {
    match t
    case TInt(w) => IntV(w, 0)
    case TString => StrV("")
    case TBool => BoolV(false)
    case TPtr(e) => PtrV(e, None)
    case TSlice(e) => SliceV(e, [], true)
    case TStruct(fts) =>
      var fs := seq(|fts|, i requires 0 <= i < |fts| => Field(fts[i].name, Zero(fts[i].typ)));
      assert FieldTypes(fs) == fts by {
        forall i | 0 <= i < |fts| ensures FieldTypes(fs)[i] == fts[i] {
          assert fs[i] == Field(fts[i].name, Zero(fts[i].typ));
        }
      }
      StructV(fs)
  }

  predicate DistinctTypeNames(fts: seq<FieldType>)
  {
    forall i, j :: 0 <= i < j < |fts| ==> fts[i].name != fts[j].name
  }

  predicate DistinctNames(fs: seq<Field>)
  {
    forall i, j :: 0 <= i < j < |fs| ==> fs[i].name != fs[j].name
  }

  /** A type Go could declare: struct field names are unique. */
  predicate ValidType(t: Type)
  {
    match t
    case TPtr(e) => ValidType(e)
    case TSlice(e) => ValidType(e)
    case TStruct(fts) => DistinctTypeNames(fts) && forall i :: 0 <= i < |fts| ==> ValidType(fts[i].typ)
    case _ => true
  }

  /** A value Go could hold: integers fit their width, pointees and slice
      items have the declared type, and nil slices are empty. */
  predicate WellTyped(v: Value)
  {
    match v
    case IntV(w, x) => InRange(w, x)
    case StrV(_) => true
    case BoolV(_) => true
    case PtrV(t, target) =>
      ValidType(t) && (target.Some? ==> TypeOf(target.value) == t && WellTyped(target.value))
    case SliceV(t, xs, isNil) =>
      ValidType(t) && (isNil ==> xs == []) &&
      forall i :: 0 <= i < |xs| ==> TypeOf(xs[i]) == t && WellTyped(xs[i])
    case StructV(fs) =>
      DistinctNames(fs) && forall i :: 0 <= i < |fs| ==> WellTyped(fs[i].val)
  }

  lemma {:induction false} WellTypedHasValidType(v: Value)
    requires WellTyped(v)
    ensures ValidType(TypeOf(v))
  {
    match v
    case StructV(fs) =>
      var fts := FieldTypes(fs);
      forall i | 0 <= i < |fts| ensures ValidType(fts[i].typ) {
        WellTypedHasValidType(fs[i].val);
      }
      assert DistinctTypeNames(fts) by {
        forall i, j | 0 <= i < j < |fts| ensures fts[i].name != fts[j].name {
          assert fts[i].name == fs[i].name && fts[j].name == fs[j].name;
        }
      }
    case _ =>
  }

  lemma {:induction false} ZeroWellTyped(t: Type)
    requires ValidType(t)
    ensures WellTyped(Zero(t))
  {
    match t
    case TStruct(fts) =>
      var fs := Zero(t).fields;
      forall i | 0 <= i < |fs| ensures WellTyped(fs[i].val) {
        ZeroWellTyped(fts[i].typ);
      }
      assert DistinctNames(fs) by {
        forall i, j | 0 <= i < j < |fs| ensures fs[i].name != fs[j].name {
          assert fs[i].name == fts[i].name && fs[j].name == fts[j].name;
        }
      }
    case _ =>
  }

  // Structural size, the termination measure of the engine's recursion.

  function Size(v: Value): (n: nat)
    ensures n >= 1
  {
    match v
    case PtrV(_, target) => 1 + (if target.Some? then Size(target.value) else 0)
    case SliceV(_, items, _) => 1 + ItemsSize(items)
    case StructV(fields) => 1 + FieldsSize(fields)
    case _ => 1
  }

  function FieldsSize(fs: seq<Field>): nat
  {
    if |fs| == 0 then 0 else FieldsSize(fs[..|fs| - 1]) + Size(fs[|fs| - 1].val)
  }

  function ItemsSize(xs: seq<Value>): nat
  {
    if |xs| == 0 then 0 else ItemsSize(xs[..|xs| - 1]) + Size(xs[|xs| - 1])
  }

  function OptSize(v: Option<Value>): nat
  {
    if v.Some? then Size(v.value) else 0
  }

  lemma {:induction false} FieldSizeBound(fs: seq<Field>, i: nat)
    requires i < |fs|
    ensures Size(fs[i].val) <= FieldsSize(fs)
  {
    if i < |fs| - 1 {
      FieldSizeBound(fs[..|fs| - 1], i);
    }
  }

  lemma {:induction false} ItemSizeBound(xs: seq<Value>, i: nat)
    requires i < |xs|
    ensures Size(xs[i]) <= ItemsSize(xs)
  {
    if i < |xs| - 1 {
      ItemSizeBound(xs[..|xs| - 1], i);
    }
  }

  /** reflect.Value.FieldByName on a struct: the index of the field
      declared with exactly this name, or None (an invalid Value). */
  function FieldByName(fs: seq<Field>, name: string): (r: Option<nat>)
    ensures r.Some? ==> r.value < |fs| && fs[r.value].name == name
    ensures r.Some? ==> forall k :: 0 <= k < r.value ==> fs[k].name != name
    ensures r.None? ==> forall k :: 0 <= k < |fs| ==> fs[k].name != name
  {
    if |fs| == 0 then None
    else match FieldByName(fs[..|fs| - 1], name)
      case Some(j) => Some(j)
      case None => if fs[|fs| - 1].name == name then Some(|fs| - 1) else None
  }

  predicate HasField(fs: seq<Field>, name: string)
  {
    exists k :: 0 <= k < |fs| && fs[k].name == name
  }

  function Names(fs: seq<Field>): (r: seq<string>)
    ensures |r| == |fs| && forall i :: 0 <= i < |fs| ==> r[i] == fs[i].name
  {
    seq(|fs|, i requires 0 <= i < |fs| => fs[i].name)
  }

  /** Lookup by name sees only the names of the fields, not their values. */
  lemma FieldByNameSeesNames(fs: seq<Field>, gs: seq<Field>, name: string)
    requires Names(fs) == Names(gs)
    ensures FieldByName(fs, name) == FieldByName(gs, name)
  {
    var a, b := FieldByName(fs, name), FieldByName(gs, name);
    assert |fs| == |gs|;
    forall k | 0 <= k < |fs| ensures fs[k].name == gs[k].name {
      assert Names(fs)[k] == Names(gs)[k];
    }
    if a.Some? && b.Some? {
      assert !(a.value < b.value) && !(b.value < a.value);
    }
  }
}
