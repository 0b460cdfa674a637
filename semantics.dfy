/** What one call of the recursive assignment engine (lib.go) computes, as
    functions of the source and the prior destination: the new destination,
    or the panic that ends the call. Each function mirrors one step of the
    engine; the imperative engine in module TypeJuggle is proved to compute
    exactly these results. */
module Semantics {
  import opened Reflect
  import opened Pointers
  import opened Conversion

  /** The run-time panics the engine can reach on values of this model. */
  datatype Cause =
    | ElemOfNonSlice    // a non-empty source slice meets a missing or non-slice destination
    | SetTypeMismatch   // a special conversion result whose type differs from the destination's

  datatype Result<+T> = Ok(value: T) | Panicked(cause: Cause)

  /** The variadic `convert ...bool` flag: lossy mode is on only when a first
      flag is given and is true. */
  predicate Lossy(convert: seq<bool>)
    ensures Lossy(convert) ==> |convert| > 0 && convert[..1] == [true]
    ensures !Lossy(convert) ==> |convert| == 0 || !convert[0]
  {
    |convert| > 0 && convert[0]
  }

  /** The one field-name alias: "ID" is looked up as "Id" and vice versa. */
  function FieldNameFor(name: string): (r: string)
    ensures |r| == |name|
    ensures r != name <==> name == "ID" || name == "Id"
    ensures r == "Id" <==> name == "ID"
    ensures r == "ID" <==> name == "Id"
  {
    if name == "ID" then "Id" else if name == "Id" then "ID" else name
  }

  /** The destination field a source field named `name` is written to: the
      alias is tried first, the original name only when the alias names no
      field, and None when neither does. */
  function FindDestField(dfs: seq<Field>, name: string): (r: Option<nat>)
    ensures r.Some? ==> r.value < |dfs|
    ensures HasField(dfs, FieldNameFor(name)) ==> r.Some? && dfs[r.value].name == FieldNameFor(name)
    ensures !HasField(dfs, FieldNameFor(name)) && HasField(dfs, name) ==> r.Some? && dfs[r.value].name == name
    ensures r.None? <==> !HasField(dfs, FieldNameFor(name)) && !HasField(dfs, name)
  {
    match FieldByName(dfs, FieldNameFor(name))
    case Some(j) => Some(j)
    case None => FieldByName(dfs, name)
  }

  /** The element the slice walker creates for each source element: a fresh
      pointer to a zero value when the element type is a pointer (exactly
      one layer), otherwise the zero value itself. */
  function Fresh(et: Type): (r: Value)
    ensures TypeOf(r) == et
  {
    if et.TPtr? then PtrV(et.elem, Some(Zero(et.elem))) else Zero(et)
  }

  /** The source as the dispatcher sees it: a pointer is dereferenced all the
      way (None when a layer is nil), anything else is taken as it is. */
  function Resolve(src: Option<Value>): (r: Option<Value>)
    ensures r.Some? ==> !r.value.PtrV?
    ensures src.None? || !src.value.PtrV? ==> r == src
    ensures src.Some? && src.value.PtrV? ==> (r.Some? <==> Allocated(src.value))
    ensures src.Some? && src.value.PtrV? && r.Some? ==> Wrap(Layers(src.value), r.value) == src.value
    ensures OptSize(r) <= OptSize(src)
  {
    if src.Some? && src.value.PtrV? then
      if Allocated(src.value) then DerefDecomposes(src.value); Deref(src.value) else None
    else src
  }

  /** Whether assigning src to an invalid destination (a field the
      destination struct lacks) panics: only a source that resolves to a
      non-empty slice reaches destVal.Type() there. */
  predicate InvalidDestPanics(src: Value)
    ensures !src.PtrV? ==> (InvalidDestPanics(src) <==> src.SliceV? && |src.items| > 0)
    ensures InvalidDestPanics(src) ==> Allocated(src)
  {
    var s := Resolve(Some(src));
    s.Some? && s.value.SliceV? && |s.value.items| > 0
  }

  /** assignRecursive: resolve the source chain (read-only), allocate the
      destination chain, then dispatch on the source's kind and write the
      outcome at the innermost destination value. */
  function Assign(src: Option<Value>, dest: Value, convert: seq<bool>): (r: Result<Value>)
    ensures r.Ok? ==> TypeOf(r.value) == TypeOf(dest)
    ensures r.Ok? ==> Allocated(r.value) && Layers(r.value) == Layers(Alloc(dest))
    decreases OptSize(src), 3
  {
    var s := Resolve(src);
    var d := if dest.PtrV? then Alloc(dest) else dest;
    match AssignLeaf(s, Deref(d).value, convert)
    case Ok(x) => Ok(Wrap(Layers(d), x))
    case Panicked(c) => Panicked(c)
  }

  /** The dispatch of assignRecursive once both chains are resolved: s is
      the resolved source (None when invalid), d the innermost destination. */
  function AssignLeaf(s: Option<Value>, d: Value, convert: seq<bool>): (r: Result<Value>)
    ensures r.Ok? ==> TypeOf(r.value) == TypeOf(d)
    decreases OptSize(s), 2
  {
    if s.Some? && s.value.StructV? then
      if d.StructV? then
        match AssignFields(s.value.fields, d.fields, convert)
        case Ok(fs) => Ok(StructV(fs))
        case Panicked(c) => Panicked(c)
      else Ok(d)
    else if s.Some? && s.value.SliceV? then
      AssignSlice(s.value.items, d, convert)
    else if s.Some? then
      AssignScalar(s.value, d, convert)
    else
      Ok(d)
  }

  /** assignStructFieldsRecursive: the source fields in declaration order,
      each assigned to the destination field it is matched with. */
  function AssignFields(sfs: seq<Field>, dfs: seq<Field>, convert: seq<bool>): (r: Result<seq<Field>>)
    ensures r.Ok? ==> FieldTypes(r.value) == FieldTypes(dfs)
    decreases FieldsSize(sfs), 5
  {
    if |sfs| == 0 then Ok(dfs)
    else match AssignFields(sfs[..|sfs| - 1], dfs, convert)
      case Panicked(c) => Panicked(c)
      case Ok(acc) => AssignField(sfs[|sfs| - 1], acc, convert)
  }

  /** One iteration of the struct walker. */
  function AssignField(f: Field, dfs: seq<Field>, convert: seq<bool>): (r: Result<seq<Field>>)
    ensures r.Ok? ==> FieldTypes(r.value) == FieldTypes(dfs)
    decreases Size(f.val), 4
  {
    match FindDestField(dfs, f.name)
    case Some(j) =>
      (match Assign(Some(f.val), dfs[j].val, convert)
       case Ok(v) =>
         var r := dfs[j := Field(dfs[j].name, v)];
         assert FieldTypes(r) == FieldTypes(dfs) by {
           forall k | 0 <= k < |dfs| ensures FieldTypes(r)[k] == FieldTypes(dfs)[k] { }
         }
         Ok(r)
       case Panicked(c) => Panicked(c))
    case None =>
      if InvalidDestPanics(f.val) then Panicked(ElemOfNonSlice) else Ok(dfs)
  }

  /** assignSliceFields: nothing happens for an empty source; otherwise the
      destination must be a slice, and one new element per source element
      is appended to its prior contents. */
  function AssignSlice(xs: seq<Value>, d: Value, convert: seq<bool>): (r: Result<Value>)
    ensures r.Ok? ==> TypeOf(r.value) == TypeOf(d)
    decreases ItemsSize(xs), 6
  {
    if |xs| == 0 then Ok(d)
    else if !d.SliceV? then Panicked(ElemOfNonSlice)
    else match AssignItems(xs, d.elem, convert)
      case Ok(ys) => Ok(SliceV(d.elem, d.items + ys, false))
      case Panicked(c) => Panicked(c)
  }

  /** The elements the slice walker appends: each source element assigned
      into a fresh element of type et. */
  function AssignItems(xs: seq<Value>, et: Type, convert: seq<bool>): (r: Result<seq<Value>>)
    ensures r.Ok? ==> |r.value| == |xs| && forall i :: 0 <= i < |xs| ==> TypeOf(r.value[i]) == et
    decreases ItemsSize(xs), 5
  {
    if |xs| == 0 then Ok([])
    else match AssignItems(xs[..|xs| - 1], et, convert)
      case Panicked(c) => Panicked(c)
      case Ok(ys) =>
        match Assign(Some(xs[|xs| - 1]), Fresh(et), convert)
        case Ok(y) => Ok(ys + [y])
        case Panicked(c) => Panicked(c)
  }

  /** The scalar branch of assignRecursive: a direct Set when the types are
      the same; in lossy mode the special table, then the generic
      conversion; otherwise the destination is left as it was. */
  function AssignScalar(s: Value, d: Value, convert: seq<bool>): (r: Result<Value>)
    ensures r.Ok? ==> TypeOf(r.value) == TypeOf(d)
    ensures r.Panicked? ==> Lossy(convert) && r.cause == SetTypeMismatch
  {
    if TypeOf(s) == TypeOf(d) then Ok(s)
    else if Lossy(convert) then
      match SpecialConversion(s, TypeOf(d))
      case Some(x) => if TypeOf(x) == TypeOf(d) then Ok(x) else Panicked(SetTypeMismatch)
      case None =>
        if ConvertibleTo(TypeOf(s), TypeOf(d)) then Ok(Convert(s, TypeOf(d))) else Ok(d)
    else Ok(d)
  }

  /** FillFields: the engine applied to a non-nil pointer to the destination. */
  function Fill(src: Option<Value>, dest: Value, convert: seq<bool>): Result<Value>
  {
    match Assign(src, PtrV(TypeOf(dest), Some(dest)), convert)
    case Ok(p) => Ok(p.target.value)
    case Panicked(c) => Panicked(c)
  }

  /** A panic while walking a prefix of the source fields ends the walk. */
  lemma {:induction false} FieldsPanicSticks(sfs: seq<Field>, k: nat, dfs: seq<Field>, convert: seq<bool>)
    requires k <= |sfs| && AssignFields(sfs[..k], dfs, convert).Panicked?
    ensures AssignFields(sfs, dfs, convert) == AssignFields(sfs[..k], dfs, convert)
  {
    if k < |sfs| {
      var p := sfs[..|sfs| - 1];
      assert p[..k] == sfs[..k];
      FieldsPanicSticks(p, k, dfs, convert);
    } else {
      assert sfs[..k] == sfs;
    }
  }

  /** One more iteration of the slice walker over a prefix of the source:
      the destination reached so far must be a slice, and it grows by the
      next source element assigned into a fresh element. */
  lemma SliceExtend(xs: seq<Value>, i: nat, d: Value, cur: Value, convert: seq<bool>)
    requires i < |xs|
    requires AssignSlice(xs[..i], d, convert) == Ok(cur)
    ensures AssignSlice(xs[..i + 1], d, convert) ==
      if !cur.SliceV? then Panicked(ElemOfNonSlice)
      else match Assign(Some(xs[i]), Fresh(cur.elem), convert)
        case Ok(y) => Ok(SliceV(cur.elem, cur.items + [y], false))
        case Panicked(c) => Panicked(c)
  {
    var p := xs[..i + 1];
    assert p[..|p| - 1] == xs[..i] && p[|p| - 1] == xs[i];
    if d.SliceV? {
      var ys := AssignItems(xs[..i], d.elem, convert).value;
      assert cur.SliceV? && cur.elem == d.elem && cur.items == d.items + ys by {
        if i == 0 { assert ys == []; assert d.items + ys == d.items; }
      }
      assert AssignItems(p, d.elem, convert) ==
        match Assign(Some(xs[i]), Fresh(d.elem), convert)
        case Ok(y) => Ok(ys + [y])
        case Panicked(c) => Panicked(c);
      forall y: Value ensures d.items + (ys + [y]) == cur.items + [y] { }
    }
  }

  /** A panic while walking a prefix of the source elements ends the walk. */
  lemma SlicePanicSticks(xs: seq<Value>, k: nat, d: Value, convert: seq<bool>)
    requires 0 < k <= |xs| && AssignSlice(xs[..k], d, convert).Panicked?
    ensures AssignSlice(xs, d, convert) == AssignSlice(xs[..k], d, convert)
  {
    if d.SliceV? {
      ItemsPanicSticks(xs, k, d.elem, convert);
    }
  }

  /** A panic while filling a prefix of the source elements ends the walk. */
  lemma {:induction false} ItemsPanicSticks(xs: seq<Value>, k: nat, et: Type, convert: seq<bool>)
    requires k <= |xs| && AssignItems(xs[..k], et, convert).Panicked?
    ensures AssignItems(xs, et, convert) == AssignItems(xs[..k], et, convert)
  {
    if k < |xs| {
      var p := xs[..|xs| - 1];
      assert p[..k] == xs[..k];
      ItemsPanicSticks(p, k, et, convert);
    } else {
      assert xs[..k] == xs;
    }
  }
}
