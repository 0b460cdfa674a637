/** What the assignment engine guarantees, stated about module Semantics:
    which destination parts are allocated, which are written, and that
    everything else is left as it was. */
module Properties {
  import opened Reflect
  import opened Strconv
  import opened Pointers
  import opened Conversion
  import opened Semantics

  // ---------------------------------------------------------------------
  // The entry point

  /** FillFields behaves as the engine applied to the destination itself:
      the pointer FillFields wraps around it is never nil. */
  lemma FillIsAssign(src: Option<Value>, dest: Value, convert: seq<bool>)
    ensures Fill(src, dest, convert) == Assign(src, dest, convert)
  {
    var p := PtrV(TypeOf(dest), Some(dest));
    var d := if dest.PtrV? then Alloc(dest) else dest;
    assert Alloc(p) == PtrV(TypeOf(dest), Some(d));
    assert Deref(Alloc(p)) == Deref(d);
    assert Layers(Alloc(p)) == [TypeOf(dest)] + Layers(d);
    match AssignLeaf(Resolve(src), Deref(d).value, convert)
    case Ok(x) =>
      assert ([TypeOf(dest)] + Layers(d))[1..] == Layers(d);
    case Panicked(c) =>
  }

  // ---------------------------------------------------------------------
  // An absent source

  /** A source that is invalid or whose pointer chain reaches nil writes
      nothing: the destination chain is still allocated, and a destination
      whose chain was already allocated comes back unchanged. */
  lemma AbsentSourceOnlyAllocates(src: Option<Value>, dest: Value, convert: seq<bool>)
    requires src.None? || (src.value.PtrV? && !Allocated(src.value))
    ensures Assign(src, dest, convert) == Ok(Alloc(dest))
    ensures Allocated(dest) ==> Assign(src, dest, convert) == Ok(dest)
  {
    var d := if dest.PtrV? then Alloc(dest) else dest;
    assert Resolve(src) == None;
    DerefDecomposes(d);
  }

  // ---------------------------------------------------------------------
  // Shapes

  /** A source behind an allocated pointer chain is assigned as if the
      innermost value had been given directly. */
  lemma PointerSourceTransparent(p: Value, dest: Value, convert: seq<bool>)
    requires p.PtrV? && Allocated(p)
    ensures Assign(Some(p), dest, convert) == Assign(Deref(p), dest, convert)
  {
  }

  /** A struct source meeting a destination that is not a struct (once its
      chain is allocated) changes nothing beyond that allocation. */
  lemma StructIntoNonStruct(src: Option<Value>, dest: Value, convert: seq<bool>)
    requires Resolve(src).Some? && Resolve(src).value.StructV?
    requires !Deref(Alloc(dest)).value.StructV?
    ensures Assign(src, dest, convert) == Ok(Alloc(dest))
  {
    var d := if dest.PtrV? then Alloc(dest) else dest;
    DerefDecomposes(d);
  }

  /** The lookup name swaps "ID" and "Id" and leaves every other name as it
      is; applied twice it gives the name back. */
  lemma AliasSwapsOnce(name: string)
    ensures FieldNameFor("ID") == "Id" && FieldNameFor("Id") == "ID"
    ensures name != "ID" && name != "Id" ==> FieldNameFor(name) == name
    ensures FieldNameFor(FieldNameFor(name)) == name
  {
  }

  /** Only the first flag decides the mode: flags after it are ignored. */
  lemma LossyFirstFlagOnly(convert: seq<bool>, extra: seq<bool>)
    requires |convert| > 0
    ensures Lossy(convert + extra) == Lossy(convert)
  {
    assert (convert + extra)[0] == convert[0];
  }

  /** After a struct-to-struct walk, a destination field that no source
      field is matched with keeps its prior value; no field is added,
      removed or renamed. */
  lemma {:induction false} UnmatchedFieldsKept(sfs: seq<Field>, dfs: seq<Field>, convert: seq<bool>, j: nat)
    requires j < |dfs|
    requires forall i :: 0 <= i < |sfs| ==> FindDestField(dfs, sfs[i].name) != Some(j)
    ensures AssignFields(sfs, dfs, convert).Ok? ==>
      var r := AssignFields(sfs, dfs, convert).value;
      Names(r) == Names(dfs) && r[j] == dfs[j]
    decreases |sfs|
  {
    var r := AssignFields(sfs, dfs, convert);
    if r.Ok? {
      NamesFollowTypes(r.value, dfs);
      if |sfs| > 0 {
        var p := sfs[..|sfs| - 1];
        UnmatchedFieldsKept(p, dfs, convert, j);
        var acc := AssignFields(p, dfs, convert).value;
        FieldStepKeeps(sfs[|sfs| - 1], acc, dfs, convert, j);
      }
    }
  }

  /** After a struct-to-struct walk, a destination field matched by exactly
      one source field holds the result of assigning that source field to
      the field's prior value. */
  lemma {:induction false} MatchedFieldWritten(sfs: seq<Field>, dfs: seq<Field>, convert: seq<bool>, i: nat, j: nat)
    requires i < |sfs| && FindDestField(dfs, sfs[i].name) == Some(j)
    requires forall k :: 0 <= k < |sfs| && k != i ==> FindDestField(dfs, sfs[k].name) != Some(j)
    ensures AssignFields(sfs, dfs, convert).Ok? ==>
      var r := AssignFields(sfs, dfs, convert).value;
      j < |r| && r[j].name == dfs[j].name &&
      Assign(Some(sfs[i].val), dfs[j].val, convert) == Ok(r[j].val)
    decreases |sfs|
  {
    var r := AssignFields(sfs, dfs, convert);
    if r.Ok? {
      var p := sfs[..|sfs| - 1];
      var f := sfs[|sfs| - 1];
      var acc := AssignFields(p, dfs, convert).value;
      NamesFollowTypes(acc, dfs);
      if i < |sfs| - 1 {
        MatchedFieldWritten(p, dfs, convert, i, j);
        FieldStepKeeps(f, acc, dfs, convert, j);
      } else {
        UnmatchedFieldsKept(p, dfs, convert, j);
        FieldStepWrites(f, acc, dfs, convert, j);
      }
    }
  }

  /** One step of the struct walker leaves alone every field it is not
      matched with. */
  lemma FieldStepKeeps(f: Field, acc: seq<Field>, dfs: seq<Field>, convert: seq<bool>, j: nat)
    requires Names(acc) == Names(dfs) && j < |acc|
    requires FindDestField(dfs, f.name) != Some(j)
    ensures AssignField(f, acc, convert).Ok? ==> AssignField(f, acc, convert).value[j] == acc[j]
  {
    FindDestFieldSeesNames(acc, dfs, f.name);
  }

  /** One step of the struct walker writes the field it is matched with. */
  lemma FieldStepWrites(f: Field, acc: seq<Field>, dfs: seq<Field>, convert: seq<bool>, j: nat)
    requires Names(acc) == Names(dfs)
    requires FindDestField(dfs, f.name) == Some(j)
    ensures AssignField(f, acc, convert).Ok? ==>
      var r := AssignField(f, acc, convert).value;
      j < |r| && r[j].name == acc[j].name && Assign(Some(f.val), acc[j].val, convert) == Ok(r[j].val)
  {
    FindDestFieldSeesNames(acc, dfs, f.name);
  }

  lemma NamesFollowTypes(fs: seq<Field>, gs: seq<Field>)
    requires FieldTypes(fs) == FieldTypes(gs)
    ensures Names(fs) == Names(gs)
  {
    assert |fs| == |gs|;
    forall k | 0 <= k < |fs| ensures Names(fs)[k] == Names(gs)[k] {
      assert FieldTypes(fs)[k].name == FieldTypes(gs)[k].name;
    }
  }

  lemma FindDestFieldSeesNames(fs: seq<Field>, gs: seq<Field>, name: string)
    requires Names(fs) == Names(gs)
    ensures FindDestField(fs, name) == FindDestField(gs, name)
  {
    FieldByNameSeesNames(fs, gs, FieldNameFor(name));
    FieldByNameSeesNames(fs, gs, name);
  }

  // ---------------------------------------------------------------------
  // One step of each walker

  lemma FieldsStep(sfs: seq<Field>, k: nat, dfs: seq<Field>, acc: seq<Field>, convert: seq<bool>)
    requires k < |sfs| && AssignFields(sfs[..k], dfs, convert) == Ok(acc)
    ensures AssignFields(sfs[..k + 1], dfs, convert) == AssignField(sfs[k], acc, convert)
  {
    assert sfs[..k + 1][..k] == sfs[..k];
  }

  lemma FieldWrite(f: Field, acc: seq<Field>, j: nat, v: Value, convert: seq<bool>)
    requires FindDestField(acc, f.name) == Some(j)
    requires Assign(Some(f.val), acc[j].val, convert) == Ok(v)
    ensures AssignField(f, acc, convert) == Ok(acc[j := Field(acc[j].name, v)])
  {
  }

  lemma ItemsStep(xs: seq<Value>, k: nat, et: Type, ys: seq<Value>, convert: seq<bool>)
    requires k < |xs| && AssignItems(xs[..k], et, convert) == Ok(ys)
    ensures AssignItems(xs[..k + 1], et, convert) ==
      match Assign(Some(xs[k]), Fresh(et), convert)
      case Ok(y) => Ok(ys + [y])
      case Panicked(c) => Panicked(c)
  {
    assert xs[..k + 1][..k] == xs[..k];
  }

  // ---------------------------------------------------------------------
  // Where a call writes

  /** A call succeeds exactly when the dispatch at the innermost value of
      the allocated destination chain does; the chain keeps its layers, and
      that innermost value is replaced by the dispatch's result. */
  lemma AssignWritesLeaf(src: Option<Value>, dest: Value, convert: seq<bool>)
    ensures var leaf := AssignLeaf(Resolve(src), Deref(Alloc(dest)).value, convert);
      var r := Assign(src, dest, convert);
      (r.Ok? <==> leaf.Ok?) &&
      (r.Panicked? ==> r.cause == leaf.cause) &&
      (r.Ok? ==> Layers(r.value) == Layers(Alloc(dest)) && Deref(r.value) == Some(leaf.value))
  {
  }

  // ---------------------------------------------------------------------
  // Slices

  /** The elements the slice walker appends are the source elements, each
      assigned into a fresh element; the walk succeeds exactly when every
      one of these assignments does. */
  lemma ItemsPointwise(xs: seq<Value>, et: Type, convert: seq<bool>)
    ensures AssignItems(xs, et, convert).Ok? <==>
      forall i :: 0 <= i < |xs| ==> Assign(Some(xs[i]), Fresh(et), convert).Ok?
    ensures AssignItems(xs, et, convert).Ok? ==>
      forall i :: 0 <= i < |xs| ==> Assign(Some(xs[i]), Fresh(et), convert) == Ok(AssignItems(xs, et, convert).value[i])
  {
    ItemsPrefixValues(xs, |xs|, et, convert);
    ItemsPrefixOk(xs, |xs|, et, convert);
    assert xs[..|xs|] == xs;
  }

  /** A successful walk over the first k source elements appends, at each
      position, the source element assigned into a fresh element. */
  lemma {:induction false} ItemsPrefixValues(xs: seq<Value>, k: nat, et: Type, convert: seq<bool>)
    requires k <= |xs|
    ensures AssignItems(xs[..k], et, convert).Ok? ==>
      forall i :: 0 <= i < k ==> Assign(Some(xs[i]), Fresh(et), convert) == Ok(AssignItems(xs[..k], et, convert).value[i])
  {
    if k > 0 {
      var r := AssignItems(xs[..k - 1], et, convert);
      assert xs[..k][..k - 1] == xs[..k - 1];
      if r.Ok? {
        ItemsPrefixValues(xs, k - 1, et, convert);
        ItemsStep(xs, k - 1, et, r.value, convert);
      }
    }
  }

  /** The walk over the first k source elements fails exactly when one of
      their assignments does. */
  lemma {:induction false} ItemsPrefixOk(xs: seq<Value>, k: nat, et: Type, convert: seq<bool>)
    requires k <= |xs|
    ensures AssignItems(xs[..k], et, convert).Ok? <==>
      forall i :: 0 <= i < k ==> Assign(Some(xs[i]), Fresh(et), convert).Ok?
  {
    if k == 0 {
      assert xs[..0] == [];
    } else {
      ItemsPrefixOk(xs, k - 1, et, convert);
      var r := AssignItems(xs[..k - 1], et, convert);
      assert xs[..k][..k - 1] == xs[..k - 1];
      if r.Ok? {
        ItemsStep(xs, k - 1, et, r.value, convert);
      }
    }
  }

  /** assignSliceFields: an empty or nil source leaves the destination as
      it was (even a nil destination, or one that is not a slice); a
      non-empty source into a non-slice panics; otherwise the destination
      becomes a non-nil slice that keeps its prior elements and ends with
      one new element per source element, in order. */
  lemma SliceAppends(xs: seq<Value>, d: Value, convert: seq<bool>)
    ensures |xs| == 0 ==> AssignSlice(xs, d, convert) == Ok(d)
    ensures |xs| > 0 && !d.SliceV? ==> AssignSlice(xs, d, convert) == Panicked(ElemOfNonSlice)
    ensures |xs| > 0 && AssignSlice(xs, d, convert).Ok? ==>
      var r := AssignSlice(xs, d, convert).value;
      r.SliceV? && !r.isNil && r.elem == d.elem &&
      |r.items| == |d.items| + |xs| && r.items[..|d.items|] == d.items &&
      forall i :: 0 <= i < |xs| ==> Assign(Some(xs[i]), Fresh(d.elem), convert) == Ok(r.items[|d.items| + i])
    ensures |xs| > 0 && d.SliceV? ==>
      (AssignSlice(xs, d, convert).Ok? <==> forall i :: 0 <= i < |xs| ==> Assign(Some(xs[i]), Fresh(d.elem), convert).Ok?)
  {
    if |xs| > 0 && d.SliceV? {
      ItemsPointwise(xs, d.elem, convert);
      var r := AssignSlice(xs, d, convert);
      if r.Ok? {
        var ys := AssignItems(xs, d.elem, convert).value;
        assert r.value.items == d.items + ys;
        assert forall i :: 0 <= i < |xs| ==> r.value.items[|d.items| + i] == ys[i];
      }
    }
  }

  /** A fresh slice element of pointer type is one allocated layer above a
      zero value, so a pointee chain of the source deeper than that is not
      rebuilt: its remaining layers are assigned onto the zero value. */
  lemma FreshPointerElement(t: Type)
    ensures Fresh(TPtr(t)) == PtrV(t, Some(Zero(t)))
    ensures t.TPtr? ==> !Allocated(Fresh(TPtr(t)))
  {
  }

  // ---------------------------------------------------------------------
  // Scalars

  /** Without lossy mode a scalar source is copied only into a destination
      of exactly its type; every other destination is left as it was, and
      no scalar assignment panics. */
  lemma StrictScalar(s: Value, d: Value, convert: seq<bool>)
    requires !Lossy(convert)
    ensures TypeOf(s) == TypeOf(d) ==> AssignScalar(s, d, convert) == Ok(s)
    ensures TypeOf(s) != TypeOf(d) ==> AssignScalar(s, d, convert) == Ok(d)
  {
  }

  /** The lossy-mode table for scalars of different types: integers and
      booleans are rendered as text, text is parsed into `int` and `bool`
      (and an `int` result cannot be stored into a narrower integer kind),
      integers of different widths wrap around, text becomes a slice of
      runes, and a text that does not parse and every other pair leave the
      destination as it was. */
  lemma LossyScalar(s: Value, d: Value, convert: seq<bool>)
    requires Lossy(convert) && TypeOf(s) != TypeOf(d)
    requires !s.PtrV? && !s.SliceV? && !s.StructV?
    ensures s.IntV? && d.StrV? ==> AssignScalar(s, d, convert) == Ok(StrV(Itoa(s.i)))
    ensures s.BoolV? && d.StrV? ==> AssignScalar(s, d, convert) == Ok(StrV(FormatBool(s.b)))
    ensures s.StrV? && d.BoolV? ==>
      AssignScalar(s, d, convert) == Ok(if ParseBool(s.s).Some? then BoolV(ParseBool(s.s).value) else d)
    ensures s.StrV? && d.IntV? && Atoi(s.s).None? ==> AssignScalar(s, d, convert) == Ok(d)
    ensures s.StrV? && d.IntV? && Atoi(s.s).Some? ==>
      AssignScalar(s, d, convert) ==
        if d.width == Int then Ok(IntV(Int, Atoi(s.s).value)) else Panicked(SetTypeMismatch)
    ensures s.IntV? && d.IntV? ==> AssignScalar(s, d, convert) == Ok(IntV(d.width, Truncate(d.width, s.i)))
    ensures (s.BoolV? || s.IntV?) && d.BoolV? ==> AssignScalar(s, d, convert) == Ok(d)
    ensures s.BoolV? && d.IntV? ==> AssignScalar(s, d, convert) == Ok(d)
    ensures s.StrV? && d.SliceV? && d.elem == TInt(Int32) ==>
      AssignScalar(s, d, convert) == Ok(SliceV(TInt(Int32), Runes(s.s), false))
    ensures d.PtrV? || d.StructV? || (d.SliceV? && !(s.StrV? && d.elem == TInt(Int32))) ==>
      AssignScalar(s, d, convert) == Ok(d)
  {
  }

  // ---------------------------------------------------------------------
  // Values stay values Go could hold

  lemma {:induction false} DerefWellTyped(v: Value)
    requires WellTyped(v) && Allocated(v)
    ensures WellTyped(Deref(v).value)
  {
    match v
    case PtrV(_, target) => DerefWellTyped(target.value);
    case _ =>
  }

  /** Replacing the innermost value of an allocated, well-typed chain by a
      well-typed value of the same type gives a well-typed chain. */
  lemma {:induction false} WrapWellTyped(v: Value, x: Value)
    requires WellTyped(v) && Allocated(v)
    requires WellTyped(x) && TypeOf(x) == TypeOf(Deref(v).value)
    ensures WellTyped(Wrap(Layers(v), x)) && TypeOf(Wrap(Layers(v), x)) == TypeOf(v)
  {
    match v
    case PtrV(t, target) =>
      WrapWellTyped(target.value, x);
      assert Layers(v)[1..] == Layers(target.value);
    case _ =>
  }

  lemma FreshWellTyped(et: Type)
    requires ValidType(et)
    ensures WellTyped(Fresh(et))
  {
    if et.TPtr? {
      ZeroWellTyped(et.elem);
    } else {
      ZeroWellTyped(et);
    }
  }

  /** The engine never produces a value Go could not hold: integers fit
      their width, pointees and slice elements have their declared types,
      struct fields keep their names. */
  lemma {:induction false} AssignWellTyped(src: Option<Value>, dest: Value, convert: seq<bool>)
    requires src.Some? ==> WellTyped(src.value)
    requires WellTyped(dest)
    ensures Assign(src, dest, convert).Ok? ==> WellTyped(Assign(src, dest, convert).value)
    decreases OptSize(src), 3
  {
    var s := Resolve(src);
    if src.Some? && src.value.PtrV? && Allocated(src.value) {
      DerefWellTyped(src.value);
    }
    var d := if dest.PtrV? then Alloc(dest) else dest;
    AllocWellTyped(dest);
    DerefWellTyped(d);
    var leaf := AssignLeaf(s, Deref(d).value, convert);
    if leaf.Ok? {
      LeafWellTyped(s, Deref(d).value, convert);
      WrapWellTyped(d, leaf.value);
    }
  }

  lemma {:induction false} LeafWellTyped(s: Option<Value>, d: Value, convert: seq<bool>)
    requires s.Some? ==> WellTyped(s.value)
    requires WellTyped(d)
    ensures AssignLeaf(s, d, convert).Ok? ==> WellTyped(AssignLeaf(s, d, convert).value)
    decreases OptSize(s), 2
  {
    if s.Some? && s.value.StructV? {
      if d.StructV? {
        FieldsWellTyped(s.value.fields, d.fields, convert);
      }
    } else if s.Some? && s.value.SliceV? {
      SliceWellTyped(s.value.items, d, convert);
    } else if s.Some? {
      ScalarWellTyped(s.value, d, convert);
    }
  }

  lemma {:induction false} FieldsWellTyped(sfs: seq<Field>, dfs: seq<Field>, convert: seq<bool>)
    requires forall i :: 0 <= i < |sfs| ==> WellTyped(sfs[i].val)
    requires WellTyped(StructV(dfs))
    ensures AssignFields(sfs, dfs, convert).Ok? ==> WellTyped(StructV(AssignFields(sfs, dfs, convert).value))
    decreases FieldsSize(sfs), 5
  {
    if |sfs| > 0 {
      var p := sfs[..|sfs| - 1];
      FieldsWellTyped(p, dfs, convert);
      var acc := AssignFields(p, dfs, convert);
      if acc.Ok? {
        FieldWellTyped(sfs[|sfs| - 1], acc.value, convert);
      }
    }
  }

  lemma {:induction false} FieldWellTyped(f: Field, dfs: seq<Field>, convert: seq<bool>)
    requires WellTyped(f.val) && WellTyped(StructV(dfs))
    ensures AssignField(f, dfs, convert).Ok? ==> WellTyped(StructV(AssignField(f, dfs, convert).value))
    decreases Size(f.val), 4
  {
    var j := FindDestField(dfs, f.name);
    if j.Some? {
      AssignWellTyped(Some(f.val), dfs[j.value].val, convert);
      var r := AssignField(f, dfs, convert);
      if r.Ok? {
        NamesFollowTypes(r.value, dfs);
        assert forall k :: 0 <= k < |dfs| ==> r.value[k].name == Names(r.value)[k] == Names(dfs)[k];
      }
    }
  }

  lemma {:induction false} SliceWellTyped(xs: seq<Value>, d: Value, convert: seq<bool>)
    requires forall i :: 0 <= i < |xs| ==> WellTyped(xs[i])
    requires WellTyped(d)
    ensures AssignSlice(xs, d, convert).Ok? ==> WellTyped(AssignSlice(xs, d, convert).value)
    decreases ItemsSize(xs), 6
  {
    if |xs| > 0 && d.SliceV? {
      ItemsWellTyped(xs, d.elem, convert);
      var r := AssignItems(xs, d.elem, convert);
      if r.Ok? {
        var zs := d.items + r.value;
        assert forall i :: 0 <= i < |zs| ==> zs[i] == if i < |d.items| then d.items[i] else r.value[i - |d.items|];
      }
    }
  }

  lemma {:induction false} ItemsWellTyped(xs: seq<Value>, et: Type, convert: seq<bool>)
    requires forall i :: 0 <= i < |xs| ==> WellTyped(xs[i])
    requires ValidType(et)
    ensures AssignItems(xs, et, convert).Ok? ==>
      forall i :: 0 <= i < |xs| ==> WellTyped(AssignItems(xs, et, convert).value[i])
    decreases ItemsSize(xs), 5
  {
    if |xs| > 0 {
      var p := xs[..|xs| - 1];
      ItemSizeBound(xs, |xs| - 1);
      ItemsWellTyped(p, et, convert);
      FreshWellTyped(et);
      AssignWellTyped(Some(xs[|xs| - 1]), Fresh(et), convert);
    }
  }

  lemma ScalarWellTyped(s: Value, d: Value, convert: seq<bool>)
    requires WellTyped(s) && WellTyped(d)
    ensures AssignScalar(s, d, convert).Ok? ==> WellTyped(AssignScalar(s, d, convert).value)
  {
  }

  // ---------------------------------------------------------------------
  // Copying into a blank destination reproduces the source

  /** A source the engine can copy exactly: no pointer on the way is nil
      (a nil source pointer leaves an allocated zero behind), no slice is
      empty without being nil (an empty source leaves a nil destination
      nil), and no struct has both an "ID" and an "Id" field (the alias
      would swap them). */
  predicate Copyable(v: Value)
  {
    match v
    case PtrV(_, target) => target.Some? && Copyable(target.value)
    case SliceV(_, items, isNil) => (isNil || |items| > 0) && forall i :: 0 <= i < |items| ==> Copyable(items[i])
    case StructV(fs) =>
      !(HasField(fs, "ID") && HasField(fs, "Id")) && forall i :: 0 <= i < |fs| ==> Copyable(fs[i].val)
    case _ => true
  }

  /** A destination that holds nothing the engine could keep: every slice
      in it is nil, and every pointer is nil or points to a blank value.
      Scalars may hold anything, since a copy of the same type overwrites
      them. Go's zero values are blank. */
  predicate Blank(v: Value)
  {
    match v
    case PtrV(_, target) => target.Some? ==> Blank(target.value)
    case SliceV(_, _, isNil) => isNil
    case StructV(fs) => forall i :: 0 <= i < |fs| ==> Blank(fs[i].val)
    case _ => true
  }

  lemma {:induction false} ZeroBlank(t: Type)
    ensures Blank(Zero(t))
  {
    match t
    case TStruct(fts) =>
      var fs := Zero(t).fields;
      forall i | 0 <= i < |fs| ensures Blank(fs[i].val) {
        ZeroBlank(fts[i].typ);
      }
    case _ =>
  }

  lemma {:induction false} AllocBlank(v: Value)
    requires Blank(v)
    ensures Blank(Alloc(v))
  {
    match v
    case PtrV(t, None) => ZeroChainBlank(t);
    case PtrV(t, Some(x)) => AllocBlank(x);
    case _ =>
  }

  lemma {:induction false} ZeroChainBlank(t: Type)
    ensures Blank(ZeroChain(t))
  {
    if t.TPtr? {
      ZeroChainBlank(t.elem);
    } else {
      ZeroBlank(t);
    }
  }

  lemma {:induction false} DerefBlank(v: Value)
    requires Blank(v) && Allocated(v)
    ensures Blank(Deref(v).value)
  {
    match v
    case PtrV(_, target) => DerefBlank(target.value);
    case _ =>
  }

  /** The pointee types of the pointer layers of a type, outermost first. */
  function TypeLayers(t: Type): seq<Type>
  {
    if t.TPtr? then [t.elem] + TypeLayers(t.elem) else []
  }

  /** An allocated, well-typed chain is determined in shape by its type:
      its layers are those of the type, and its innermost value has the
      type's base type. */
  lemma {:induction false} ChainShape(v: Value)
    requires WellTyped(v) && Allocated(v)
    ensures Layers(v) == TypeLayers(TypeOf(v))
    ensures TypeOf(Deref(v).value) == BaseType(TypeOf(v))
  {
    match v
    case PtrV(t, target) => ChainShape(target.value);
    case _ =>
  }

  lemma FieldByNameDistinct(fs: seq<Field>, k: nat)
    requires DistinctNames(fs) && k < |fs|
    ensures FieldByName(fs, fs[k].name) == Some(k)
  {
  }

  /** FillFields into Go's zero value of the source's own type reproduces
      any copyable source exactly, in either mode. */
  lemma CopyIntoZero(a: Value, convert: seq<bool>)
    requires WellTyped(a) && Copyable(a)
    ensures Fill(Some(a), Zero(TypeOf(a)), convert) == Ok(a)
  {
    WellTypedHasValidType(a);
    ZeroWellTyped(TypeOf(a));
    ZeroBlank(TypeOf(a));
    IdentityCopy(a, Zero(TypeOf(a)), convert);
    FillIsAssign(Some(a), Zero(TypeOf(a)), convert);
  }

  /** a can be copied exactly into d: both are values Go could hold, of
      the same type, a is copyable and d is blank. */
  predicate CopyPair(a: Value, d: Value)
  {
    WellTyped(a) && Copyable(a) && WellTyped(d) && Blank(d) && TypeOf(d) == TypeOf(a)
  }

  /** Copying a value into a blank destination of the same type, in any
      mode, reproduces the value exactly. */
  lemma {:induction false} IdentityCopy(a: Value, d: Value, convert: seq<bool>)
    requires CopyPair(a, d)
    ensures Assign(Some(a), d, convert) == Ok(a)
    decreases Size(a), 3, 0
  {
    var d' := if d.PtrV? then Alloc(d) else d;
    AllocWellTyped(d);
    AllocBlank(d);
    CopyableLeaf(a);
    ChainShape(a);
    ChainShape(d');
    DerefWellTyped(a);
    DerefWellTyped(d');
    DerefBlank(d');
    IdentityLeaf(Deref(a).value, Deref(d').value, convert);
    DerefDecomposes(a);
  }

  lemma {:induction false} CopyableLeaf(v: Value)
    requires Copyable(v)
    ensures Allocated(v) && Copyable(Deref(v).value)
  {
    match v
    case PtrV(_, target) => CopyableLeaf(target.value);
    case _ =>
  }

  lemma {:induction false} IdentityLeaf(a: Value, d: Value, convert: seq<bool>)
    requires !a.PtrV? && CopyPair(a, d)
    ensures AssignLeaf(Some(a), d, convert) == Ok(a)
    decreases Size(a), 2, 0
  {
    if a.StructV? {
      IdentityStruct(a, d, convert);
    } else if a.SliceV? {
      IdentitySlice(a, d, convert);
    }
  }

  lemma {:induction false} IdentityStruct(a: Value, d: Value, convert: seq<bool>)
    requires a.StructV? && CopyPair(a, d)
    ensures AssignFields(a.fields, d.fields, convert) == Ok(a.fields)
    decreases Size(a), 1, 0
  {
    var fs, gs := a.fields, d.fields;
    IdentityFields(a, d, |fs|, convert);
    CopyFieldCount(a, d);
    assert fs[..|fs|] == fs && gs[|fs|..] == [];
    assert fs[..|fs|] + gs[|fs|..] == fs;
  }

  lemma {:induction false} IdentitySlice(a: Value, d: Value, convert: seq<bool>)
    requires a.SliceV? && CopyPair(a, d)
    ensures AssignSlice(a.items, d, convert) == Ok(a)
    decreases Size(a), 1, 0
  {
    if |a.items| > 0 {
      IdentityItems(a, convert);
      assert d.items + a.items == a.items;
    }
  }

  /** The slice walk of a copy appends exactly the source's elements. */
  lemma {:induction false} IdentityItems(a: Value, convert: seq<bool>)
    requires a.SliceV? && WellTyped(a) && Copyable(a)
    ensures AssignItems(a.items, a.elem, convert) == Ok(a.items)
    decreases Size(a), 0, 0
  {
    var xs, et := a.items, a.elem;
    FreshWellTyped(et);
    FreshBlank(et);
    forall i | 0 <= i < |xs| ensures Assign(Some(xs[i]), Fresh(et), convert) == Ok(xs[i]) {
      ItemSizeBound(xs, i);
      IdentityCopy(xs[i], Fresh(et), convert);
    }
    ItemsPointwise(xs, et, convert);
    var ys := AssignItems(xs, et, convert).value;
    assert |ys| == |xs|;
    assert forall i :: 0 <= i < |xs| ==> ys[i] == xs[i];
    assert ys == xs;
  }

  lemma FreshBlank(et: Type)
    ensures Blank(Fresh(et))
  {
    if et.TPtr? {
      ZeroBlank(et.elem);
    } else {
      ZeroBlank(et);
    }
  }

  /** The struct walk of a copy: after k source fields, the first k
      destination fields hold the source's, the rest are untouched. */
  lemma {:induction false} IdentityFields(a: Value, d: Value, k: nat, convert: seq<bool>)
    requires a.StructV? && CopyPair(a, d) && k <= |a.fields|
    ensures AssignFields(a.fields[..k], d.fields, convert) == Ok(a.fields[..k] + d.fields[k..])
    decreases Size(a), 0, k
  {
    var fs, gs := a.fields, d.fields;
    if k == 0 {
      assert fs[..0] + gs[0..] == gs;
    } else {
      var i := k - 1;
      IdentityFields(a, d, i, convert);
      var acc := fs[..i] + gs[i..];
      CopyFieldIndex(a, d, i);
      FieldSizeBound(fs, i);
      CopyFieldPair(a, d, i);
      IdentityCopy(fs[i].val, gs[i].val, convert);
      FieldsStep(fs, i, gs, acc, convert);
      CopyFieldStep(fs, gs, i);
      FieldWrite(fs[i], acc, i, fs[i].val, convert);
    }
  }

  lemma CopyFieldCount(a: Value, d: Value)
    requires a.StructV? && CopyPair(a, d)
    ensures d.StructV? && |d.fields| == |a.fields|
  {
    assert |FieldTypes(d.fields)| == |FieldTypes(a.fields)|;
  }

  /** Corresponding fields of a copy pair form a copy pair. */
  lemma CopyFieldPair(a: Value, d: Value, i: nat)
    requires a.StructV? && CopyPair(a, d) && i < |a.fields|
    ensures i < |d.fields| && CopyPair(a.fields[i].val, d.fields[i].val)
    ensures d.fields[i].name == a.fields[i].name
  {
    assert FieldTypes(d.fields)[i] == FieldTypes(a.fields)[i];
  }

  /** During the struct walk of a copy, the i-th source field is written to
      the i-th destination field. */
  lemma CopyFieldIndex(a: Value, d: Value, i: nat)
    requires a.StructV? && CopyPair(a, d) && i < |a.fields|
    ensures i < |d.fields|
    ensures FindDestField(a.fields[..i] + d.fields[i..], a.fields[i].name) == Some(i)
  {
    var fs, gs := a.fields, d.fields;
    NamesFollowTypes(gs, fs);
    var acc := fs[..i] + gs[i..];
    assert Names(acc) == Names(fs) by {
      forall n | 0 <= n < |fs| ensures Names(acc)[n] == Names(fs)[n] {
        assert Names(gs)[n] == Names(fs)[n];
      }
    }
    FindDestFieldSeesNames(acc, fs, fs[i].name);
    FieldByNameDistinct(fs, i);
    if FieldNameFor(fs[i].name) != fs[i].name {
      assert !HasField(fs, FieldNameFor(fs[i].name));
    }
  }

  lemma CopyFieldStep(fs: seq<Field>, gs: seq<Field>, i: nat)
    requires i < |fs| && i < |gs| && gs[i].name == fs[i].name
    ensures (fs[..i] + gs[i..])[i := Field((fs[..i] + gs[i..])[i].name, fs[i].val)] == fs[..i + 1] + gs[i + 1..]
  {
    assert fs[i] == Field(fs[i].name, fs[i].val);
  }
}
