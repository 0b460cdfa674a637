/** The assignment engine of lib.go as the step-by-step procedure it is: the
    struct and slice walkers loop over the source, the dispatcher resolves
    both pointer chains with the helpers of module Pointers, and every write
    is the replacement of one part of the destination. Each method computes
    exactly the result its counterpart in module Semantics describes. */
module TypeJuggle {
  import opened Reflect
  import opened Pointers
  import opened Conversion
  import opened Semantics

  /** FillFields: assignRecursive on the source and a pointer to the destination. */
  method FillFields(src: Option<Value>, dest: Value, convert: seq<bool>) returns (r: Result<Value>)
    ensures r == Fill(src, dest, convert)
  {
    var res := AssignRecursive(src, PtrV(TypeOf(dest), Some(dest)), convert);
    match res
    case Ok(p) => r := Ok(p.target.value);
    case Panicked(c) => r := Panicked(c);
  }

  /** assignRecursive. */
  method AssignRecursive(src: Option<Value>, dest: Value, convert: seq<bool>) returns (r: Result<Value>)
    ensures r == Assign(src, dest, convert)
    decreases OptSize(src), 3
  {
    var s := src;
    if s.Some? && s.value.PtrV? {
      s := DeepDereference(s.value);
    }
    var layers: seq<Type> := [];
    var d := dest;
    if dest.PtrV? {
      layers, d := DeepAllocate(dest);
    } else {
      assert Layers(dest) == [] && Deref(dest) == Some(dest);
    }

    var leaf: Result<Value>;
    if s.Some? && s.value.StructV? {
      if d.StructV? {
        var fr := AssignStructFieldsRecursive(s.value.fields, d.fields, convert);
        leaf := if fr.Ok? then Ok(StructV(fr.value)) else Panicked(fr.cause);
      } else {
        leaf := Ok(d);
      }
    } else if s.Some? && s.value.SliceV? {
      leaf := AssignSliceFields(s.value.items, d, convert);
    } else if s.Some? {
      leaf := AssignScalar(s.value, d, convert);
    } else {
      leaf := Ok(d);
    }
    assert leaf == AssignLeaf(s, d, convert);

    r := if leaf.Ok? then Ok(Wrap(layers, leaf.value)) else Panicked(leaf.cause);
  }

  /** assignSliceFields: for each source element in order, a fresh
      destination element is filled and appended to the destination. */
  method AssignSliceFields(xs: seq<Value>, d: Value, convert: seq<bool>) returns (r: Result<Value>)
    ensures r == AssignSlice(xs, d, convert)
    decreases ItemsSize(xs), 6
  {
    var cur := d;
    var i := 0;
    assert xs[..0] == [];
    while i < |xs|
      invariant 0 <= i <= |xs|
      invariant AssignSlice(xs[..i], d, convert) == Ok(cur)
    {
      SliceExtend(xs, i, d, cur, convert);
      if !cur.SliceV? {
        // destVal.Type().Elem() of a value that is not a slice
        SlicePanicSticks(xs, i + 1, d, convert);
        return Panicked(ElemOfNonSlice);
      }
      var et := cur.elem;
      var elem := Fresh(et);
      ItemSizeBound(xs, i);
      var res := AssignRecursive(Some(xs[i]), elem, convert);
      if res.Panicked? {
        SlicePanicSticks(xs, i + 1, d, convert);
        return Panicked(res.cause);
      }
      cur := SliceV(et, cur.items + [res.value], false);
      i := i + 1;
    }
    assert xs[..i] == xs;
    r := Ok(cur);
  }

  /** assignStructFieldsRecursive: for each source field in order, the
      destination field under the aliased name, else under the original
      name, receives the field's value. */
  method AssignStructFieldsRecursive(sfs: seq<Field>, dfs: seq<Field>, convert: seq<bool>)
    returns (r: Result<seq<Field>>)
    ensures r == AssignFields(sfs, dfs, convert)
    decreases FieldsSize(sfs), 5
  {
    var acc := dfs;
    var i := 0;
    while i < |sfs|
      invariant 0 <= i <= |sfs|
      invariant AssignFields(sfs[..i], dfs, convert) == Ok(acc)
    {
      var f := sfs[i];
      assert sfs[..i + 1][..i] == sfs[..i];
      var j := FieldByName(acc, FieldNameFor(f.name));
      if j.None? {
        j := FieldByName(acc, f.name);
      }
      if j.Some? {
        FieldSizeBound(sfs, i);
        var res := AssignRecursive(Some(f.val), acc[j.value].val, convert);
        if res.Panicked? {
          FieldsPanicSticks(sfs, i + 1, dfs, convert);
          return Panicked(res.cause);
        }
        acc := acc[j.value := Field(acc[j.value].name, res.value)];
      } else if InvalidDestPanics(f.val) {
        FieldsPanicSticks(sfs, i + 1, dfs, convert);
        return Panicked(ElemOfNonSlice);
      }
      i := i + 1;
    }
    assert sfs[..i] == sfs;
    r := Ok(acc);
  }
}
