/** Reduced versions of scenarios from lib_test.go, stated as facts about
    FillFields on concrete values: each keeps only the fields it checks. */
module Scenarios {
  import opened Reflect
  import opened Strconv
  import opened Pointers
  import opened Semantics
  import opened Properties

  // How the engine unfolds on a struct and on plain values.

  lemma FillStruct(sfs: seq<Field>, dfs: seq<Field>, convert: seq<bool>)
    ensures var r := AssignFields(sfs, dfs, convert);
      Fill(Some(StructV(sfs)), StructV(dfs), convert) == if r.Ok? then Ok(StructV(r.value)) else Panicked(r.cause)
  {
    FillIsAssign(Some(StructV(sfs)), StructV(dfs), convert);
  }

  lemma AssignPlain(s: Value, d: Value, convert: seq<bool>)
    requires !s.PtrV? && !d.PtrV?
    ensures Assign(Some(s), d, convert) == AssignLeaf(Some(s), d, convert)
  {
  }

  lemma OneField(f: Field, dfs: seq<Field>, convert: seq<bool>)
    ensures AssignFields([f], dfs, convert) == AssignField(f, dfs, convert)
  {
    assert [f][..0] == [];
  }

  lemma TwoFields(f: Field, g: Field, dfs: seq<Field>, convert: seq<bool>)
    ensures var r := AssignField(f, dfs, convert);
      AssignFields([f, g], dfs, convert) == if r.Ok? then AssignField(g, r.value, convert) else r
  {
    assert [f, g][..1] == [f];
    OneField(f, dfs, convert);
  }

  /** A one-field walk whose field is matched with the first destination
      field writes the assignment's result there. */
  lemma WriteFirst(f: Field, dfs: seq<Field>, convert: seq<bool>)
    requires FindDestField(dfs, f.name) == Some(0)
    ensures var r := Assign(Some(f.val), dfs[0].val, convert);
      AssignField(f, dfs, convert) == if r.Ok? then Ok(dfs[0 := Field(dfs[0].name, r.value)]) else Panicked(r.cause)
  {
  }

  lemma PlainScalar(s: Value, d: Value, convert: seq<bool>)
    requires s.IntV? || s.StrV? || s.BoolV?
    requires !d.PtrV?
    ensures Assign(Some(s), d, convert) == AssignScalar(s, d, convert)
  {
    AssignPlain(s, d, convert);
  }

  /** A source "ID" lands in a destination "Id"; a source field the
      destination lacks is skipped. */
  lemma UnmatchedSourceFieldSkipped()
    ensures Fill(Some(StructV([Field("ID", IntV(Int, 1)), Field("Extra", StrV("extra"))])),
                 StructV([Field("Id", IntV(Int, 0))]), [])
         == Ok(StructV([Field("Id", IntV(Int, 1))]))
  {
    var f, g := Field("ID", IntV(Int, 1)), Field("Extra", StrV("extra"));
    var dfs := [Field("Id", IntV(Int, 0))];
    var acc := [Field("Id", IntV(Int, 1))];
    FillStruct([f, g], dfs, []);
    TwoFields(f, g, dfs, []);
    assert FieldNameFor("ID") == "Id";
    assert FindDestField(dfs, "ID") == Some(0);
    PlainScalar(f.val, dfs[0].val, []);
    StrictScalar(f.val, dfs[0].val, []);
    WriteFirst(f, dfs, []);
    assert dfs[0 := Field("Id", IntV(Int, 1))] == acc;
    assert FindDestField(acc, "Extra") == None;
  }

  /** A field named "UniqueID" does not reach a destination "Id". */
  lemma DifferentNameNotCopied()
    ensures Fill(Some(StructV([Field("UniqueID", IntV(Int, 99))])), StructV([Field("Id", IntV(Int, 0))]), [])
         == Ok(StructV([Field("Id", IntV(Int, 0))]))
  {
    var f := Field("UniqueID", IntV(Int, 99));
    var dfs := [Field("Id", IntV(Int, 0))];
    FillStruct([f], dfs, []);
    OneField(f, dfs, []);
    assert FindDestField(dfs, "UniqueID") == None;
  }

  /** The alias wins: a source "ID" goes to "Id" even when the destination
      also has an "ID", which is left alone. */
  lemma AliasTakesPriority()
    ensures Fill(Some(StructV([Field("ID", IntV(Int, 7))])),
                 StructV([Field("ID", IntV(Int, 0)), Field("Id", IntV(Int, 0))]), [])
         == Ok(StructV([Field("ID", IntV(Int, 0)), Field("Id", IntV(Int, 7))]))
  {
    var f := Field("ID", IntV(Int, 7));
    var dfs := [Field("ID", IntV(Int, 0)), Field("Id", IntV(Int, 0))];
    FillStruct([f], dfs, []);
    OneField(f, dfs, []);
    assert FieldNameFor("ID") == "Id";
    assert FindDestField(dfs, "ID") == Some(1);
    PlainScalar(f.val, dfs[1].val, []);
    StrictScalar(f.val, dfs[1].val, []);
    FieldWrite(f, dfs, 1, f.val, []);
    assert dfs[1 := Field("Id", IntV(Int, 7))] == [Field("ID", IntV(Int, 0)), Field("Id", IntV(Int, 7))];
  }

  /** A nil **int source leaves an existing **int destination holding 42. */
  lemma NilDoublePointerKeepsValue()
    ensures var dest := StructV([Field("ID", PtrV(TPtr(TInt(Int)), Some(PtrV(TInt(Int), Some(IntV(Int, 42))))))]);
      Fill(Some(StructV([Field("ID", PtrV(TPtr(TInt(Int)), None))])), dest, []) == Ok(dest)
  {
    var f := Field("ID", PtrV(TPtr(TInt(Int)), None));
    var dfs := [Field("ID", PtrV(TPtr(TInt(Int)), Some(PtrV(TInt(Int), Some(IntV(Int, 42))))))];
    FillStruct([f], dfs, []);
    OneField(f, dfs, []);
    assert FindDestField(dfs, "ID") == Some(0);
    assert Allocated(dfs[0].val);
    AbsentSourceOnlyAllocates(Some(f.val), dfs[0].val, []);
    WriteFirst(f, dfs, []);
    assert dfs[0 := Field("ID", dfs[0].val)] == dfs;
  }

  /** A nil *Address source still allocates the destination's Addr, which
      then holds the zero Address. */
  lemma NilPointerAllocatesZero()
    ensures var addr := TStruct([FieldType("Street", TString), FieldType("City", TString)]);
      Fill(Some(StructV([Field("Addr", PtrV(addr, None))])), StructV([Field("Addr", PtrV(addr, None))]), [])
      == Ok(StructV([Field("Addr", PtrV(addr, Some(StructV([Field("Street", StrV("")), Field("City", StrV(""))]))))]))
  {
    var addr := TStruct([FieldType("Street", TString), FieldType("City", TString)]);
    var f := Field("Addr", PtrV(addr, None));
    var dfs := [f];
    FillStruct([f], dfs, []);
    OneField(f, dfs, []);
    assert FindDestField(dfs, "Addr") == Some(0);
    AbsentSourceOnlyAllocates(Some(f.val), dfs[0].val, []);
    var zero := StructV([Field("Street", StrV("")), Field("City", StrV(""))]);
    assert Zero(addr) == zero;
    assert Alloc(f.val) == PtrV(addr, Some(zero));
    WriteFirst(f, dfs, []);
    assert dfs[0 := Field("Addr", PtrV(addr, Some(zero)))] == [Field("Addr", PtrV(addr, Some(zero)))];
  }

  /** The skipped test: an absent **NestedStruct source allocates both
      layers of the destination's Addr, but the fields of the new struct
      stay nil pointers, since the walk does not descend into them. */
  lemma AbsentSourceDoesNotDescend()
    ensures var nested := TStruct([FieldType("City", TPtr(TPtr(TString)))]);
      Fill(Some(StructV([Field("Addr", PtrV(TPtr(nested), None))])), StructV([Field("Addr", PtrV(TPtr(nested), None))]), [])
      == Ok(StructV([Field("Addr", PtrV(TPtr(nested), Some(PtrV(nested, Some(StructV([Field("City", PtrV(TPtr(TString), None))]))))))]))
  {
    var nested := TStruct([FieldType("City", TPtr(TPtr(TString)))]);
    var f := Field("Addr", PtrV(TPtr(nested), None));
    var dfs := [f];
    FillStruct([f], dfs, []);
    OneField(f, dfs, []);
    assert FindDestField(dfs, "Addr") == Some(0);
    AbsentSourceOnlyAllocates(Some(f.val), dfs[0].val, []);
    var zero := StructV([Field("City", PtrV(TPtr(TString), None))]);
    assert Zero(nested) == zero;
    var addrChain := PtrV(TPtr(nested), Some(PtrV(nested, Some(zero))));
    assert Alloc(f.val) == addrChain;
    WriteFirst(f, dfs, []);
    assert dfs[0 := Field("Addr", addrChain)] == [Field("Addr", addrChain)];
  }

  /** In lossy mode an int becomes its decimal text. */
  lemma IntToStringWhenLossy()
    ensures Fill(Some(StructV([Field("ID", IntV(Int, 42))])), StructV([Field("ID", StrV(""))]), [true])
         == Ok(StructV([Field("ID", StrV("42"))]))
  {
    var f := Field("ID", IntV(Int, 42));
    var dfs := [Field("ID", StrV(""))];
    FillStruct([f], dfs, [true]);
    OneField(f, dfs, [true]);
    assert FieldNameFor("ID") == "Id";
    assert FindDestField(dfs, "ID") == Some(0);
    PlainScalar(f.val, dfs[0].val, [true]);
    LossyScalar(f.val, dfs[0].val, [true]);
    assert Itoa(42) == "42" by {
      assert NatDigits(42) == NatDigits(4) + [DigitChar(2)];
    }
    WriteFirst(f, dfs, [true]);
    assert dfs[0 := Field("ID", StrV("42"))] == [Field("ID", StrV("42"))];
  }

  /** Without lossy mode an int does not reach a string destination, which
      is left as it was. */
  lemma IntToStringNotWhenStrict()
    ensures Fill(Some(StructV([Field("ID", IntV(Int, 42))])), StructV([Field("ID", StrV(""))]), [])
         == Ok(StructV([Field("ID", StrV(""))]))
  {
    var f := Field("ID", IntV(Int, 42));
    var dfs := [Field("ID", StrV(""))];
    FillStruct([f], dfs, []);
    OneField(f, dfs, []);
    assert FieldNameFor("ID") == "Id";
    assert FindDestField(dfs, "ID") == Some(0);
    PlainScalar(f.val, dfs[0].val, []);
    StrictScalar(f.val, dfs[0].val, []);
    WriteFirst(f, dfs, []);
    assert dfs[0 := Field("ID", StrV(""))] == dfs;
  }

  /** In lossy mode a bool becomes "true" or "false". */
  lemma BoolToString()
    ensures Fill(Some(StructV([Field("IsActive", BoolV(true))])), StructV([Field("IsActive", StrV(""))]), [true])
         == Ok(StructV([Field("IsActive", StrV("true"))]))
  {
    var f := Field("IsActive", BoolV(true));
    var dfs := [Field("IsActive", StrV(""))];
    FillStruct([f], dfs, [true]);
    OneField(f, dfs, [true]);
    assert FieldNameFor("IsActive") == "IsActive";
    assert FindDestField(dfs, "IsActive") == Some(0);
    PlainScalar(f.val, dfs[0].val, [true]);
    LossyScalar(f.val, dfs[0].val, [true]);
    WriteFirst(f, dfs, [true]);
    assert dfs[0 := Field("IsActive", StrV("true"))] == [Field("IsActive", StrV("true"))];
  }

  /** In lossy mode a parsed text is an int, which cannot be stored into an
      int8 field: the call panics. */
  lemma StringIntoInt8Panics()
    ensures Fill(Some(StructV([Field("N", StrV("5"))])), StructV([Field("N", IntV(Int8, 0))]), [true])
         == Panicked(SetTypeMismatch)
  {
    var f := Field("N", StrV("5"));
    var dfs := [Field("N", IntV(Int8, 0))];
    FillStruct([f], dfs, [true]);
    OneField(f, dfs, [true]);
    assert FindDestField(dfs, "N") == Some(0);
    PlainScalar(f.val, dfs[0].val, [true]);
    assert "5"[..0] == "";
    assert Atoi("5") == Some(5);
    LossyScalar(f.val, dfs[0].val, [true]);
    WriteFirst(f, dfs, [true]);
  }

  /** A slice of strings is copied into a nil slice. */
  lemma SliceCopied()
    ensures var tags := [StrV("go"), StrV("programming")];
      Fill(Some(StructV([Field("Tags", SliceV(TString, tags, false))])), StructV([Field("Tags", SliceV(TString, [], true))]), [])
      == Ok(StructV([Field("Tags", SliceV(TString, tags, false))]))
  {
    var tags := [StrV("go"), StrV("programming")];
    var src := StructV([Field("Tags", SliceV(TString, tags, false))]);
    var dest := StructV([Field("Tags", SliceV(TString, [], true))]);
    assert Copyable(src) by {
      assert !HasField(src.fields, "ID");
    }
    assert WellTyped(src) && WellTyped(dest) && Blank(dest);
    IdentityCopy(src, dest, []);
    FillIsAssign(Some(src), dest, []);
  }

  /** A nil source slice leaves a nil destination nil. */
  lemma NilSliceStaysNil()
    ensures var dest := StructV([Field("Tags", SliceV(TString, [], true))]);
      Fill(Some(dest), dest, []) == Ok(dest)
  {
    var dest := StructV([Field("Tags", SliceV(TString, [], true))]);
    assert Copyable(dest) by {
      assert !HasField(dest.fields, "ID");
    }
    assert WellTyped(dest) && Blank(dest);
    IdentityCopy(dest, dest, []);
    FillIsAssign(Some(dest), dest, []);
  }
}
