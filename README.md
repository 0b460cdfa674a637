# typejuggle in Dafny

typejuggle copies a source value into a destination of a possibly different
type, using reflection. `FillFields(src, &dest, convert...)` walks the source:

- A struct source matches its fields to destination fields by name. The name
  "ID" is looked up as "Id" and vice versa. The original name is tried only
  when the alias names no field.
- A slice source appends one freshly built element per source element.
- A scalar source is stored when the types agree. In lossy mode
  (`convert[0] == true`), a few text conversions are tried first
  (int↔string, bool↔string), then Go's generic conversion.
- Pointer chains are followed on the source side (`deepDereference`).
- Pointer chains are allocated on the destination side (`deepAllocate`).

## The model

Go values are closed datatypes (module `Reflect`):

- `Type` is `TInt(width) | TString | TBool | TPtr | TSlice | TStruct`.
- `Value` is `IntV | StrV | BoolV | PtrV | SliceV | StructV`.
- An invalid `reflect.Value` (the Elem of a nil pointer, a missing field) is
  `None` in an `Option<Value>`.
- A slice records whether it is nil.

Every write of the engine replaces part of the destination. A call therefore
maps the prior destination value to a new destination value. A Go panic that
the engine can reach becomes an outcome, `Panicked(cause)`, of the
`Result<Value>` it returns:

- `ElemOfNonSlice`: a non-empty source slice meets a destination that is no
  slice, or that is invalid.
- `SetTypeMismatch`: the `int` produced by `strconv.Atoi` is Set into an
  `int8`/`int16`/`int32`/`int64` field.

The model has two layers:

- `Semantics` holds the recursive functions that define what each step computes.
- `TypeJuggle` holds the loops and the dispatcher of lib.go as methods with
  `while` loops. Each is proved to compute exactly its `Semantics` function.
- `Pointers` holds `deepDereference` and `deepAllocate` as `while` loops.
  They are proved to compute exactly the chain functions `Deref` and
  `Alloc` of the same module.

`Strconv` models `Itoa`, `Atoi` (64-bit `int`), `FormatBool` and `ParseBool`.
`Conversion` holds the conversion table and the generic `Convert`:

- integer to integer, wrapping in two's complement;
- string to `[]rune`, one code point per character.

`Properties` states what the engine guarantees. `Scenarios` holds reduced
versions of scenarios from lib_test.go, on concrete values. Most keep only
the one or two fields a scenario checks, not the test's whole structs.

## Model

| member | source | states |
|---|---|---|
| `TypeJuggle.FillFields` | lib.go:9-11 | the result is the engine run on a fresh non-nil pointer to the destination, read back through that pointer |
| `TypeJuggle.AssignRecursive` | lib.go:13-39 | the imperative dispatcher (dereference, allocate, then struct/slice/scalar branch) computes exactly `Semantics.Assign` |
| `TypeJuggle.AssignSliceFields` | lib.go:41-55 | the element loop, with its panic exits, computes exactly `Semantics.AssignSlice`; invariant: the prefix walked so far equals the spec on that prefix |
| `TypeJuggle.AssignStructFieldsRecursive` | lib.go:57-80 | the field loop (alias lookup, then the original name, then assignment or the missing-field case) computes exactly `Semantics.AssignFields` |
| `Pointers.DeepDereference` | lib.go:82-92 | following `Elem` while the value is a pointer yields `Deref(ptr)`: the innermost non-pointer, or invalid when a layer is nil |
| `Pointers.DeepAllocate` | lib.go:94-107 | the layers passed and the value reached: re-wrapped they are `Alloc(ptr)`, and the value is the innermost value of that allocated chain |
| `Pointers.Deref` | lib.go:87-89 | the result is valid exactly when no layer is nil; then it is not a pointer and is no larger than the chain |
| `Pointers.Alloc` | lib.go:99-104 | the allocated chain has no nil layer, keeps the type, keeps a chain that was already allocated, and extends the original list of layers |
| `Pointers.ZeroChain` | lib.go:101 | `reflect.New` taken all the way down has the requested type, no nil layer, and the zero value of the base type at the bottom |
| `Pointers.DerefDecomposes` | lib.go:87-89 | an allocated chain is exactly its layers wrapped around its innermost value |
| `Pointers.AllocLeaf` | lib.go:99-106 | after allocation, the innermost value is the old one when no layer was nil, otherwise the zero value of the base type |
| `Pointers.ZeroChainIsAllocatedZero` | lib.go:100-103 | allocating one nil layer and walking on equals `reflect.New` followed all the way down |
| `Pointers.AllocWellTyped` | lib.go:99-104 | allocation keeps a chain well typed |
| `Reflect.FieldByName` | lib.go:72-75 | `FieldByName` gives the first field with the name, and is invalid exactly when no field has it |
| `Reflect.ZeroWellTyped` | lib.go:47-49 | the zero value `reflect.New(t).Elem()` of a valid type is well typed at that type |
| `Semantics.FindDestField` | lib.go:62-76 | the destination field under the aliased name when one exists; otherwise the one under the original name; invalid exactly when neither exists |
| `Semantics.Resolve` | lib.go:14-16 | a non-pointer source is taken as it is; a pointer source is valid after resolution exactly when no layer is nil, and is then the innermost non-pointer of its chain, which the chain's layers wrap back to the source |
| `Semantics.FieldNameFor` | lib.go:62-69 | the lookup name differs from the field's name exactly for "ID" and "Id", which swap; lengths are kept |
| `Semantics.Lossy` | lib.go:31 | lossy mode means at least one flag, the first being true; without lossy mode there is no flag or the first is false |
| `Semantics.InvalidDestPanics` | lib.go:46 | a missing destination field panics exactly for a source that is, or resolves through an allocated chain to, a non-empty slice |
| `Semantics.Fresh` | lib.go:46-50 | the element the slice walker creates always has the slice's element type |
| `Semantics.Assign` | lib.go:13-39 | a successful call keeps the destination's type, and leaves a chain with no nil layer whose layers are those `deepAllocate` produces |
| `Semantics.AssignLeaf` | lib.go:22-38 | the dispatch on the resolved source keeps the innermost destination's type |
| `Semantics.AssignFields` | lib.go:57-80 | the struct walker keeps the destination's field names and types |
| `Semantics.AssignField` | lib.go:59-78 | one field step keeps the destination's field names and types |
| `Semantics.AssignSlice` | lib.go:41-55 | the slice walker keeps the destination's type |
| `Semantics.AssignItems` | lib.go:42-53 | one new element per source element, each of the slice's element type |
| `Semantics.AssignScalar` | lib.go:28-38 | the scalar branch keeps the destination's type; it panics only in lossy mode, and then only by a Set type mismatch |
| `Semantics.FieldsPanicSticks` | lib.go:58-78 | a panic on a prefix of the source fields is the outcome of the whole walk |
| `Semantics.ItemsPanicSticks` | lib.go:42-53 | a panic on a prefix of the source elements is the outcome of the whole element walk |
| `Semantics.SlicePanicSticks` | lib.go:42-53 | a panic on a prefix of the source elements is the outcome of the whole slice walk |
| `Semantics.SliceExtend` | lib.go:46-53 | one more iteration panics on a non-slice destination; otherwise it appends the next element, assigned into a fresh element |
| `Properties.FillIsAssign` | lib.go:9-11 | `FillFields` gives the same outcome as the engine run on the destination value itself |
| `Properties.AbsentSourceOnlyAllocates` | lib.go:14-20 | a missing source, or one behind a nil pointer, only allocates the destination's chain; an allocated destination is left unchanged |
| `Properties.PointerSourceTransparent` | lib.go:14-16 | a source behind an allocated pointer chain is assigned exactly as its innermost value would be |
| `Properties.LossyFirstFlagOnly` | lib.go:31 | flags after the first never change the mode |
| `Properties.StructIntoNonStruct` | lib.go:22-25 | a struct source meeting a non-struct destination only allocates the destination |
| `Properties.AliasSwapsOnce` | lib.go:62-69 | "ID" and "Id" swap, every other name maps to itself, and the alias is its own inverse |
| `Properties.UnmatchedFieldsKept` | lib.go:57-80 | a destination field that no source field is matched with keeps its value, and no field name changes |
| `Properties.MatchedFieldWritten` | lib.go:72-78 | a destination field matched with exactly one source field keeps its name and holds that field's value assigned into its old value |
| `Properties.FieldStepKeeps` | lib.go:72-78 | one field step leaves every destination field it is not matched with unchanged |
| `Properties.FieldStepWrites` | lib.go:72-78 | one field step writes the assignment's result into the destination field it is matched with |
| `Properties.AssignWritesLeaf` | lib.go:13-39 | a call succeeds exactly when the dispatch on the innermost destination succeeds; the result has the allocated layers wrapped around the dispatch's result |
| `Properties.ItemsPointwise` | lib.go:42-53 | the elements are built without a panic exactly when every element's assignment has none; element i is source element i assigned into a fresh element |
| `Properties.SliceAppends` | lib.go:41-55 | an empty source leaves the destination alone; otherwise a non-slice panics. Else the result is non-nil, keeps the old items as a prefix, grows by the source length, and holds the assigned elements after the old ones, with no panic exactly when no element panics |
| `Properties.FreshPointerElement` | lib.go:46-47 | a pointer element type gets exactly one allocated layer; a pointer-to-pointer element keeps its inner layer nil |
| `Properties.StrictScalar` | lib.go:28-31 | without lossy mode, a scalar is stored exactly when the types agree; otherwise the destination is left alone |
| `Properties.LossyScalar` | lib.go:31-36 | the lossy table in full: int→decimal text; bool→"true"/"false"; text→bool when it parses; text→`int` when it parses, panicking for other int widths; int→int wrapping; text→`[]rune`; every other pair unchanged |
| `Properties.AssignWellTyped` | lib.go:13-39 | well-typed inputs yield a well-typed result |
| `Properties.ScalarWellTyped` | lib.go:28-38 | the scalar branch yields a well-typed value from well-typed inputs |
| `Properties.CopyIntoZero` | lib.go:9-11 | filling the zero value of a type from a well-typed value returns that value, provided it has no nil pointer, no empty non-nil slice and no struct with both "ID" and "Id" |
| `Properties.IdentityCopy` | lib.go:13-39 | assignment of such a value into a blank destination of its type yields the value itself |
| `Properties.IdentityLeaf` | lib.go:22-38 | the same for the dispatch on a non-pointer |
| `Properties.IdentityFields` | lib.go:57-80 | after k source fields, the first k destination fields hold the source's and the rest are untouched |
| `Properties.IdentitySlice` | lib.go:41-55 | a slice copied into a blank slice of its type is reproduced |
| `Properties.IdentityItems` | lib.go:42-53 | each element copied into a fresh element is reproduced |
| `Strconv.Itoa` | lib.go:114 | the canonical decimal text: '-' exactly for negatives, then digits without a leading zero (unless the number is 0) whose value is the number's magnitude |
| `Strconv.Atoi` | lib.go:122 | a parsed value always lies in the 64-bit range |
| `Strconv.AtoiItoa` | lib.go:114-123 | every 64-bit integer reads back from its decimal text |
| `Strconv.AtoiAcceptsSignAndLeadingZeros` | lib.go:122 | `Atoi` accepts a sign and leading zeros, and rejects the empty text, a bare sign and stray characters |
| `Strconv.AtoiRangeUnsigned` | lib.go:122 | an unsigned digit string parses exactly when its value is below 2^63 |
| `Strconv.AtoiRangePlus` | lib.go:122 | a '+' in front of a digit string changes nothing |
| `Strconv.AtoiRejects` | lib.go:122-125 | the empty text, a bare sign, a first character that is neither sign nor digit, and any non-digit after the first character are rejected |
| `Strconv.AtoiRangeNegative` | lib.go:122 | a negative digit string parses exactly when its magnitude is at most 2^63 |
| `Strconv.FormatBool` | lib.go:137 | the text `ParseBool` reads back as the same bool |
| `Strconv.ParseBool` | lib.go:127 | accepted texts have 1, 4 or 5 characters, and mean true exactly when they start with '1', 't' or 'T'; "1" and "0" are accepted |
| `Conversion.ConvertibleTo` | lib.go:34 | only integer and string sources convert; every integer width converts to every other; text never converts to an integer, and a bool to nothing |
| `Conversion.SpecialConversion` | lib.go:109-145 | a result exists only for string, bool and integer destination kinds; text results are strings, bool results bools, integer results 64-bit `int`s |
| `Conversion.IntTextRoundTrip` | lib.go:111-123 | an integer of any width becomes its decimal text, and that text becomes the same `int` again |
| `Conversion.BoolTextRoundTrip` | lib.go:126-138 | a bool becomes "true"/"false", and that text becomes the same bool again |
| `Conversion.TextParseFailure` | lib.go:122-130 | text that `Atoi` or `ParseBool` rejects has no special conversion |
| `Conversion.Truncate` | lib.go:34-35 | the converted integer lies in the target width and is congruent to the source modulo 2^width; it is the source itself when that fits |
| `Conversion.Convert` | lib.go:34-35 | the converted value is well typed at the target type; an integer that fits is unchanged; text becomes a non-nil `[]rune` of its code points |
| `Conversion.Runes` | lib.go:34-35 | one `int32` code point per character, each in range |
| `Conversion.ConvertWrapsAround` | lib.go:31-35 | 200 becomes -56 and -129 becomes 127 in an `int8`, the overflow the source warns about |
| `Scenarios.UnmatchedSourceFieldSkipped` | lib_test.go:109-125 | source "ID" fills destination "Id", and the source's extra field is skipped |
| `Scenarios.DifferentNameNotCopied` | lib_test.go:127-142 | "UniqueID" does not reach "Id" |
| `Scenarios.AliasTakesPriority` | lib.go:62-76 | source "ID" goes to "Id" even when the destination also has "ID" |
| `Scenarios.NilDoublePointerKeepsValue` | lib_test.go:314-327 | a nil `**int` source leaves the destination's `**int` pointing at 42 |
| `Scenarios.NilPointerAllocatesZero` | lib_test.go:62-71 | a nil `*Address` source leaves the destination's Addr allocated with empty Street and City |
| `Scenarios.AbsentSourceDoesNotDescend` | lib_test.go:459-469 | in the skipped test, a nil `**Nested` source allocates both destination layers, and the new struct's pointer fields stay nil |
| `Scenarios.IntToStringWhenLossy` | lib_test.go:73-88 | in lossy mode, 42 becomes "42" |
| `Scenarios.IntToStringNotWhenStrict` | lib.go:28-31 | without lossy mode, 42 leaves a string destination empty |
| `Scenarios.BoolToString` | lib_test.go:235-250 | in lossy mode, true becomes "true" |
| `Scenarios.StringIntoInt8Panics` | lib.go:31-33 | in lossy mode, "5" into an `int8` field panics with a Set type mismatch |
| `Scenarios.SliceCopied` | lib_test.go:218-233 | a `[]string` is copied into a nil destination slice |
| `Scenarios.NilSliceStaysNil` | lib_test.go:161-170 | a nil source slice leaves a nil destination slice nil |

## Left out

- Floating point: the generic conversion between integers and floats is left out, and with it the int→float64 scenario (lib_test.go:183-198).
- Unsigned integers, `[]byte`, arrays, maps, channels, interfaces, funcs: these are not in the value model. The `Elem()` and `Convert` cases they would reach are not modelled.
- Strings are sequences of code points. Go strings that are not valid UTF-8, and the byte-level side of `[]rune` conversion, are not modelled.
- Named types: `AssignableTo` and `ConvertibleTo` are decided on unnamed structural types. Equal types are assignable; named-but-distinct types are not distinguished.
- Unexported fields, whose `Set` panics in Go, and embedded-field promotion in `FieldByName`: every field is an exported, direct field.
- Recursive (self-referential) types: a type here is a finite tree.
- Sharing: pointers are owned values. Two pointers to the same object, and a write seen through another alias, are not modelled.
- A nil `*D` given as FillFields's destination makes `deepAllocate` panic on an unaddressable `Set`. The model always passes a non-nil pointer to the destination value.
- `deepDereference` and `deepAllocate` panic on a non-pointer argument. Their callers never pass one, so both methods require a pointer.
- Go's `int` is taken as 64 bits wide.
- The destination after a panic is not modelled. A panic (lib.go:33, lib.go:46) discards the whole destination, as `Panicked(cause)`. In Go, fields and elements written before the panic stay written, and a caller that recovers sees them.
- `Semantics.AssignSlice`: the destination slice is not cleared first; new elements go after its prior contents (lib.go:53).
- `Semantics.Fill` has no contract of its own. `Properties.FillIsAssign` and `Properties.CopyIntoZero` state what it computes.
