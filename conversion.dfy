/** The scalar conversions of lossy mode: the special conversion table, and
    the generic reflect.Value.Convert fallback restricted to what it does
    between the integer widths of this model (two's-complement truncation). */
module Conversion {
  import opened Reflect
  import opened Strconv

  /** specialConversion: the value to store for a source scalar and the
      kind of the destination, or None when the table reports an error.
      only the kind of the destination is consulted, so a string parsed
      for any integer kind yields a value of type int. */
  function SpecialConversion(src: Value, dest: Type): (r: Option<Value>)
    ensures r.Some? && dest == TString ==> r.value.StrV?
    ensures r.Some? && dest == TBool ==> r.value.BoolV?
    ensures r.Some? && dest.TInt? ==> r.value.IntV? && r.value.width == Int && InRange(Int, r.value.i)
    ensures r.Some? ==> dest == TString || dest == TBool || dest.TInt?
  {
    match src
    case IntV(_, x) =>
      if dest == TString then Some(StrV(Itoa(x))) else None
    case StrV(s) =>
      if dest.TInt? then
        match Atoi(s)
        case Some(n) => Some(IntV(Int, n))
        case None => None
      else if dest == TBool then
        match ParseBool(s)
        case Some(b) => Some(BoolV(b))
        case None => None
      else None
    case BoolV(b) =>
      if dest == TString then Some(StrV(FormatBool(b))) else None
    case _ => None
  }

  /** An integer of any width rendered as text parses back to the same int. */
  lemma IntTextRoundTrip(w: IntWidth, x: int)
    requires InRange(w, x)
    ensures SpecialConversion(IntV(w, x), TString) == Some(StrV(Itoa(x)))
    ensures SpecialConversion(StrV(Itoa(x)), TInt(Int)) == Some(IntV(Int, x))
  {
    AtoiItoa(x);
  }

  /** A boolean rendered as text is exactly "true" or "false" and parses back. */
  lemma BoolTextRoundTrip(b: bool)
    ensures SpecialConversion(BoolV(b), TString) == Some(StrV(if b then "true" else "false"))
    ensures SpecialConversion(SpecialConversion(BoolV(b), TString).value, TBool) == Some(BoolV(b))
  {
  }

  /** A text that does not parse gives no special result. */
  lemma TextParseFailure(s: string, t: Type)
    requires (t.TInt? && Atoi(s).None?) || (t == TBool && ParseBool(s).None?)
    ensures SpecialConversion(StrV(s), t) == None
  {
  }

  /** reflect's ConvertibleTo among the types of this model, as far as the
      engine can ask it: after a failed assignability test and a failed
      special conversion, with a scalar source. Integers convert to every
      integer width, and a string converts to a slice of runes ([]int32).
      (Integer to string is also convertible in Go, but the special table
      always handles that pair first.) */
  predicate ConvertibleTo(from: Type, to: Type)
    ensures ConvertibleTo(from, to) ==> from.TInt? || from == TString
    ensures from.TInt? && to.TInt? ==> ConvertibleTo(from, to)
    ensures from == TString && to.TInt? ==> !ConvertibleTo(from, to)
    ensures from == TBool ==> !ConvertibleTo(from, to)
  {
    (from.TInt? && to.TInt?) || (from == TString && to == TSlice(TInt(Int32)))
  }

  function Modulus(w: IntWidth): nat
  {
    2 * Half(w)
  }

  /** Two's-complement truncation of x to width w. */
  function Truncate(w: IntWidth, x: int): (r: int)
    ensures InRange(w, r)
    ensures (x - r) % Modulus(w) == 0
    ensures InRange(w, x) ==> r == x
  {
    var m := Modulus(w);
    var r := (x + Half(w)) % m - Half(w);
    assert x - r == ((x + Half(w)) / m) * m;
    r
  }

  /** reflect.Value.Convert: between integer widths it is unchecked and
      wraps around when the value does not fit; a string becomes the
      non-nil slice of its code points. */
  function Convert(v: Value, to: Type): (r: Value)
    requires ConvertibleTo(TypeOf(v), to)
    ensures TypeOf(r) == to && WellTyped(r)
    ensures v.IntV? && InRange(to.width, v.i) ==> r.i == v.i
    ensures v.StrV? ==>
      !r.isNil && |r.items| == |v.s| &&
      forall k :: 0 <= k < |v.s| ==> r.items[k] == IntV(Int32, v.s[k] as int)
  {
    if v.IntV? then IntV(to.width, Truncate(to.width, v.i))
    else SliceV(TInt(Int32), Runes(v.s), false)
  }

  /** The code points of a string, each as an int32. */
  function Runes(s: string): (r: seq<Value>)
    ensures |r| == |s|
    ensures forall k :: 0 <= k < |s| ==> r[k] == IntV(Int32, s[k] as int) && InRange(Int32, s[k] as int)
  {
    seq(|s|, k requires 0 <= k < |s| => IntV(Int32, s[k] as int))
  }

  /** Narrowing wraps around: 200 converted to int8 is -56. */
  lemma ConvertWrapsAround()
    ensures Convert(IntV(Int, 200), TInt(Int8)) == IntV(Int8, -56)
    ensures Convert(IntV(Int64, -129), TInt(Int8)) == IntV(Int8, 127)
  {
  }
}
