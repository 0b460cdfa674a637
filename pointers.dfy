/** The two pointer-chain helpers of the engine: deepDereference, which
    follows a chain of pointers without changing it, and deepAllocate, which
    allocates every nil layer of a chain on the way down to a non-pointer.
    A chain is seen as its list of layers (the pointee type of each pointer,
    outermost first) above the innermost value it reaches. */
module Pointers {
  import opened Reflect

  /** No layer of the pointer chain at the top of v is nil. */
  predicate Allocated(v: Value)
  {
    match v
    case PtrV(_, target) => target.Some? && Allocated(target.value)
    case _ => true
  }

  /** The pointee types along the pointer chain at the top of v, outermost
      first, down to the innermost value or to the first nil layer. */
  function Layers(v: Value): seq<Type>
  {
    match v
    case PtrV(t, target) => [t] + (if target.Some? then Layers(target.value) else [])
    case _ => []
  }

  /** The innermost non-pointer of a chain, or None (an invalid
      reflect.Value) when some layer is nil. */
  function Deref(v: Value): (r: Option<Value>)
    ensures r.Some? <==> Allocated(v)
    ensures r.Some? ==> !r.value.PtrV? && Size(r.value) <= Size(v)
  {
    match v
    case PtrV(_, None) => None
    case PtrV(_, Some(x)) => Deref(x)
    case _ => Some(v)
  }

  /** The allocated chain with layers ts above the value x. */
  function Wrap(ts: seq<Type>, x: Value): (r: Value)
    ensures !x.PtrV? ==> Allocated(r) && Layers(r) == ts && Deref(r) == Some(x)
    ensures |ts| > 0 ==> TypeOf(r) == TPtr(ts[0])
  {
    if |ts| == 0 then x else PtrV(ts[0], Some(Wrap(ts[1..], x)))
  }

  /** An allocated chain is exactly its layers above its innermost value. */
  lemma {:induction false} DerefDecomposes(v: Value)
    requires Allocated(v)
    ensures Wrap(Layers(v), Deref(v).value) == v
  {
    match v
    case PtrV(t, target) =>
      DerefDecomposes(target.value);
      assert Layers(v)[1..] == Layers(target.value);
    case _ =>
  }

  lemma {:induction false} WrapSnoc(ts: seq<Type>, t: Type, x: Value)
    ensures Wrap(ts + [t], x) == Wrap(ts, PtrV(t, Some(x)))
  {
    if |ts| > 0 {
      assert (ts + [t])[1..] == ts[1..] + [t];
      WrapSnoc(ts[1..], t, x);
    }
  }

  /** The innermost type of t below all its pointer layers. */
  function BaseType(t: Type): (r: Type)
    ensures !r.TPtr?
  {
    if t.TPtr? then BaseType(t.elem) else t
  }

  /** reflect.New(t) followed down to a non-pointer: one fresh layer per
      pointer in t, ending in the zero value of t's base type. */
  function ZeroChain(t: Type): (r: Value)
    ensures TypeOf(r) == t && Allocated(r)
    ensures Deref(r) == Some(Zero(BaseType(t)))
  {
    if t.TPtr? then PtrV(t.elem, Some(ZeroChain(t.elem))) else Zero(t)
  }

  /** The chain deepAllocate leaves behind: each nil layer is replaced by a
      fresh pointer to the zero value of its pointee type, and the walk
      continues through it. */
  function Alloc(v: Value): (r: Value)
    ensures Allocated(r) && TypeOf(r) == TypeOf(v)
    ensures Allocated(v) ==> r == v
    ensures Layers(v) <= Layers(r)
  {
    match v
    case PtrV(t, None) => PtrV(t, Some(ZeroChain(t)))
    case PtrV(t, Some(x)) => PtrV(t, Some(Alloc(x)))
    case _ => v
  }

  /** Allocating a nil layer then continuing is allocating its zero value. */
  lemma ZeroChainIsAllocatedZero(t: Type)
    ensures ZeroChain(t) == Alloc(Zero(t))
  {
  }

  /** When a layer of a well-typed chain is nil, the innermost value after
      allocation is the zero value of the chain's base type; otherwise it
      is the value that was there. */
  lemma {:induction false} AllocLeaf(v: Value)
    requires WellTyped(v)
    ensures Deref(Alloc(v)) == Some(if Allocated(v) then Deref(v).value else Zero(BaseType(TypeOf(v))))
  {
    match v
    case PtrV(t, Some(x)) => AllocLeaf(x);
    case _ =>
  }

  lemma {:induction false} ZeroChainWellTyped(t: Type)
    requires ValidType(t)
    ensures WellTyped(ZeroChain(t))
  {
    if t.TPtr? {
      ZeroChainWellTyped(t.elem);
    } else {
      ZeroWellTyped(t);
    }
  }

  lemma {:induction false} AllocWellTyped(v: Value)
    requires WellTyped(v)
    ensures WellTyped(Alloc(v))
  {
    match v
    case PtrV(t, None) => ZeroChainWellTyped(t);
    case PtrV(t, Some(x)) => AllocWellTyped(x);
    case _ =>
  }

  /** deepDereference (lib.go): follow the chain while the value is a
      pointer; the Elem of a nil pointer is an invalid Value. */
  method DeepDereference(ptr: Value) returns (r: Option<Value>)
    requires ptr.PtrV?
    ensures r == Deref(ptr)
  {
    var cur := Some(ptr);
    while cur.Some? && cur.value.PtrV?
      invariant cur.Some? ==> Deref(cur.value) == Deref(ptr)
      invariant cur.None? ==> Deref(ptr) == None
      decreases cur
    {
      cur := cur.value.target;
    }
    r := cur;
  }

  /** deepAllocate (lib.go): walk down the chain, setting each nil layer to
      a freshly allocated pointer, and return where the walk ended: the
      layers passed and the innermost value reached. */
  method DeepAllocate(ptr: Value) returns (layers: seq<Type>, leaf: Value)
    requires ptr.PtrV?
    ensures Wrap(layers, leaf) == Alloc(ptr)
    ensures layers == Layers(Alloc(ptr)) && Deref(Alloc(ptr)) == Some(leaf)
  {
    var cur := ptr;
    layers := [];
    while cur.PtrV?
      invariant Alloc(ptr) == Wrap(layers, Alloc(cur))
      decreases |Layers(Alloc(cur))|
    {
      if cur.target.None? {
        ZeroChainIsAllocatedZero(cur.elem);
        cur := PtrV(cur.elem, Some(Zero(cur.elem)));
      }
      WrapSnoc(layers, cur.elem, Alloc(cur.target.value));
      layers := layers + [cur.elem];
      cur := cur.target.value;
    }
    leaf := cur;
  }
}
