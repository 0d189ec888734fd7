/**
 * Method registration without reflection. A receiver is described by its
 * type and the method set reflection would enumerate for it; types are
 * small descriptors (name, package path, kind). Registration keeps exactly
 * the methods shaped `func (recv) M(arg, reply) error` whose argument and
 * reply types are exported or built-in.
 */
module Service {
  import opened Wrappers
  import opened Codec

  /** The kind of a type, with the element types reflection's `Elem` returns. */
  datatype Kind =
    | Ptr(elem: TypeDesc)
    | Map(key: TypeDesc, elem: TypeDesc)
    | Slice(elem: TypeDesc)
    | Array(elem: TypeDesc)
    | Chan(elem: TypeDesc)
    | Struct
    | Interface
    | Scalar

  /** A type: its own name ("" when unnamed), its package path ("" for predeclared and unnamed types), its kind. */
  datatype TypeDesc = TypeDesc(name: string, pkgPath: string, kind: Kind)

  /** The predeclared `error` interface. */
  const ErrorType: TypeDesc := TypeDesc("error", "", Interface)

  /** `Type.Elem()`, which exists only for pointer, map, slice, array and channel types (otherwise it panics). */
  function Elem(t: TypeDesc): (r: Option<TypeDesc>)
    ensures r.Some? <==> (t.kind.Ptr? || t.kind.Map? || t.kind.Slice? || t.kind.Array? || t.kind.Chan?)
  {
    match t.kind
    case Ptr(e) => Some(e)
    case Map(_, e) => Some(e)
    case Slice(e) => Some(e)
    case Array(e) => Some(e)
    case Chan(e) => Some(e)
    case _ => None
  }

  /**
   * `ast.IsExported`: the identifier starts with an upper-case letter. Only
   * ASCII upper case is recognised here.
   */
  predicate IsExported(name: string)
  {
    |name| > 0 && 'A' <= name[0] <= 'Z'
  }

  /** `isExportedOrBuiltinType`. */
  predicate IsExportedOrBuiltinType(t: TypeDesc)
  {
    IsExported(t.name) || t.pkgPath == ""
  }

  /**
   * Visibility is judged on the type itself, not on what it points to: a
   * pointer type has no name and no package, so a pointer to an unexported
   * type passes the filter although the type it points to does not.
   */
  lemma PointerToUnexportedAccepted(e: TypeDesc)
    requires e.pkgPath != "" && !IsExported(e.name)
    ensures !IsExportedOrBuiltinType(e)
    ensures IsExportedOrBuiltinType(TypeDesc("", "", Ptr(e)))
    ensures forall rcvr: TypeDesc, reply: TypeDesc :: IsExportedOrBuiltinType(reply) ==>
      Eligible(Method("M", [rcvr, TypeDesc("", "", Ptr(e)), reply], [ErrorType]))
  {
  }

  /** A method as reflection lists it: name, parameter types with the receiver first, result types. */
  datatype Method = Method(name: string, ins: seq<TypeDesc>, outs: seq<TypeDesc>)

  /** A registered method: its argument and reply types and its call counter. */
  datatype MethodType = MethodType(desc: Method, argType: TypeDesc, replyType: TypeDesc, numCalls: Uint64)

  /** A receiver value: its dynamic type, the methods reflection enumerates for that type, and whether it is nil. */
  datatype Receiver = Receiver(typ: TypeDesc, methods: seq<Method>, isNil: bool)

  /** A registered service: its name, the receiver's type, and its method table. */
  datatype Service = Service(name: string, typ: TypeDesc, rcvr: Receiver, methods: map<string, MethodType>)

  // ---------------------------------------------------------------------
  // The three filters of registerMethods
  // ---------------------------------------------------------------------

  /** Receiver, argument and reply in; one result out. */
  predicate HasRpcArity(m: Method)
  {
    |m.ins| == 3 && |m.outs| == 1
  }

  /** The single result is the `error` type. */
  predicate ReturnsError(m: Method)
    requires HasRpcArity(m)
  {
    m.outs[0] == ErrorType
  }

  /** Argument and reply types are visible outside their package. */
  predicate HasVisibleTypes(m: Method)
    requires HasRpcArity(m)
  {
    IsExportedOrBuiltinType(m.ins[1]) && IsExportedOrBuiltinType(m.ins[2])
  }

  /** A method passes all three filters. */
  predicate Eligible(m: Method)
  {
    HasRpcArity(m) && ReturnsError(m) && HasVisibleTypes(m)
  }

  /** The table entry for an eligible method, its counter at zero. */
  function NewMethodType(m: Method): (mt: MethodType)
    requires Eligible(m)
    ensures mt.desc == m && mt.argType == m.ins[1] && mt.replyType == m.ins[2] && mt.numCalls == 0
  {
    MethodType(m, m.ins[1], m.ins[2], 0)
  }

  /** No eligible method after position `i` has the same name as `ms[i]`. */
  predicate LastEligibleWithName(ms: seq<Method>, i: int)
    requires 0 <= i < |ms|
  {
    forall j :: i < j < |ms| && Eligible(ms[j]) ==> ms[j].name != ms[i].name
  }

  /**
   * `registerMethods`: walk the methods in order, skipping (not failing on)
   * every method that fails a filter; a later method overwrites an earlier
   * one of the same name.
   */
  function {:induction false} RegisterMethods(ms: seq<Method>): (table: map<string, MethodType>)
    ensures table.Keys == set i | 0 <= i < |ms| && Eligible(ms[i]) :: ms[i].name
    ensures forall i :: 0 <= i < |ms| && Eligible(ms[i]) && LastEligibleWithName(ms, i) ==>
      table[ms[i].name] == NewMethodType(ms[i])
    ensures forall name :: name in table ==> table[name].numCalls == 0 && table[name].desc.name == name
    decreases |ms|
  {
    if |ms| == 0 then map[]
    else
      var prefix := ms[..|ms| - 1];
      var last := ms[|ms| - 1];
      var table := RegisterMethods(prefix);
      assert forall i :: 0 <= i < |prefix| ==> prefix[i] == ms[i];
      if Eligible(last) then table[last.name := NewMethodType(last)] else table
  }

  /** Reflection never lists two methods of one type under the same name. */
  predicate DistinctNames(ms: seq<Method>)
  {
    forall i, j :: 0 <= i < j < |ms| ==> ms[i].name != ms[j].name
  }

  /**
   * For a genuine method set, a method is registered iff it passes the three
   * filters, and then under its own name with its own argument and reply types.
   */
  lemma RegisteredIffEligible(ms: seq<Method>, i: int)
    requires DistinctNames(ms) && 0 <= i < |ms|
    ensures ms[i].name in RegisterMethods(ms) <==> Eligible(ms[i])
    ensures Eligible(ms[i]) ==> RegisterMethods(ms)[ms[i].name] == NewMethodType(ms[i])
  {
  }

  /** A method with the wrong number of parameters or results is skipped, whatever its types. */
  lemma WrongArityIsSkipped(ms: seq<Method>, i: int)
    requires DistinctNames(ms) && 0 <= i < |ms| && !HasRpcArity(ms[i])
    ensures ms[i].name !in RegisterMethods(ms)
  {
    RegisteredIffEligible(ms, i);
  }

  // ---------------------------------------------------------------------
  // newService
  // ---------------------------------------------------------------------

  /** The name of the receiver's type after one pointer indirection (`reflect.Indirect`). */
  function IndirectName(t: TypeDesc): string
  {
    match t.kind
    case Ptr(e) => e.name
    case _ => t.name
  }

  /**
   * A nil pointer, or a nil interface, has no value to take the type of
   * after `reflect.Indirect`; a nil map, slice, channel or function does.
   */
  predicate HasNoIndirectValue(rcvr: Receiver)
  {
    rcvr.isNil && (rcvr.typ.kind.Ptr? || rcvr.typ.kind.Interface?)
  }

  /**
   * `newService`: a nil receiver makes reflection panic, and an unexported
   * (indirected) type name is fatal; otherwise a service of that name whose
   * table is the registered methods.
   */
  function NewService(rcvr: Receiver): (r: Result<Service, string>)
    ensures r.Failure? <==> HasNoIndirectValue(rcvr) || !IsExported(IndirectName(rcvr.typ))
    ensures r.Success? ==>
      && r.value.name == IndirectName(rcvr.typ)
      && r.value.typ == rcvr.typ
      && r.value.rcvr == rcvr
      && r.value.methods == RegisterMethods(rcvr.methods)
      && r.value.methods.Keys == set i | 0 <= i < |rcvr.methods| && Eligible(rcvr.methods[i]) :: rcvr.methods[i].name
  {
    if HasNoIndirectValue(rcvr) then Failure("reflect: call of reflect.Value.Type on zero Value")
    else
      var name := IndirectName(rcvr.typ);
      if !IsExported(name) then Failure("rpc server: " + name + " is not a valid service name")
      else Success(Service(name, rcvr.typ, rcvr, RegisterMethods(rcvr.methods)))
  }

  /** A nil pointer to an exported type is refused, while a non-nil one is accepted under that type's name. */
  lemma NilReceiverRejected(e: TypeDesc, ms: seq<Method>)
    requires IsExported(e.name)
    ensures NewService(Receiver(TypeDesc("", "", Ptr(e)), ms, true)).Failure?
    ensures NewService(Receiver(TypeDesc("", "", Ptr(e)), ms, false)).Success?
    ensures NewService(Receiver(TypeDesc("", "", Ptr(e)), ms, false)).value.name == e.name
  {
  }

  // ---------------------------------------------------------------------
  // Argument and reply values
  // ---------------------------------------------------------------------

  /** A value, as far as the construction rules care. */
  datatype Value =
    | Zero(t: TypeDesc)                        // the zero value of `t` (nil for pointers, maps and slices)
    | PointerTo(elem: TypeDesc, target: Value) // a freshly allocated pointer to `target`
    | EmptyMap(t: TypeDesc)                    // a made, empty map
    | EmptySlice(t: TypeDesc)                  // a made, empty slice of length 0

  /** `v` is a value of type `t`. */
  predicate HasType(v: Value, t: TypeDesc)
  {
    match v
    case Zero(u) => u == t
    case PointerTo(e, target) => t.kind == Ptr(e) && HasType(target, e)
    case EmptyMap(u) => u == t && t.kind.Map?
    case EmptySlice(u) => u == t && t.kind.Slice?
  }

  /** `v` may be used without a nil check. */
  predicate NonNil(v: Value)
  {
    match v
    case Zero(t) => !(t.kind.Ptr? || t.kind.Map? || t.kind.Slice? || t.kind.Chan? || t.kind.Interface?)
    case _ => true
  }

  /**
   * `newArgv`: for a pointer argument type a fresh pointer to a zero element,
   * otherwise a zero value of the argument type.
   */
  function NewArgv(mt: MethodType): (v: Value)
    ensures mt.argType.kind.Ptr? ==>
      v.PointerTo? && HasType(v, mt.argType) && HasType(v.target, mt.argType.kind.elem) && v.target.Zero? && NonNil(v)
    ensures !mt.argType.kind.Ptr? ==> HasType(v, mt.argType) && v.Zero?
  {
    match mt.argType.kind
    case Ptr(e) => PointerTo(e, Zero(e))
    case _ => Zero(mt.argType)
  }

  /**
   * `newReplyv`: a fresh pointer to a zero value of the reply type's element
   * type, where a map or slice element is made empty rather than left nil;
   * `None` where the reply type has no element type (reflection panics).
   */
  function NewReplyv(mt: MethodType): (r: Option<Value>)
    ensures r.None? <==> Elem(mt.replyType).None?
    ensures r.Some? ==>
      && r.value.PointerTo?
      && r.value.elem == Elem(mt.replyType).value
      && HasType(r.value.target, r.value.elem)
      && ((r.value.elem.kind.Map? || r.value.elem.kind.Slice?) ==> NonNil(r.value.target))
      && (!(r.value.elem.kind.Map? || r.value.elem.kind.Slice?) ==> r.value.target.Zero?)
  {
    match Elem(mt.replyType)
    case None => None
    case Some(e) =>
      var target := match e.kind
        case Map(_, _) => EmptyMap(e)
        case Slice(_) => EmptySlice(e)
        case _ => Zero(e);
      Some(PointerTo(e, target))
  }

  /** With a pointer reply type the reply value fits the method's reply parameter exactly. */
  lemma ReplyFitsPointerReply(mt: MethodType)
    requires mt.replyType.kind.Ptr? && mt.replyType.name == "" && mt.replyType.pkgPath == ""
    ensures NewReplyv(mt).Some? && HasType(NewReplyv(mt).value, mt.replyType)
  {
  }

  // ---------------------------------------------------------------------
  // call
  // ---------------------------------------------------------------------

  const Uint64Modulus: int := 0x1_0000_0000_0000_0000

  /** `NumCalls`. */
  function NumCalls(mt: MethodType): Uint64
  {
    mt.numCalls
  }

  /**
   * `call`: count the call (a 64-bit counter, so it wraps) and return what
   * the method returned: `None` for a nil error, otherwise that error.
   */
  function Call(s: Service, name: string, returned: Option<string>): (r: (Service, Option<string>))
    requires name in s.methods
    ensures r.1 == returned
    ensures r.0.name == s.name && r.0.typ == s.typ && r.0.rcvr == s.rcvr
    ensures r.0.methods.Keys == s.methods.Keys
    ensures NumCalls(r.0.methods[name]) == (NumCalls(s.methods[name]) + 1) % Uint64Modulus
    ensures r.0.methods[name].desc == s.methods[name].desc
    ensures r.0.methods[name].argType == s.methods[name].argType
    ensures r.0.methods[name].replyType == s.methods[name].replyType
    ensures forall other :: other in s.methods && other != name ==> r.0.methods[other] == s.methods[other]
  {
    var mt := s.methods[name];
    var counted := mt.(numCalls := (mt.numCalls + 1) % Uint64Modulus);
    (s.(methods := s.methods[name := counted]), returned)
  }

  /** A run of calls to one method, each returning the given result. */
  function CallAll(s: Service, name: string, results: seq<Option<string>>): (r: Service)
    requires name in s.methods
    ensures r.methods.Keys == s.methods.Keys
    decreases |results|
  {
    if |results| == 0 then s
    else CallAll(Call(s, name, results[0]).0, name, results[1..])
  }

  /** Wrapping after each increment is the same as wrapping once at the end. */
  lemma ModAddOne(a: int, k: nat)
    ensures ((a + 1) % Uint64Modulus + k) % Uint64Modulus == (a + 1 + k) % Uint64Modulus
  {
  }

  /** After `k` calls the counter has advanced by `k`, modulo 2^64, and no other method's has moved. */
  lemma {:induction false} CallsCounted(s: Service, name: string, results: seq<Option<string>>)
    requires name in s.methods
    ensures NumCalls(CallAll(s, name, results).methods[name]) == (NumCalls(s.methods[name]) + |results|) % Uint64Modulus
    ensures forall other :: other in s.methods && other != name ==> CallAll(s, name, results).methods[other] == s.methods[other]
    decreases |results|
  {
    if |results| > 0 {
      var s1 := Call(s, name, results[0]).0;
      CallsCounted(s1, name, results[1..]);
      ModAddOne(NumCalls(s.methods[name]), |results| - 1);
    }
  }
}
