/**
 * The objects the metadata registries are keyed by, and the small enums
 * the route metadata carries.
 */
module Runtime {
  import opened Wrappers

  /**
   * A JavaScript object a decorator can receive: a controller class, its
   * prototype, an instance of it, or the global `Function` constructor.
   */
  datatype Obj =
    | FunctionCtor
    | ClassObj(name: string)
    | ProtoObj(name: string)
    | InstanceObj(name: string, id: nat)

  /**
   * `o.constructor`: a prototype and an instance both answer their class;
   * a class (a function) answers `Function`.
   */
  function ConstructorOf(o: Obj): (c: Obj)
    ensures o.ProtoObj? || o.InstanceObj? ==> c == ClassObj(o.name)
    ensures o.ClassObj? || o.FunctionCtor? ==> c == FunctionCtor
  {
    match o
    case FunctionCtor => FunctionCtor
    case ClassObj(_) => FunctionCtor
    case ProtoObj(n) => ClassObj(n)
    case InstanceObj(n, _) => ClassObj(n)
  }

  /**
   * `Object.getPrototypeOf(o)` as far as the model knows it: an instance's
   * prototype. The parent class of a class and the parent prototype of a
   * prototype are not modelled, so a lookup stops there.
   */
  function PrototypeOf(o: Obj): (p: Option<Obj>)
    ensures p.Some? <==> o.InstanceObj?
    ensures p.Some? ==> p.value == ProtoObj(o.name)
  {
    if o.InstanceObj? then Some(ProtoObj(o.name)) else None
  }

  datatype HttpMethod = Get | Post

  datatype ParamSource = Param | Query | Body | Header
}
