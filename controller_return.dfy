/**
 * The handler result constructor `Controller.rtn` and the runtime guard
 * `isControllerReturnType` that recognises its results.
 */
module ControllerReturn {

  /**
   * A JavaScript value, as far as the guard inspects it. Numbers are
   * integers here; an object is its own enumerable properties.
   */
  datatype JsValue =
    | Undefined
    | Null
    | Bool(b: bool)
    | Num(n: int)
    | Str(s: string)
    | Obj(props: map<string, JsValue>)    // a plain object or an array
    | Func(props: map<string, JsValue>)   // a function (also an object, but `typeof` says "function")

  /** JavaScript's `typeof`. */
  function TypeOf(v: JsValue): (t: string)
    ensures t == "object" <==> v.Obj? || v.Null?
  {
    match v
    case Undefined => "undefined"
    case Null => "object"
    case Bool(_) => "boolean"
    case Num(_) => "number"
    case Str(_) => "string"
    case Obj(_) => "object"
    case Func(_) => "function"
  }

  /** `typeof result === 'object' && result !== null && 'status' in result && typeof result.status === 'number' && 'res' in result` */
  function IsControllerReturnType(result: JsValue): (b: bool)
    ensures b <==> result.Obj? && "status" in result.props && result.props["status"].Num? && "res" in result.props
    ensures result.Null? || TypeOf(result) != "object" ==> !b
  {
    TypeOf(result) == "object" && result != Null
    && "status" in result.props && TypeOf(result.props["status"]) == "number"
    && "res" in result.props
  }

  /** `rtn(status, val)` builds `{ status, res: val }`. */
  function Rtn(status: int, val: JsValue): (r: JsValue)
    ensures IsControllerReturnType(r)
    ensures r.props.Keys == {"status", "res"}
    ensures r.props["status"] == Num(status) && r.props["res"] == val
  {
    Obj(map["status" := Num(status), "res" := val])
  }
}
