/**
 * The reflect-metadata registry of the dependency-injection controller
 * layer. Unlike the OpenAPI registry it is keyed by instances and
 * prototypes: the base path is read from `controller.constructor`, routes
 * are stored and read on `target.constructor`, and a handler holds a
 * single response entry that a later define replaces.
 */
module DiMetadata {
  import opened Wrappers
  import opened Runtime
  import opened MetadataLists

  /** A DTO class, known by its name. */
  type DtoClass = string

  datatype ParameterMeta = ParameterMeta(index: int, source: ParamSource, key: Option<string>, expectedType: Option<DtoClass>)

  datatype RouteMeta = RouteMeta(httpMethod: HttpMethod, path: string, handlerName: string)

  datatype ResponseMeta = ResponseMeta(statusCode: int, returnType: Option<DtoClass>)

  /** The metadata keys `custom:controller`, `custom:routes`, `custom:route_params`, `custom:response`. */
  class ControllerRegistry {
    var basePaths: map<Obj, string>
    var routes: map<Obj, seq<RouteMeta>>
    var params: map<(Obj, string), seq<ParameterMeta>>
    var responses: map<(Obj, string), ResponseMeta>

    constructor ()
      ensures basePaths == map[] && routes == map[] && params == map[] && responses == map[]
    {
      basePaths, routes, params, responses := map[], map[], map[], map[];
    }

    /** Read on the controller's constructor, not on the controller itself. */
    function GetBasePathMetaData(controller: Obj): (r: Option<string>)
      reads this
      ensures r.Some? <==> ConstructorOf(controller) in basePaths
      ensures r.Some? ==> r.value == basePaths[ConstructorOf(controller)]
    {
      var c := ConstructorOf(controller);
      if c in basePaths then Some(basePaths[c]) else None
    }

    /** Stored on target itself; only an object whose constructor is target reads it back. */
    method DefineBasePathMetaData(basePath: string, target: Obj)
      modifies this
      ensures basePaths == old(basePaths)[target := basePath]
      ensures forall controller :: ConstructorOf(controller) == target ==> GetBasePathMetaData(controller) == Some(basePath)
      ensures target.ClassObj? ==> forall id :: GetBasePathMetaData(InstanceObj(target.name, id)) == Some(basePath)
      ensures target.InstanceObj? || target.ProtoObj? ==>
                forall controller :: GetBasePathMetaData(controller) == old(GetBasePathMetaData(controller))
      ensures forall controller :: ConstructorOf(controller) != target ==>
                GetBasePathMetaData(controller) == old(GetBasePathMetaData(controller))
      ensures routes == old(routes) && params == old(params) && responses == old(responses)
    {
      basePaths := basePaths[target := basePath];
    }

    /** `|| []`, read on the controller's constructor. */
    function GetControllerRoutesMetaData(controller: Obj): (r: seq<RouteMeta>)
      reads this
      ensures ConstructorOf(controller) in routes ==> r == routes[ConstructorOf(controller)]
      ensures ConstructorOf(controller) !in routes ==> r == []
    {
      ListAt(routes, ConstructorOf(controller))
    }

    /** Stored on `target.constructor`: every object sharing that constructor sees the new route. */
    method DefineControllerRoutesMetaData(target: Obj, meta: RouteMeta)
      modifies this
      ensures routes == Appended(old(routes), ConstructorOf(target), meta)
      ensures forall controller :: ConstructorOf(controller) == ConstructorOf(target) ==>
                GetControllerRoutesMetaData(controller) == old(GetControllerRoutesMetaData(controller)) + [meta]
      ensures forall controller :: ConstructorOf(controller) != ConstructorOf(target) ==>
                GetControllerRoutesMetaData(controller) == old(GetControllerRoutesMetaData(controller))
      ensures basePaths == old(basePaths) && params == old(params) && responses == old(responses)
    {
      routes := Appended(routes, ConstructorOf(target), meta);
    }

    /**
     * Own metadata of (controller, handlerName) first; without it, an
     * instance reads its prototype's, as reflect-metadata walks the
     * prototype chain.
     */
    function GetControllerRouteParamsMetaData(controller: Obj, handlerName: string): (r: seq<ParameterMeta>)
      reads this
      ensures (controller, handlerName) in params ==> r == params[(controller, handlerName)]
      ensures (controller, handlerName) !in params && controller.InstanceObj? ==>
                r == ListAt(params, (ProtoObj(controller.name), handlerName))
      ensures (controller, handlerName) !in params && !controller.InstanceObj? ==> r == []
    {
      if (controller, handlerName) in params then params[(controller, handlerName)]
      else match PrototypeOf(controller)
        case Some(p) => ListAt(params, (p, handlerName))
        case None => []
    }

    /**
     * Read (through the chain), push, define on target itself. The
     * decorators pass the prototype, so every instance without its own
     * entry sees the new parameter.
     */
    method DefineControllerRouteParamMetaData(target: Obj, handlerName: string, parameterMeta: ParameterMeta)
      modifies this
      ensures params == old(params)[(target, handlerName) := old(GetControllerRouteParamsMetaData(target, handlerName)) + [parameterMeta]]
      ensures GetControllerRouteParamsMetaData(target, handlerName)
           == old(GetControllerRouteParamsMetaData(target, handlerName)) + [parameterMeta]
      ensures target.ProtoObj? ==>
                forall id :: (InstanceObj(target.name, id), handlerName) !in params ==>
                  GetControllerRouteParamsMetaData(InstanceObj(target.name, id), handlerName)
                  == old(GetControllerRouteParamsMetaData(target, handlerName)) + [parameterMeta]
      ensures forall o, h :: h != handlerName || (o != target && PrototypeOf(o) != Some(target)) ==>
                GetControllerRouteParamsMetaData(o, h) == old(GetControllerRouteParamsMetaData(o, h))
      ensures basePaths == old(basePaths) && routes == old(routes) && responses == old(responses)
    {
      params := params[(target, handlerName) := GetControllerRouteParamsMetaData(target, handlerName) + [parameterMeta]];
    }

    /** Own entry first, then, for an instance, its prototype's. */
    function GetControllerResponseMetaData(target: Obj, handlerName: string): (r: Option<ResponseMeta>)
      reads this
      ensures (target, handlerName) in responses ==> r == Some(responses[(target, handlerName)])
      ensures (target, handlerName) !in responses && target.InstanceObj? ==>
                r == (if (ProtoObj(target.name), handlerName) in responses
                      then Some(responses[(ProtoObj(target.name), handlerName)]) else None)
      ensures (target, handlerName) !in responses && !target.InstanceObj? ==> r.None?
    {
      if (target, handlerName) in responses then Some(responses[(target, handlerName)])
      else match PrototypeOf(target)
        case Some(p) => if (p, handlerName) in responses then Some(responses[(p, handlerName)]) else None
        case None => None
    }

    /** One entry per handler: a second define replaces the first. */
    method DefineControllerResponseMetaData(target: Obj, handlerName: string, meta: ResponseMeta)
      modifies this
      ensures responses == old(responses)[(target, handlerName) := meta]
      ensures GetControllerResponseMetaData(target, handlerName) == Some(meta)
      ensures target.ProtoObj? ==>
                forall id :: (InstanceObj(target.name, id), handlerName) !in responses ==>
                  GetControllerResponseMetaData(InstanceObj(target.name, id), handlerName) == Some(meta)
      ensures forall o, h :: h != handlerName || (o != target && PrototypeOf(o) != Some(target)) ==>
                GetControllerResponseMetaData(o, h) == old(GetControllerResponseMetaData(o, h))
      ensures basePaths == old(basePaths) && routes == old(routes) && params == old(params)
    {
      responses := responses[(target, handlerName) := meta];
    }
  }

  /** The last response define wins, whatever was defined before. */
  method LastResponseWins(target: Obj, handlerName: string, first: ResponseMeta, second: ResponseMeta)
    returns (stored: Option<ResponseMeta>)
    ensures stored == Some(second)
  {
    var registry := new ControllerRegistry();
    registry.DefineControllerResponseMetaData(target, handlerName, first);
    registry.DefineControllerResponseMetaData(target, handlerName, second);
    stored := registry.GetControllerResponseMetaData(target, handlerName);
  }

  /**
   * `UserController` as the DI decorators register it: the parameter,
   * response and route decorators of `getUser` receive the prototype,
   * `@Controller('/user')` the class. The router then reads everything
   * on a fresh instance: the base path and the routes through
   * `instance.constructor`, the parameters and the response through the
   * instance's prototype.
   */
  method UserControllerRouterReads(id: nat)
    returns (basePath: Option<string>, routes: seq<RouteMeta>, params: seq<ParameterMeta>, response: Option<ResponseMeta>)
    ensures basePath == Some("/user")
    ensures routes == [RouteMeta(Get, "/get/:id", "getUser")]
    // expectedType None stands for the `design:paramtypes` entry `getParamTypes` reads, which is not part of this model
    ensures params == [ParameterMeta(2, Header, Some("X-Requested-With"), None),
                       ParameterMeta(1, Query, Some("name"), None),
                       ParameterMeta(0, Param, Some("id"), None)]
    ensures response == Some(ResponseMeta(200, Some("UserDTO")))
  {
    var registry := new ControllerRegistry();
    var proto := ProtoObj("UserController");
    var p2, p1, p0 := ParameterMeta(2, Header, Some("X-Requested-With"), None),
                      ParameterMeta(1, Query, Some("name"), None),
                      ParameterMeta(0, Param, Some("id"), None);
    registry.DefineControllerRouteParamMetaData(proto, "getUser", p2);
    assert [] + [p2] == [p2];
    registry.DefineControllerRouteParamMetaData(proto, "getUser", p1);
    registry.DefineControllerRouteParamMetaData(proto, "getUser", p0);
    registry.DefineControllerResponseMetaData(proto, "getUser", ResponseMeta(200, Some("UserDTO")));
    registry.DefineControllerRoutesMetaData(proto, RouteMeta(Get, "/get/:id", "getUser"));
    registry.DefineBasePathMetaData("/user", ClassObj("UserController"));
    var instance := InstanceObj("UserController", id);
    basePath := registry.GetBasePathMetaData(instance);
    routes := registry.GetControllerRoutesMetaData(instance);
    assert routes == [] + [RouteMeta(Get, "/get/:id", "getUser")];
    params := registry.GetControllerRouteParamsMetaData(instance, "getUser");
    response := registry.GetControllerResponseMetaData(instance, "getUser");
  }
}
