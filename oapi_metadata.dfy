/**
 * The reflect-metadata registry of the OpenAPI controller layer: a base
 * path per controller, a route list per controller, and a parameter list
 * and a response list per (controller, handler).
 */
module OapiMetadata {
  import opened Wrappers
  import opened Runtime
  import opened MetadataLists

  /** A zod schema is opaque here; it is known by identity only. */
  type SchemaId = nat

  datatype ParameterMeta = ParameterMeta(index: int, source: ParamSource, key: string, validator: SchemaId)

  datatype RouteMeta = RouteMeta(httpMethod: HttpMethod, path: string, handlerName: string)

  /** `ZodType | typeof ViewRenderer` */
  datatype ReturnType = ViewRendererClass | ZodSchema(schema: SchemaId)

  datatype ResponseMeta = ResponseMeta(statusCode: int, returnType: ReturnType)

  /** The first entry whose `statusCode` equals status (`Array.prototype.find`). */
  function FindWithStatus(metas: seq<ResponseMeta>, status: int): (r: Option<ResponseMeta>)
    ensures r.Some? ==> exists k :: 0 <= k < |metas| && metas[k] == r.value && r.value.statusCode == status
                                  && forall j :: 0 <= j < k ==> metas[j].statusCode != status
    ensures r.None? ==> forall j :: 0 <= j < |metas| ==> metas[j].statusCode != status
  {
    if metas == [] then None
    else if metas[0].statusCode == status then Some(metas[0])
    else FindWithStatus(metas[1..], status)
  }

  /** The metadata keys `custom:base_path`, `custom:routes`, `custom:route_params`, `custom:response`. */
  class MetadataStore {
    var basePaths: map<Obj, string>
    var routes: map<Obj, seq<RouteMeta>>
    var params: map<(Obj, string), seq<ParameterMeta>>
    var responses: map<(Obj, string), seq<ResponseMeta>>

    constructor ()
      ensures basePaths == map[] && routes == map[] && params == map[] && responses == map[]
    {
      basePaths, routes, params, responses := map[], map[], map[], map[];
    }

    /** `undefined` until a base path is defined for controller. */
    function GetBasePathMetaData(controller: Obj): (r: Option<string>)
      reads this
      ensures r.Some? <==> controller in basePaths
      ensures r.Some? ==> r.value == basePaths[controller]
    {
      if controller in basePaths then Some(basePaths[controller]) else None
    }

    method DefineBasePathMetaData(basePath: string, target: Obj)
      modifies this
      ensures basePaths == old(basePaths)[target := basePath]
      ensures GetBasePathMetaData(target) == Some(basePath)
      ensures forall o :: o != target ==> GetBasePathMetaData(o) == old(GetBasePathMetaData(o))
      ensures routes == old(routes) && params == old(params) && responses == old(responses)
    {
      basePaths := basePaths[target := basePath];
    }

    /** `|| []`: the empty list until a route is defined on controller itself. */
    function GetControllerRoutesMetaData(controller: Obj): (r: seq<RouteMeta>)
      reads this
      ensures controller !in routes ==> r == []
      ensures controller in routes ==> r == routes[controller]
    {
      ListAt(routes, controller)
    }

    method DefineControllerRoutesMetaData(controller: Obj, meta: RouteMeta)
      modifies this
      ensures routes == Appended(old(routes), controller, meta)
      ensures GetControllerRoutesMetaData(controller) == old(GetControllerRoutesMetaData(controller)) + [meta]
      ensures basePaths == old(basePaths) && params == old(params) && responses == old(responses)
    {
      routes := Appended(routes, controller, meta);
    }

    /** `|| []`: the empty list until a parameter is defined for (controller, handlerName). */
    function GetControllerRouteParamsMetaData(controller: Obj, handlerName: string): (r: seq<ParameterMeta>)
      reads this
      ensures (controller, handlerName) !in params ==> r == []
      ensures (controller, handlerName) in params ==> r == params[(controller, handlerName)]
    {
      ListAt(params, (controller, handlerName))
    }

    method DefineControllerRouteParamMetaData(target: Obj, handlerName: string, parameterMeta: ParameterMeta)
      modifies this
      ensures params == Appended(old(params), (target, handlerName), parameterMeta)
      ensures GetControllerRouteParamsMetaData(target, handlerName)
           == old(GetControllerRouteParamsMetaData(target, handlerName)) + [parameterMeta]
      ensures forall o, h :: (o, h) != (target, handlerName) ==>
                GetControllerRouteParamsMetaData(o, h) == old(GetControllerRouteParamsMetaData(o, h))
      ensures basePaths == old(basePaths) && routes == old(routes) && responses == old(responses)
    {
      params := Appended(params, (target, handlerName), parameterMeta);
    }

    /** No `|| []` here: `undefined` until a response is defined for the handler. */
    function GetAllControllerResponseMetaData(target: Obj, handlerName: string): (r: Option<seq<ResponseMeta>>)
      reads this
      ensures r.Some? <==> (target, handlerName) in responses
      ensures r.Some? ==> r.value == responses[(target, handlerName)]
    {
      if (target, handlerName) in responses then Some(responses[(target, handlerName)]) else None
    }

    method DefineControllerResponseMetaData(target: Obj, handlerName: string, meta: ResponseMeta)
      modifies this
      ensures responses == Appended(old(responses), (target, handlerName), meta)
      ensures GetAllControllerResponseMetaData(target, handlerName)
           == Some(ListAt(old(responses), (target, handlerName)) + [meta])
      ensures forall o, h :: (o, h) != (target, handlerName) ==>
                GetAllControllerResponseMetaData(o, h) == old(GetAllControllerResponseMetaData(o, h))
      ensures basePaths == old(basePaths) && routes == old(routes) && params == old(params)
    {
      responses := Appended(responses, (target, handlerName), meta);
    }

    /** `getAll(...)?.find(meta => meta.statusCode === statusCode)` */
    function FindControllerResponseMetaDataWithStatus(target: Obj, handlerName: string, statusCode: int): (r: Option<ResponseMeta>)
      reads this
      ensures GetAllControllerResponseMetaData(target, handlerName).None? ==> r.None?
      ensures r.Some? ==> r.value.statusCode == statusCode
                          && r.value in GetAllControllerResponseMetaData(target, handlerName).value
      ensures GetAllControllerResponseMetaData(target, handlerName).Some? ==>
                r == FindWithStatus(GetAllControllerResponseMetaData(target, handlerName).value, statusCode)
    {
      match GetAllControllerResponseMetaData(target, handlerName)
      case None => None
      case Some(metas) => FindWithStatus(metas, statusCode)
    }
  }

  /**
   * `getAll` after n defines on a fresh handler: `undefined` when n is 0,
   * otherwise exactly the n entries in call order.
   */
  lemma DefinedResponsesInCallOrder(responses: map<(Obj, string), seq<ResponseMeta>>, key: (Obj, string), metas: seq<ResponseMeta>)
    requires key !in responses
    ensures key in AppendedAll(responses, key, metas) <==> |metas| > 0
    ensures |metas| > 0 ==> AppendedAll(responses, key, metas)[key] == metas
  {
    AppendsInCallOrder(responses, key, metas);
  }
}
