/**
 * Assembly of the OpenAPI document input per controller: one response
 * entry per status, one path entry per route, from the metadata registry.
 */
module SwaggerRegister {
  import opened Wrappers
  import opened Decimal
  import opened Runtime
  import opened OapiMetadata

  /** The string value of the `HttpMethod` union, used as an object key. */
  function MethodKey(m: HttpMethod): (k: string)
    ensures k == "get" <==> m == Get
    ensures k == "post" <==> m == Post
  {
    match m
    case Get => "get"
    case Post => "post"
  }

  /** A schema in a media type: `{type: 'string'}` or a zod schema itself. */
  datatype Schema = StringSchema | Zod(schema: SchemaId)

  datatype ResponseObject = ResponseObject(description: string, content: map<string, Schema>)

  /** A responses object, keyed by the status rendered as a property key. */
  type Responses = map<string, ResponseObject>

  /** The entry a return type describes, whatever its status. */
  function ResponseObjectFor(returnType: ReturnType): ResponseObject {
    match returnType
    case ViewRendererClass => ResponseObject("ViewRenderer", map["text/html" := StringSchema])
    case ZodSchema(s) => ResponseObject("ZodTypeAny", map["application/json" := Zod(s)])
  }

  /**
   * `makeResponseMeta`: exactly one key, the status as a property key
   * (which `Number` reads back as the status); a ViewRenderer answers
   * `text/html` with a string schema, anything else `application/json`
   * with the return type as its schema.
   */
  function MakeResponseMeta(status: int, returnType: ReturnType): (r: Responses)
    ensures r.Keys == {IntToDecimal(status)}
    ensures forall k :: k in r ==> ToNumber(k) == Int(status)
    ensures returnType == ViewRendererClass ==>
              r[IntToDecimal(status)].description == "ViewRenderer"
              && r[IntToDecimal(status)].content == map["text/html" := StringSchema]
    ensures returnType.ZodSchema? ==>
              r[IntToDecimal(status)].description == "ZodTypeAny"
              && r[IntToDecimal(status)].content == map["application/json" := Zod(returnType.schema)]
  {
    DecimalRoundTrip(status);
    map[IntToDecimal(status) := ResponseObjectFor(returnType)]
  }

  /** The response keys of metas: each status code written in decimal. */
  function StatusKeys(metas: seq<ResponseMeta>): set<string> {
    set m | m in metas :: IntToDecimal(m.statusCode)
  }

  /** The `responses` reduction: a left fold where each spread overrides earlier keys. */
  function ResponsesOf(metas: seq<ResponseMeta>): (r: Responses)
    ensures r.Keys == StatusKeys(metas)
    decreases |metas|
  {
    if metas == [] then map[]
    else
      var last := metas[|metas| - 1];
      var prefix := metas[..|metas| - 1];
      assert metas == prefix + [last];
      assert StatusKeys(metas) == StatusKeys(prefix) + {IntToDecimal(last.statusCode)};
      ResponsesOf(prefix) + MakeResponseMeta(last.statusCode, last.returnType)
  }

  /** The last entry of metas with the given status: the reference for "the later entry wins". */
  function LastWithStatus(metas: seq<ResponseMeta>, status: int): (r: Option<ResponseMeta>)
    ensures r.Some? ==> r.value in metas && r.value.statusCode == status
    ensures r.None? ==> forall m :: m in metas ==> m.statusCode != status
    ensures r.Some? ==> exists k :: 0 <= k < |metas| && metas[k] == r.value
                                    && forall j :: k < j < |metas| ==> metas[j].statusCode != status
    decreases |metas|
  {
    if metas == [] then None
    else if metas[|metas| - 1].statusCode == status then Some(metas[|metas| - 1])
    else
      var prefix := metas[..|metas| - 1];
      var r := LastWithStatus(prefix, status);
      assert metas == prefix + [metas[|metas| - 1]];
      assert r.Some? ==> exists k :: 0 <= k < |metas| && metas[k] == r.value
                                     && forall j :: k < j < |metas| ==> metas[j].statusCode != status by {
        if r.Some? {
          var k :| 0 <= k < |prefix| && prefix[k] == r.value
                   && forall j :: k < j < |prefix| ==> prefix[j].statusCode != status;
          assert metas[k] == r.value;
        }
      }
      r
  }

  /** For a duplicate status the later entry's description and content win. */
  lemma {:induction false} ResponsesLaterWins(metas: seq<ResponseMeta>, status: int)
    ensures IntToDecimal(status) in ResponsesOf(metas) <==> LastWithStatus(metas, status).Some?
    ensures LastWithStatus(metas, status).Some? ==>
              ResponsesOf(metas)[IntToDecimal(status)] == ResponseObjectFor(LastWithStatus(metas, status).value.returnType)
    decreases |metas|
  {
    if metas != [] {
      var last := metas[|metas| - 1];
      var prefix := metas[..|metas| - 1];
      ResponsesLaterWins(prefix, status);
      assert ResponsesOf(metas) == ResponsesOf(prefix) + MakeResponseMeta(last.statusCode, last.returnType);
      var key, added := IntToDecimal(status), MakeResponseMeta(last.statusCode, last.returnType);
      if last.statusCode == status {
        assert key in added && ResponsesOf(metas)[key] == added[key];
      } else {
        assert LastWithStatus(metas, status) == LastWithStatus(prefix, status);
        if IntToDecimal(last.statusCode) == key {
          DecimalInjective(last.statusCode, status);
        }
        assert key !in added;
      }
    }
  }

  /** An OpenAPI parameter object; the register always emits none. */
  datatype ParameterObject = ParameterObject(name: string)

  datatype Operation = Operation(operationId: string, responses: Responses, parameters: seq<ParameterObject>)

  /** A path item, keyed by the method string. */
  type PathItem = map<string, Operation>

  /** `${basePath}${routeMeta.path}`: a missing base path renders as `undefined`. */
  function PathKey(basePath: Option<string>, path: string): (k: string)
    ensures basePath.Some? ==> k == basePath.value + path
    ensures basePath.None? ==> k == "undefined" + path
  {
    (if basePath.None? then "undefined" else basePath.value) + path
  }

  /** Calling `reduce` on the missing response list throws. */
  const NoResponsesError: string := "TypeError: cannot read reduce of undefined"

  /** The value assigned for one route: a single method key carrying the operation. */
  function PathItemFor(route: RouteMeta, responseMetas: Option<seq<ResponseMeta>>): (r: Result<PathItem, string>)
    ensures r.Failure? <==> responseMetas.None?
    ensures r.Failure? ==> r.error == NoResponsesError
    ensures r.Success? ==> r.value.Keys == {MethodKey(route.httpMethod)}
    ensures r.Success? ==>
              r.value[MethodKey(route.httpMethod)] == Operation(route.handlerName, ResponsesOf(responseMetas.value), [])
  {
    match responseMetas
    case None => Failure(NoResponsesError)
    case Some(metas) => Success(map[MethodKey(route.httpMethod) := Operation(route.handlerName, ResponsesOf(metas), [])])
  }

  /** The response list the registry holds for a route's handler (`undefined` if none). */
  function HandlerResponses(responses: map<(Obj, string), seq<ResponseMeta>>, controller: Obj, handlerName: string): Option<seq<ResponseMeta>> {
    if (controller, handlerName) in responses then Some(responses[(controller, handlerName)]) else None
  }

  /**
   * The `paths` reduction: a left fold assigning one key per route, so a
   * later route with the same path key replaces the whole entry. It throws
   * at the first route whose handler has no response metadata.
   */
  function PathsOf(basePath: Option<string>, routes: seq<RouteMeta>,
                   responses: map<(Obj, string), seq<ResponseMeta>>, controller: Obj): (r: Result<map<string, PathItem>, string>)
    ensures r.Failure? <==> exists route :: route in routes && HandlerResponses(responses, controller, route.handlerName).None?
    ensures r.Failure? ==> r.error == NoResponsesError
    ensures r.Success? ==> r.value.Keys == set route | route in routes :: PathKey(basePath, route.path)
    decreases |routes|
  {
    if routes == [] then Success(map[])
    else
      var last := routes[|routes| - 1];
      var prefix := routes[..|routes| - 1];
      assert routes == prefix + [last];
      match PathsOf(basePath, prefix, responses, controller)
      case Failure(e) => Failure(e)
      case Success(acc) =>
        match PathItemFor(last, HandlerResponses(responses, controller, last.handlerName))
        case Failure(e) => Failure(e)
        case Success(item) => Success(acc[PathKey(basePath, last.path) := item])
  }

  /** The last route of routes whose path key is key: the reference for "the later route replaces". */
  function LastRouteWithKey(basePath: Option<string>, routes: seq<RouteMeta>, key: string): (r: Option<RouteMeta>)
    ensures r.Some? ==> r.value in routes && PathKey(basePath, r.value.path) == key
    ensures r.None? ==> forall route :: route in routes ==> PathKey(basePath, route.path) != key
    ensures r.Some? ==> exists k :: 0 <= k < |routes| && routes[k] == r.value
                                    && forall j :: k < j < |routes| ==> PathKey(basePath, routes[j].path) != key
    decreases |routes|
  {
    if routes == [] then None
    else if PathKey(basePath, routes[|routes| - 1].path) == key then Some(routes[|routes| - 1])
    else
      var prefix := routes[..|routes| - 1];
      var r := LastRouteWithKey(basePath, prefix, key);
      assert routes == prefix + [routes[|routes| - 1]];
      assert r.Some? ==> exists k :: 0 <= k < |routes| && routes[k] == r.value
                                     && forall j :: k < j < |routes| ==> PathKey(basePath, routes[j].path) != key by {
        if r.Some? {
          var k :| 0 <= k < |prefix| && prefix[k] == r.value
                   && forall j :: k < j < |prefix| ==> PathKey(basePath, prefix[j].path) != key;
          assert routes[k] == r.value;
        }
      }
      r
  }

  /**
   * Each path entry holds exactly one method key, that of the last route
   * with the path, with its handler as `operationId` and no parameters.
   */
  lemma {:induction false} PathsLaterRouteReplaces(basePath: Option<string>, routes: seq<RouteMeta>,
                                                    responses: map<(Obj, string), seq<ResponseMeta>>, controller: Obj, key: string)
    requires PathsOf(basePath, routes, responses, controller).Success?
    requires key in PathsOf(basePath, routes, responses, controller).value
    ensures LastRouteWithKey(basePath, routes, key).Some?
    ensures var route := LastRouteWithKey(basePath, routes, key).value;
            var item := PathsOf(basePath, routes, responses, controller).value[key];
            item.Keys == {MethodKey(route.httpMethod)}
            && item[MethodKey(route.httpMethod)].operationId == route.handlerName
            && item[MethodKey(route.httpMethod)].parameters == []
            && item[MethodKey(route.httpMethod)].responses
               == ResponsesOf(responses[(controller, route.handlerName)])
    decreases |routes|
  {
    var last := routes[|routes| - 1];
    var prefix := routes[..|routes| - 1];
    if PathKey(basePath, last.path) != key {
      PathsLaterRouteReplaces(basePath, prefix, responses, controller, key);
    }
  }

  datatype SwaggerConfig = SwaggerConfig(swaggerVer: string, title: string, version: string)

  /** What is handed to `createZodSwaggerDocument` for one controller. */
  datatype DocumentInput = DocumentInput(openapi: string, title: string, version: string, paths: map<string, PathItem>)

  /** The document input for one controller, read from the registry. */
  function DocumentFor(config: SwaggerConfig, store: MetadataStore, controller: Obj): (r: Result<DocumentInput, string>)
    reads store
    ensures r.Failure? <==> exists route :: route in store.GetControllerRoutesMetaData(controller)
                                             && store.GetAllControllerResponseMetaData(controller, route.handlerName).None?
    ensures r.Failure? ==> r.error == NoResponsesError
    ensures r.Success? ==>
              && r.value.openapi == config.swaggerVer && r.value.title == config.title && r.value.version == config.version
              && r.value.paths.Keys == set route | route in store.GetControllerRoutesMetaData(controller)
                                                :: PathKey(store.GetBasePathMetaData(controller), route.path)
  {
    match PathsOf(store.GetBasePathMetaData(controller), store.GetControllerRoutesMetaData(controller), store.responses, controller)
    case Failure(e) => Failure(e)
    case Success(paths) => Success(DocumentInput(config.swaggerVer, config.title, config.version, paths))
  }

  /**
   * `registerSwaggerDoc`: one document per controller, in order. The first
   * controller whose paths reduction throws ends the loop with that error.
   */
  method RegisterSwaggerDoc(config: SwaggerConfig, store: MetadataStore, controllers: seq<Obj>)
    returns (docs: seq<DocumentInput>, error: Option<string>)
    ensures |docs| <= |controllers|
    ensures forall i :: 0 <= i < |docs| ==> DocumentFor(config, store, controllers[i]) == Success(docs[i])
    ensures error.None? <==> |docs| == |controllers|
    ensures error.Some? ==> DocumentFor(config, store, controllers[|docs|]) == Failure(error.value)
  {
    docs := [];
    error := None;
    var i := 0;
    while i < |controllers|
      invariant i == |docs| <= |controllers|
      invariant forall j :: 0 <= j < i ==> DocumentFor(config, store, controllers[j]) == Success(docs[j])
    {
      var doc := DocumentFor(config, store, controllers[i]);
      if doc.Failure? {
        error := Some(doc.error);
        return;
      }
      docs := docs + [doc.value];
      i := i + 1;
    }
  }
}
