/**
 * The controller test's `MockController`, run through the registry: which
 * object each decorator writes on, and which object the test and the
 * swagger register read from.
 */
module OapiExamples {
  import opened Wrappers
  import opened Runtime
  import opened MetadataLists
  import opened OapiMetadata
  import opened SwaggerRegister

  /**
   * The method decorators of `getTest` in the order TypeScript applies
   * them (bottom-up), then `@BasePath` on the class. `@Response` and
   * `@Post` write on `target`, which for a method is the prototype, unless
   * onClass asks for `target.constructor`, the class, as the parameter
   * decorators use.
   */
  method DecorateMockController(store: MetadataStore, testSchema: SchemaId, onClass: bool)
    requires store.basePaths == map[] && store.routes == map[] && store.responses == map[]
    modifies store
    ensures var target := if onClass then ClassObj("MockController") else ProtoObj("MockController");
            && store.basePaths == map[ClassObj("MockController") := "/test"]
            && store.routes == map[target := [RouteMeta(Post, "/test-path", "getTest")]]
            && store.responses == map[(target, "getTest") :=
                 [ResponseMeta(400, ViewRendererClass), ResponseMeta(201, ZodSchema(testSchema))]]
  {
    var proto := ProtoObj("MockController");
    var target := if onClass then ConstructorOf(proto) else proto;
    var key := (target, "getTest");
    var view, created := ResponseMeta(400, ViewRendererClass), ResponseMeta(201, ZodSchema(testSchema));
    var route := RouteMeta(Post, "/test-path", "getTest");
    store.DefineControllerResponseMetaData(target, "getTest", view);
    assert [] + [view] == [view];
    assert store.responses == map[key := [view]];
    store.DefineControllerResponseMetaData(target, "getTest", created);
    assert ListAt(map[key := [view]], key) + [created] == [view, created];
    assert store.responses == map[key := [view]][key := [view, created]];
    store.DefineControllerRoutesMetaData(target, route);
    assert [] + [route] == [route];
    assert store.routes == map[target := [route]];
    store.DefineBasePathMetaData("/test", ConstructorOf(proto));
  }

  /**
   * The test as the decorators are written: it reads on
   * `mockController.constructor`, the class, which holds the base path
   * but neither the routes nor the responses. The swagger
   * register, reading on the same class, emits no path at all.
   */
  method MockControllerAsWritten(testSchema: SchemaId, config: SwaggerConfig)
    returns (basePath: Option<string>, routes: seq<RouteMeta>,
             all: Option<seq<ResponseMeta>>, created: Option<ResponseMeta>, doc: Result<DocumentInput, string>)
    ensures basePath == Some("/test")
    ensures routes == [] && all.None? && created.None?
    ensures doc == Success(DocumentInput(config.swaggerVer, config.title, config.version, map[]))
  {
    var store := new MetadataStore();
    DecorateMockController(store, testSchema, false);
    var cls := ConstructorOf(ProtoObj("MockController"));
    basePath := store.GetBasePathMetaData(cls);
    routes := store.GetControllerRoutesMetaData(cls);
    all := store.GetAllControllerResponseMetaData(cls, "getTest");
    created := store.FindControllerResponseMetaDataWithStatus(cls, "getTest", 201);
    doc := DocumentFor(config, store, cls);
  }

  /**
   * With `@Response` and `@Post` writing on `target.constructor`, as the
   * parameter decorators do, the test's lookups on the class succeed:
   * one `post` route, two responses, 201 the zod schema and 400 the view
   * renderer.
   */
  method MockControllerCorrected(testSchema: SchemaId)
    returns (routes: seq<RouteMeta>, all: Option<seq<ResponseMeta>>,
             created: Option<ResponseMeta>, view: Option<ResponseMeta>)
    ensures routes == [RouteMeta(Post, "/test-path", "getTest")]
    ensures all.Some? && |all.value| == 2
    ensures created == Some(ResponseMeta(201, ZodSchema(testSchema)))
    ensures view == Some(ResponseMeta(400, ViewRendererClass))
  {
    var store := new MetadataStore();
    DecorateMockController(store, testSchema, true);
    var cls := ConstructorOf(ProtoObj("MockController"));
    routes := store.GetControllerRoutesMetaData(cls);
    all := store.GetAllControllerResponseMetaData(cls, "getTest");
    assert all.value == [ResponseMeta(400, ViewRendererClass), ResponseMeta(201, ZodSchema(testSchema))];
    assert all.value[1..] == [ResponseMeta(201, ZodSchema(testSchema))];
    assert FindWithStatus(all.value, 201) == Some(ResponseMeta(201, ZodSchema(testSchema)));
    created := store.FindControllerResponseMetaDataWithStatus(cls, "getTest", 201);
    view := store.FindControllerResponseMetaDataWithStatus(cls, "getTest", 400);
  }

  /** The swagger register on the corrected registry: one path, `/test/test-path`. */
  method MockControllerCorrectedDocument(testSchema: SchemaId, config: SwaggerConfig)
    returns (doc: Result<DocumentInput, string>)
    ensures doc.Success? && doc.value.paths.Keys == {"/test/test-path"}
  {
    var store := new MetadataStore();
    DecorateMockController(store, testSchema, true);
    var cls := ConstructorOf(ProtoObj("MockController"));
    var route := RouteMeta(Post, "/test-path", "getTest");
    var routes, base := store.GetControllerRoutesMetaData(cls), store.GetBasePathMetaData(cls);
    assert routes == [route] && base == Some("/test");
    assert store.GetAllControllerResponseMetaData(cls, route.handlerName).Some?;
    doc := DocumentFor(config, store, cls);
    assert doc.Success?;
    KeysOfOneRoute(base, route);
    MockPathKey();
  }

  /** A controller with one route has one path key. */
  lemma KeysOfOneRoute(base: Option<string>, route: RouteMeta)
    ensures (set r | r in [route] :: PathKey(base, r.path)) == {PathKey(base, route.path)}
  {
  }

  lemma MockPathKey()
    ensures PathKey(Some("/test"), "/test-path") == "/test/test-path"
  {
  }
}
