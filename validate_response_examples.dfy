/**
 * Small syntax trees from the rule's test suite, and a file that shows
 * what the parent link does to the rule as a whole.
 */
module ValidateResponseExamples {
  import opened Wrappers
  import opened Estree
  import opened ReturnWalk
  import opened ValidateResponse

  /** `@Response(200, [UserDTO.z, SomethingDTO.z])`, the decorator at node 0. */
  function ArrayResponseDecorator(): (a: Arena)
    ensures |a| == 11
  {
    [ Node(Decorator(1), None),
      Node(CallExpression(2, [3, 4], None), Some(0)),
      Node(Identifier("Response"), Some(1)),
      Node(Literal(NumberValue(200)), Some(1)),
      Node(ArrayExpression([Some(5), Some(8)]), Some(1)),
      Node(MemberExpression(6, 7), Some(4)),
      Node(Identifier("UserDTO"), Some(5)),
      Node(Identifier("z"), Some(5)),
      Node(MemberExpression(9, 10), Some(4)),
      Node(Identifier("SomethingDTO"), Some(8)),
      Node(Identifier("z"), Some(8)) ]
  }

  /** The nodes of `ArrayResponseDecorator`, one by one. */
  predicate ArrayResponseShape(a: Arena) {
    && |a| == 11
    && a[0] == Node(Decorator(1), None)
    && a[1] == Node(CallExpression(2, [3, 4], None), Some(0))
    && a[2] == Node(Identifier("Response"), Some(1))
    && a[3] == Node(Literal(NumberValue(200)), Some(1))
    && a[4] == Node(ArrayExpression([Some(5), Some(8)]), Some(1))
    && a[5] == Node(MemberExpression(6, 7), Some(4))
    && a[6] == Node(Identifier("UserDTO"), Some(5))
    && a[7] == Node(Identifier("z"), Some(5))
    && a[8] == Node(MemberExpression(9, 10), Some(4))
    && a[9] == Node(Identifier("SomethingDTO"), Some(8))
    && a[10] == Node(Identifier("z"), Some(8))
  }

  lemma ArrayResponseDecoratorShape()
    ensures ArrayResponseShape(ArrayResponseDecorator())
  {
  }

  /** An array of `Type.z` declares each owner, in order. */
  lemma ArrayResponseTypes(a: Arena)
    requires ArrayResponseShape(a)
    ensures ResponseInfoOf(a, 0) == Some(ResponseInfo(200, ["UserDTO", "SomethingDTO"], 0))
  {
    assert PresentElements([Some(5), Some(8)]) == [5, 8];
    assert IsZSchema(a, 5) && IsZSchema(a, 8);
    assert ZSchemaOwners(a, [5, 8]) == ["UserDTO", "SomethingDTO"];
    assert TypeNamesOf(a, 4) == Some(["UserDTO", "SomethingDTO"]);
    assert IsResponseDecorator(a, 0);
  }

  /** `return this.rtn<generic>(status, {})`, the return at node 0. */
  function RtnReturn(generic: string, status: int): (a: Arena)
    ensures |a| == 10
  {
    [ Node(ReturnStatement(Some(1)), None),
      Node(CallExpression(2, [5, 6], Some(7)), Some(0)),
      Node(MemberExpression(3, 4), Some(1)),
      Node(ThisExpression, Some(2)),
      Node(Identifier("rtn"), Some(2)),
      Node(Literal(NumberValue(status)), Some(1)),
      Node(ObjectExpression([]), Some(1)),
      Node(TSTypeParameterInstantiation([8]), Some(1)),
      Node(TSTypeReference(9), Some(7)),
      Node(Identifier(generic), Some(8)) ]
  }

  /** The verdict on `this.rtn<G>(status, ...)`: an undeclared status, a type not declared for it, or accepted. */
  lemma RtnReturnVerdict(a: Arena, generic: string, status: int, expectedMap: map<int, seq<string>>)
    requires a == RtnReturn(generic, status)
    ensures |Expected(expectedMap, status)| == 0 ==>
              ValidateReturnFormat(a, 0, expectedMap) == Some(Diagnostic(5, InvalidReturnStatus(status)))
    ensures |Expected(expectedMap, status)| > 0 && generic !in Expected(expectedMap, status) ==>
              ValidateReturnFormat(a, 0, expectedMap)
                == Some(Diagnostic(7, ReturnTypeNotMatch(generic, Expected(expectedMap, status), status)))
    ensures |Expected(expectedMap, status)| > 0 && generic in Expected(expectedMap, status) ==>
              ValidateReturnFormat(a, 0, expectedMap).None?
  {
    assert IsThisRtnCall(a, 1);
    assert RtnStatus(a, 1) == Some(status);
    assert RtnGeneric(a, 1) == Some((7, generic));
  }

  /** The status map of `@Response(200, UserDTO)` and `@Response(402, ViewRenderer)`. */
  function UserControllerMap(): map<int, seq<string>> {
    map[200 := ["UserDTO"], 402 := ["ViewRenderer"]]
  }

  /** The test cases: `this.rtn<UserDTO>(200, ...)` and `this.rtn<ViewRenderer>(402, ...)` pass, `this.rtn<SomethingDTO>(200, ...)` does not. */
  lemma UserControllerCases(a1: Arena, a2: Arena, a3: Arena)
    requires a1 == RtnReturn("UserDTO", 200)
    requires a2 == RtnReturn("ViewRenderer", 402)
    requires a3 == RtnReturn("SomethingDTO", 200)
    ensures ValidateReturnFormat(a1, 0, UserControllerMap()).None?
    ensures ValidateReturnFormat(a2, 0, UserControllerMap()).None?
    ensures ValidateReturnFormat(a3, 0, UserControllerMap())
         == Some(Diagnostic(7, ReturnTypeNotMatch("SomethingDTO", ["UserDTO"], 200)))
  {
    RtnReturnVerdict(a1, "UserDTO", 200, UserControllerMap());
    RtnReturnVerdict(a2, "ViewRenderer", 402, UserControllerMap());
    RtnReturnVerdict(a3, "SomethingDTO", 200, UserControllerMap());
  }

  /**
   * A controller and, after it, a helper function with a bare `return;`:
   * 0 Program, 1 the class, 2-4 `@BasePath()`, 5 the method `getUser`,
   * 6-10 `@Response(200, UserDTO)`, 11 its key, 12 its function, 13 its
   * (empty) body, 14 the helper, 15 its body, 16 its `return;`.
   */
  function ControllerAndHelper(): (a: Arena)
    ensures |a| == 17
  {
    [ Node(OtherNode([1, 14]), None),
      Node(ClassDeclaration(Some([2]), [5]), Some(0)),
      Node(Decorator(3), Some(1)),
      Node(CallExpression(4, [], None), Some(2)),
      Node(Identifier("BasePath"), Some(3)),
      Node(MethodDefinition(NormalMethod, Some([6]), 11, 12), Some(1)),
      Node(Decorator(7), Some(5)),
      Node(CallExpression(8, [9, 10], None), Some(6)),
      Node(Identifier("Response"), Some(7)),
      Node(Literal(NumberValue(200)), Some(7)),
      Node(Identifier("UserDTO"), Some(7)),
      Node(Identifier("getUser"), Some(5)),
      Node(FunctionExpression([], Some(13)), Some(5)),
      Node(BlockStatement([]), Some(12)),
      Node(OtherNode([15]), Some(0)),
      Node(BlockStatement([16]), Some(14)),
      Node(ReturnStatement(None), Some(15)) ]
  }

  /** The nodes of `ControllerAndHelper`, one by one. */
  predicate ControllerAndHelperShape(a: Arena) {
    && |a| == 17
    && a[0] == Node(OtherNode([1, 14]), None)
    && a[1] == Node(ClassDeclaration(Some([2]), [5]), Some(0))
    && a[2] == Node(Decorator(3), Some(1))
    && a[3] == Node(CallExpression(4, [], None), Some(2))
    && a[4] == Node(Identifier("BasePath"), Some(3))
    && a[5] == Node(MethodDefinition(NormalMethod, Some([6]), 11, 12), Some(1))
    && a[6] == Node(Decorator(7), Some(5))
    && a[7] == Node(CallExpression(8, [9, 10], None), Some(6))
    && a[8] == Node(Identifier("Response"), Some(7))
    && a[9] == Node(Literal(NumberValue(200)), Some(7))
    && a[10] == Node(Identifier("UserDTO"), Some(7))
    && a[11] == Node(Identifier("getUser"), Some(5))
    && a[12] == Node(FunctionExpression([], Some(13)), Some(5))
    && a[13] == Node(BlockStatement([]), Some(12))
    && a[14] == Node(OtherNode([15]), Some(0))
    && a[15] == Node(BlockStatement([16]), Some(14))
    && a[16] == Node(ReturnStatement(None), Some(15))
  }

  lemma ControllerAndHelperHasShape()
    ensures ControllerAndHelperShape(ControllerAndHelper())
  {
  }

  /** ESLint's listener calls for that file: the class, then the helper's return. */
  function ControllerAndHelperEvents(): seq<Event> {
    [ClassDeclarationEvent(1), ReturnStatementEvent(16)]
  }

  /** The route from the method body up through `parent` and down into the helper's return. */
  lemma BodyReachesHelperReturn(a: Arena)
    requires ControllerAndHelperShape(a)
    ensures Reaches(a, CollectMode, 13, 16)
  {
    RootReachesHelperReturn(a);
    ExtendRoute(a, CollectMode, 1, 0, 16);
    ExtendRoute(a, CollectMode, 5, 1, 16);
    ExtendRoute(a, CollectMode, 12, 5, 16);
    ExtendRoute(a, CollectMode, 13, 12, 16);
  }

  /** From the root down into the helper's return. */
  lemma RootReachesHelperReturn(a: Arena)
    requires ControllerAndHelperShape(a)
    ensures Reaches(a, CollectMode, 0, 16)
  {
    ReachesSelf(a, CollectMode, 16);
    ExtendRoute(a, CollectMode, 15, 16, 16);
    ExtendRoute(a, CollectMode, 14, 15, 16);
    ExtendRoute(a, CollectMode, 0, 14, 16);
  }

  /** `getUser` declares the single response 200 -> UserDTO. */
  lemma GetUserResponses(a: Arena)
    requires ControllerAndHelperShape(a)
    ensures ResponsesOf(a, MethodDecorators(a, 5)) == [ResponseInfo(200, ["UserDTO"], 6)]
  {
    assert MethodDecorators(a, 5) == [6];
    assert ResponseInfoOf(a, 6) == Some(ResponseInfo(200, ["UserDTO"], 6));
    assert [6][..0] == [];
  }

  /** The class handler runs its loop once, on `getUser`. */
  lemma ClassStepIsGetUser(a: Arena, mode: WalkMode)
    requires ControllerAndHelperShape(a)
    ensures ClassStep(a, mode, InitialState, 1)
         == Register(a, mode, InitialState, 5, [ResponseInfo(200, ["UserDTO"], 6)])
  {
    assert DecoratorCall(a, a[1].kind.decorators.value[0], "BasePath").Some?;
    assert HasBasePath(a, 1);
    assert [5][..0] == [];
    assert MembersFold(a, mode, InitialState, [5]) == MemberStep(a, mode, InitialState, 5);
    GetUserResponses(a);
    assert IsPlainMethod(a, 5);
    assert MemberStep(a, mode, InitialState, 5) == Register(a, mode, InitialState, 5, [ResponseInfo(200, ["UserDTO"], 6)]);
  }

  lemma UserDTONormalized()
    ensures NormalizeAll(["UserDTO"]) == ["UserDTO"]
  {
    assert '.' !in "UserDTO";
  }

  /** The walk from `getUser`'s body collects the helper's return. */
  lemma HelperReturnCollected(a: Arena)
    requires ControllerAndHelperShape(a)
    ensures 16 in Dfs(a, CollectMode, 13, {}).1
  {
    BodyReachesHelperReturn(a);
    DfsFindsReachableReturns(a, CollectMode, 13);
  }

  /** The class handler registers `getUser` with the single response 200 -> UserDTO. */
  lemma ControllerRegistersGetUser(a: Arena, mode: WalkMode)
    requires ControllerAndHelperShape(a)
    ensures var s := ClassStep(a, mode, InitialState, 1);
            && s.diagnostics == []
            && s.statusTypeCache == map[5 := map[200 := ["UserDTO"]]]
            && s.returnToMethodMap == MapReturns(map[], Dfs(a, mode, 13, {}).1, 5)
  {
    ClassStepIsGetUser(a, mode);
    var rs := [ResponseInfo(200, ["UserDTO"], 6)];
    assert DuplicateReports(rs) == [] by {
      assert rs[..0] == [];
    }
    assert StatusTypeMap(rs) == map[200 := ["UserDTO"]] by {
      assert rs[..0] == [];
      UserDTONormalized();
    }
    assert MethodBody(a, 5) == Some(13);
  }

  /** The file's two listener calls: the class handler, then the return handler on the helper's return. */
  lemma ControllerAndHelperLint(a: Arena, mode: WalkMode)
    requires ControllerAndHelperShape(a)
    ensures ReturnEventsAreReturns(a, ControllerAndHelperEvents())
    ensures LintSpec(a, mode, ControllerAndHelperEvents()) == ReturnStep(a, ClassStep(a, mode, InitialState, 1), 16)
  {
    var events := ControllerAndHelperEvents();
    assert ReturnEventsAreReturns(a, events);
    assert events[..1][..0] == [];
    assert LintSpec(a, mode, events[..1]) == ClassStep(a, mode, InitialState, 1);
    assert events[..2][..1] == events[..1];
  }

  /**
   * As written, the helper's `return;` is checked against `getUser`'s
   * responses and reported as an empty return, though it is not in any
   * controller method.
   */
  lemma HelperReturnReportedAsWritten(a: Arena)
    requires ControllerAndHelperShape(a)
    ensures ReturnEventsAreReturns(a, ControllerAndHelperEvents())
    ensures LintSpec(a, CollectMode, ControllerAndHelperEvents()).diagnostics == [Diagnostic(16, EmptyReturn)]
  {
    ControllerAndHelperLint(a, CollectMode);
    HelperReturnCollected(a);
    ControllerRegistersGetUser(a, CollectMode);
    EmptyReturnFirst(a, 16, map[200 := ["UserDTO"]]);
  }

  /** The helper's return is not inside `getUser`'s body. */
  lemma HelperReturnOutsideGetUser(a: Arena)
    requires ControllerAndHelperShape(a)
    ensures !IsAncestor(a, 13, 16)
  {
    forall k: nat
      ensures Climb(a, 16, k) != Some(13)
    {
      if k >= 1 {
        assert Climb(a, 16, k) == Climb(a, 15, k - 1);
      }
      if k >= 2 {
        assert Climb(a, 15, k - 1) == Climb(a, 14, k - 2);
      }
      if k >= 3 {
        assert Climb(a, 14, k - 2) == Climb(a, 0, k - 3);
      }
    }
  }

  /** Without `parent` links the walk from `getUser`'s empty body finds nothing. */
  lemma EmptyBodyFindsNothing(a: Arena, mode: WalkMode)
    requires ControllerAndHelperShape(a) && !mode.followParent
    ensures Dfs(a, mode, 13, {}).1 == []
  {
    DfsVisit(a, mode, 13, {});
    assert Succ(a, mode, 13) == [];
  }

  /** With the corrected walk the same file yields no report. */
  lemma HelperReturnIgnoredWhenCorrected(a: Arena)
    requires ControllerAndHelperShape(a)
    ensures ReturnEventsAreReturns(a, ControllerAndHelperEvents())
    ensures LintSpec(a, WalkMode(true, false), ControllerAndHelperEvents()).diagnostics == []
  {
    var mode := WalkMode(true, false);
    ControllerAndHelperLint(a, mode);
    EmptyBodyFindsNothing(a, mode);
    ControllerRegistersGetUser(a, mode);
  }

  /** The controller-and-helper file, as written and corrected. */
  lemma ControllerAndHelperFinding()
    ensures ReturnEventsAreReturns(ControllerAndHelper(), ControllerAndHelperEvents())
    ensures LintSpec(ControllerAndHelper(), CollectMode, ControllerAndHelperEvents()).diagnostics
         == [Diagnostic(16, EmptyReturn)]
    ensures !IsAncestor(ControllerAndHelper(), 13, 16)
    ensures LintSpec(ControllerAndHelper(), WalkMode(true, false), ControllerAndHelperEvents()).diagnostics == []
  {
    ControllerAndHelperHasShape();
    HelperReturnOutsideGetUser(ControllerAndHelper());
    HelperReturnReportedAsWritten(ControllerAndHelper());
    HelperReturnIgnoredWhenCorrected(ControllerAndHelper());
  }
}
