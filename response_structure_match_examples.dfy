/** Small syntax trees for the earlier rule: an undecorated method, and a method returning `{ status, res }`. */
module ResponseStructureMatchExamples {
  import opened Wrappers
  import opened Decimal
  import opened Estree
  import opened ReturnWalk
  import opened ResponseStructureMatch

  /** `getUser() {}` as a parser that gives every method a decorator array reads it. */
  function UndecoratedMethod(): (a: Arena)
    ensures |a| == 4
  {
    [ Node(MethodDefinition(NormalMethod, Some([]), 1, 2), None),
      Node(Identifier("getUser"), Some(0)),
      Node(FunctionExpression([], Some(3)), Some(0)),
      Node(BlockStatement([]), Some(2)) ]
  }

  /** As written the listener throws on it; guarded it reports nothing. */
  lemma UndecoratedMethodCrashes(a: Arena)
    requires a == UndecoratedMethod()
    ensures MethodDefinitionSpec(a, FindMode, 0) == Crashed
    ensures MethodDefinitionGuardedSpec(a, FindMode, 0) == Checked([], [])
  {
    assert Decorators(a, 0) == Some([]);
    assert BodyBlock(a, 0) == Some(3);
  }

  /**
   * `@Response(200, UserDTO) getUser() { return { status: <status>, res: user }; }`:
   * 0 the method, 1-5 the decorator, 6 its key, 7 its function, 8 the body,
   * 9 the return, 10 the object, 11-13 `status`, 14-16 `res`.
   */
  predicate StatusReturnShape(a: Arena, status: int) {
    && |a| == 17
    && a[0] == Node(MethodDefinition(NormalMethod, Some([1]), 6, 7), None)
    && a[1] == Node(Decorator(2), Some(0))
    && a[2] == Node(CallExpression(3, [4, 5], None), Some(1))
    && a[3] == Node(Identifier("Response"), Some(2))
    && a[4] == Node(Literal(NumberValue(200)), Some(2))
    && a[5] == Node(Identifier("UserDTO"), Some(2))
    && a[6] == Node(Identifier("getUser"), Some(0))
    && a[7] == Node(FunctionExpression([], Some(8)), Some(0))
    && a[8] == Node(BlockStatement([9]), Some(7))
    && a[9] == Node(ReturnStatement(Some(10)), Some(8))
    && a[10] == Node(ObjectExpression([11, 14]), Some(9))
    && a[11] == Node(Property(12, 13), Some(10))
    && a[12] == Node(Identifier("status"), Some(11))
    && a[13] == Node(Literal(NumberValue(status)), Some(11))
    && a[14] == Node(Property(15, 16), Some(10))
    && a[15] == Node(Identifier("res"), Some(14))
    && a[16] == Node(Identifier("user"), Some(14))
  }

  function ElementsOf(s: seq<nat>): set<nat> {
    set y | y in s
  }

  /** A sequence without repeats has as many elements as its set of elements. */
  lemma {:induction false} DistinctCard(s: seq<nat>)
    requires Distinct(s)
    ensures |ElementsOf(s)| == |s|
    decreases |s|
  {
    if s != [] {
      var prefix := s[..|s| - 1];
      var last := s[|s| - 1];
      assert Distinct(prefix);
      DistinctCard(prefix);
      assert s == prefix + [last];
      assert last !in prefix;
      var before := ElementsOf(prefix);
      assert ElementsOf(s) == before + {last};
      assert last !in before;
      assert |before + {last}| == |before| + 1;
    }
  }

  /** A sequence without repeats whose elements are exactly x is [x]. */
  lemma SingletonOf(s: seq<nat>, x: nat)
    requires Distinct(s)
    requires forall y :: y in s <==> y == x
    ensures s == [x]
  {
    DistinctCard(s);
    assert ElementsOf(s) == {x};
    assert s[0] in s;
  }

  /** Node 9 is the only return in the tree. */
  lemma OnlyReturn(a: Arena, status: int, y: nat)
    requires StatusReturnShape(a, status)
    requires IsReturn(a, y)
    ensures y == 9
  {
  }

  lemma BodyReachesReturn(a: Arena, status: int)
    requires StatusReturnShape(a, status)
    ensures Reaches(a, FindMode, 8, 9)
  {
    ReachesSelf(a, FindMode, 9);
    ExtendRoute(a, FindMode, 8, 9, 9);
  }

  /** The walk from the body collects the one return. */
  lemma CollectsTheReturn(a: Arena, status: int)
    requires StatusReturnShape(a, status)
    ensures Dfs(a, FindMode, 8, {}).1 == [9]
  {
    var found := Dfs(a, FindMode, 8, {}).1;
    DfsFindsReachableReturns(a, FindMode, 8);
    BodyReachesReturn(a, status);
    forall y
      ensures y in found <==> y == 9
    {
      if y in found {
        OnlyReturn(a, status, y);
      }
    }
    SingletonOf(found, 9);
  }

  /** The decorator is accepted under the key "200". */
  lemma ScansResponse200(a: Arena, status: int)
    requires StatusReturnShape(a, status)
    ensures Scan(a, [1]) == DecoratorScan(map[IntToDecimal(200) := 1], 1, [])
  {
    assert Classify(a, 1) == Accepted(IntToDecimal(200));
    assert [1][..0] == [];
  }

  /** The return checked against the record `{ "200": decorator }`. */
  lemma CheckStatusReturn(a: Arena, status: int)
    requires StatusReturnShape(a, status)
    ensures status == 200 ==> CheckReturn(a, map[IntToDecimal(200) := 1], 9) == Pending(PendingCheck(9, 11, 14, 1))
    ensures status != 200 ==> CheckReturn(a, map[IntToDecimal(200) := 1], 9) == Reported(Report(11, MissingResponse))
  {
    assert ReturnedObject(a, 9) == Some(10);
    assert FindReturnValue(a, [11, 14], "status") == Some(11);
    assert FindReturnValue(a, [11, 14], "res") == Some(14);
    assert NumberLiteral(a, a[11].kind.value) == Some(status);
    if status != 200 && IntToDecimal(status) == IntToDecimal(200) {
      DecimalInjective(status, 200);
    }
  }

  /** The method has a decorator and a block body, so the listener scans and checks. */
  lemma ListenerRunsScan(a: Arena, status: int)
    requires StatusReturnShape(a, status)
    ensures MethodDefinitionGuardedSpec(a, FindMode, 0) == AfterScan(a, Scan(a, [1]), Dfs(a, FindMode, 8, {}).1)
    ensures MethodDefinitionSpec(a, FindMode, 0) == AfterScanAsWritten(a, Scan(a, [1]), Dfs(a, FindMode, 8, {}).1)
  {
    assert BodyBlock(a, 0) == Some(8);
    assert Decorators(a, 0) == Some([1]);
  }

  /** A scan that accepted one decorator, followed by one return: that return's verdict alone. */
  lemma AfterOneReturn(a: Arena, record: map<string, nat>, ret: nat)
    ensures CheckReturn(a, record, ret).Reported? ==>
              AfterScan(a, DecoratorScan(record, 1, []), [ret]) == Checked([CheckReturn(a, record, ret).report], [])
    ensures CheckReturn(a, record, ret).Pending? ==>
              AfterScan(a, DecoratorScan(record, 1, []), [ret]) == Checked([], [CheckReturn(a, record, ret).check])
  {
    assert [ret][..0] == [];
    var v := ValidateReturns(a, record, [ret]);
    assert v == ReturnStep(a, record, ReturnsOutcome([], []), ret);
    assert AfterScan(a, DecoratorScan(record, 1, []), [ret]) == Checked([] + v.reports, v.pending);
    match CheckReturn(a, record, ret)
    case Reported(rep) =>
      assert v == ReturnsOutcome([rep], []);
    case Pending(p) =>
      assert v == ReturnsOutcome([], [p]);
  }

  /**
   * Status 200 is matched to the decorator: the corrected listener holds a
   * pending type check for it, and the listener as written throws there.
   * Any other status is reported on the `status` property by both.
   */
  lemma StatusReturnVerdict(a: Arena, status: int)
    requires StatusReturnShape(a, status)
    ensures status == 200 ==>
              MethodDefinitionGuardedSpec(a, FindMode, 0) == Checked([], [PendingCheck(9, 11, 14, 1)])
    ensures status == 200 ==> MethodDefinitionSpec(a, FindMode, 0) == Crashed
    ensures status != 200 ==>
              MethodDefinitionSpec(a, FindMode, 0) == Checked([Report(11, MissingResponse)], [])
    ensures status != 200 ==>
              MethodDefinitionGuardedSpec(a, FindMode, 0) == Checked([Report(11, MissingResponse)], [])
  {
    var record := map[IntToDecimal(200) := 1];
    ListenerRunsScan(a, status);
    CollectsTheReturn(a, status);
    ScansResponse200(a, status);
    assert MethodDefinitionGuardedSpec(a, FindMode, 0) == AfterScan(a, DecoratorScan(record, 1, []), [9]);
    CheckStatusReturn(a, status);
    AfterOneReturn(a, record, 9);
  }
}
