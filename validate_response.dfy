/**
 * The `validate-response` lint rule: in a class decorated with
 * `@BasePath(...)`, every method's `@Response(status, type)` decorators
 * declare the statuses it may return, and every `return` of such a method
 * must be `this.rtn<Type>(status, res)` with a declared status and, when a
 * generic is given, one of that status's declared types.
 */
module ValidateResponse {
  import opened Wrappers
  import opened Estree
  import opened ReturnWalk

  datatype ResponseInfo = ResponseInfo(status: int, types: seq<string>, decorator: nat)

  datatype MessageId =
    | DuplicateStatus(status: int)
    | InvalidReturnStatus(status: int)
    | EmptyReturn
    | ReturnWithOutThisRtn
    | ReturnStatusShouldBeNumber
    | ReturnTypeNotMatch(generic: string, expected: seq<string>, status: int)

  /** A `context.report` call: the node reported on and the message with its data. */
  datatype Diagnostic = Diagnostic(node: nat, message: MessageId)

  // ---------------------------------------------------------------------------
  // Reading decorators

  /** The class carries a `@BasePath(...)` call decorator. */
  predicate HasBasePath(a: Arena, classNode: nat)
    ensures HasBasePath(a, classNode) ==> classNode < |a| && a[classNode].kind.ClassDeclaration?
    ensures classNode < |a| && a[classNode].kind.ClassDeclaration? && a[classNode].kind.decorators.None?
            ==> !HasBasePath(a, classNode)
  {
    && classNode < |a|
    && a[classNode].kind.ClassDeclaration?
    && a[classNode].kind.decorators.Some?
    && exists k :: 0 <= k < |a[classNode].kind.decorators.value|
                   && DecoratorCall(a, a[classNode].kind.decorators.value[k], "BasePath").Some?
  }

  /** `Type.z` written with an identifier object: that identifier's name. */
  predicate IsZSchema(a: Arena, i: nat) {
    && i < |a| && a[i].kind.MemberExpression?
    && IsIdentifierNamed(a, a[i].kind.property, "z")
    && a[i].kind.obj < |a| && a[a[i].kind.obj].kind.Identifier?
  }

  /** `Type.z`: a member expression whose property is named `z` and whose object has a name; that name. */
  function ZSchemaOwner(a: Arena, i: nat): (r: Option<string>)
    ensures r.Some? <==> IsZSchema(a, i)
    ensures r.Some? ==> a[i].kind.MemberExpression? && r.value == a[a[i].kind.obj].kind.name
  {
    if IsZSchema(a, i) then Some(a[a[i].kind.obj].kind.name) else None
  }

  /** The owners of the `Type.z` elements of an array, in order; other elements are dropped. */
  function ZSchemaOwners(a: Arena, els: seq<nat>): (r: seq<string>)
    ensures |r| <= |els|
    ensures forall n :: n in r ==> exists e :: e in els && ZSchemaOwner(a, e) == Some(n)
    decreases |els|
  {
    if els == [] then []
    else
      var rest := ZSchemaOwners(a, els[1..]);
      assert forall e :: e in els[1..] ==> e in els;
      assert forall e :: e in els ==> e == els[0] || e in els[1..];
      match ZSchemaOwner(a, els[0])
      case Some(n) => [n] + rest
      case None => rest
  }

  /** No `X.z` element is dropped. */
  lemma {:induction false} ZSchemaOwnersComplete(a: Arena, els: seq<nat>)
    ensures forall e :: e in els && IsZSchema(a, e) ==> ZSchemaOwner(a, e).value in ZSchemaOwners(a, els)
    decreases |els|
  {
    if els != [] {
      ZSchemaOwnersComplete(a, els[1..]);
      assert forall e :: e in els ==> e == els[0] || e in els[1..];
    }
  }

  /** An array of `X.z` elements only: one owner per element, in element order. */
  lemma {:induction false} ZSchemaOwnersInOrder(a: Arena, els: seq<nat>)
    requires forall e :: e in els ==> IsZSchema(a, e)
    ensures |ZSchemaOwners(a, els)| == |els|
    ensures forall k :: 0 <= k < |els| ==> Some(ZSchemaOwners(a, els)[k]) == ZSchemaOwner(a, els[k])
    decreases |els|
  {
    if els != [] {
      assert els[0] in els;
      assert forall e :: e in els[1..] ==> e in els;
      ZSchemaOwnersInOrder(a, els[1..]);
      var r := ZSchemaOwners(a, els);
      assert r == [ZSchemaOwner(a, els[0]).value] + ZSchemaOwners(a, els[1..]);
      forall k | 0 < k < |els|
        ensures Some(r[k]) == ZSchemaOwner(a, els[k])
      {
        assert els[k] == els[1..][k - 1];
      }
    }
  }

  /** Owners are read element by element: the owners of a concatenation are concatenated. */
  lemma {:induction false} ZSchemaOwnersAppend(a: Arena, els1: seq<nat>, els2: seq<nat>)
    ensures ZSchemaOwners(a, els1 + els2) == ZSchemaOwners(a, els1) + ZSchemaOwners(a, els2)
    decreases |els1|
  {
    if els1 == [] {
      assert els1 + els2 == els2;
    } else {
      var tail := els1[1..];
      assert (els1 + els2)[0] == els1[0];
      assert (els1 + els2)[1..] == tail + els2;
      ZSchemaOwnersAppend(a, tail, els2);
      var head := if IsZSchema(a, els1[0]) then [ZSchemaOwner(a, els1[0]).value] else [];
      assert ZSchemaOwners(a, els1) == head + ZSchemaOwners(a, tail);
      assert ZSchemaOwners(a, els1 + els2) == head + ZSchemaOwners(a, tail + els2);
      ConcatAssoc(head, ZSchemaOwners(a, tail), ZSchemaOwners(a, els2));
    }
  }

  /** The type names a `@Response` type argument declares (`undefined` for any other form). */
  function TypeNamesOf(a: Arena, t: nat): (r: Option<seq<string>>)
    ensures t < |a| && a[t].kind.Identifier? ==> r == Some([a[t].kind.name])
    ensures t < |a| && a[t].kind.ArrayExpression? ==> r == Some(ZSchemaOwners(a, PresentElements(a[t].kind.elements)))
    ensures IsZSchema(a, t) ==> r == Some([ZSchemaOwner(a, t).value])
    ensures r.None? <==> !(t < |a| && (a[t].kind.Identifier? || a[t].kind.ArrayExpression?)) && !IsZSchema(a, t)
  {
    if t < |a| && a[t].kind.Identifier? then Some([a[t].kind.name])
    else if t < |a| && a[t].kind.ArrayExpression? then
      Some(ZSchemaOwners(a, PresentElements(a[t].kind.elements)))
    else match ZSchemaOwner(a, t)
      case Some(n) => Some([n])
      case None => None
  }

  /** `@Response(status, type)` with exactly two arguments, a numeric literal status and a type naming something. */
  predicate IsResponseDecorator(a: Arena, d: nat) {
    && DecoratorCall(a, d, "Response").Some?
    && var args := a[DecoratorCall(a, d, "Response").value].kind.arguments;
       |args| == 2 && NumberLiteral(a, args[0]).Some?
       && TypeNamesOf(a, args[1]).Some? && |TypeNamesOf(a, args[1]).value| > 0
  }

  /** What one decorator contributes to `extractResponseDecorators`. */
  function ResponseInfoOf(a: Arena, d: nat): (r: Option<ResponseInfo>)
    ensures r.Some? <==> IsResponseDecorator(a, d)
    ensures r.Some? ==>
              var args := a[DecoratorCall(a, d, "Response").value].kind.arguments;
              r.value == ResponseInfo(NumberLiteral(a, args[0]).value, TypeNamesOf(a, args[1]).value, d)
              && |r.value.types| > 0
  {
    match DecoratorCall(a, d, "Response")
    case None => None
    case Some(e) =>
      var args := a[e].kind.arguments;
      if |args| != 2 then None
      else match NumberLiteral(a, args[0])
        case None => None
        case Some(status) =>
          var names := TypeNamesOf(a, args[1]);
          if names.Some? && |names.value| > 0 then Some(ResponseInfo(status, names.value, d)) else None
  }

  /** The responses of a decorator list, in decorator order. */
  function ResponsesOf(a: Arena, ds: seq<nat>): (rs: seq<ResponseInfo>)
    ensures |rs| <= |ds|
    ensures forall r :: r in rs ==> r.decorator in ds && ResponseInfoOf(a, r.decorator) == Some(r)
    ensures forall d :: d in ds && ResponseInfoOf(a, d).Some? ==> ResponseInfoOf(a, d).value in rs
    decreases |ds|
  {
    if ds == [] then []
    else
      var prefix := ds[..|ds| - 1];
      var last := ds[|ds| - 1];
      assert ds == prefix + [last];
      ResponsesOf(a, prefix) + Contribution(a, last)
  }

  /** The responses one decorator contributes. */
  function Contribution(a: Arena, d: nat): (c: seq<ResponseInfo>)
    ensures c == if ResponseInfoOf(a, d).Some? then [ResponseInfoOf(a, d).value] else []
  {
    match ResponseInfoOf(a, d) case Some(r) => [r] case None => []
  }

  /** One more decorator adds its contribution at the end. */
  lemma ResponsesOfSnoc(a: Arena, ds: seq<nat>, d: nat)
    ensures ResponsesOf(a, ds + [d]) == ResponsesOf(a, ds) + Contribution(a, d)
  {
    assert (ds + [d])[..|ds|] == ds;
  }

  /** Decorators are read one by one, in order: the responses of a concatenation are concatenated. */
  lemma {:induction false} ResponsesOfAppend(a: Arena, ds1: seq<nat>, ds2: seq<nat>)
    ensures ResponsesOf(a, ds1 + ds2) == ResponsesOf(a, ds1) + ResponsesOf(a, ds2)
    decreases |ds2|
  {
    if ds2 == [] {
      assert ds1 + ds2 == ds1;
    } else {
      var prefix, last := ds2[..|ds2| - 1], ds2[|ds2| - 1];
      assert ds2 == prefix + [last];
      assert ds1 + ds2 == (ds1 + prefix) + [last];
      ResponsesOfAppend(a, ds1, prefix);
      ResponsesOfSnoc(a, ds1 + prefix, last);
      ResponsesOfSnoc(a, prefix, last);
      ConcatAssoc(ResponsesOf(a, ds1), ResponsesOf(a, prefix), Contribution(a, last));
    }
  }

  /** A single decorator contributes its response, if it is one. */
  lemma ResponsesOfSingle(a: Arena, d: nat)
    ensures ResponsesOf(a, [d]) == if ResponseInfoOf(a, d).Some? then [ResponseInfoOf(a, d).value] else []
  {
    assert [d][..0] == [];
  }

  function MethodDecorators(a: Arena, node: nat): seq<nat>
    requires node < |a| && a[node].kind.MethodDefinition?
  {
    OptionSeq(a[node].kind.decorators)
  }

  /** `extractResponseDecorators`: the loop over the method's decorators. */
  method ExtractResponseDecorators(a: Arena, node: nat) returns (responses: seq<ResponseInfo>)
    requires node < |a| && a[node].kind.MethodDefinition?
    ensures responses == ResponsesOf(a, MethodDecorators(a, node))
    ensures forall r :: r in responses ==> |r.types| > 0
  {
    var ds := MethodDecorators(a, node);
    responses := [];
    for k := 0 to |ds|
      invariant responses == ResponsesOf(a, ds[..k])
    {
      ResponsesOfPrefixStep(a, ds, k);
      responses := responses + Contribution(a, ds[k]);
    }
    assert ds[..|ds|] == ds;
    ResponsesHaveTypes(a, ds);
  }

  /** One loop step over the decorators: the prefix grows by one decorator's contribution. */
  lemma ResponsesOfPrefixStep(a: Arena, ds: seq<nat>, k: nat)
    requires k < |ds|
    ensures ResponsesOf(a, ds[..k + 1]) == ResponsesOf(a, ds[..k]) + Contribution(a, ds[k])
  {
    assert ds[..k + 1] == ds[..k] + [ds[k]];
    ResponsesOfSnoc(a, ds[..k], ds[k]);
  }

  /** Every extracted response names at least one type. */
  lemma ResponsesHaveTypes(a: Arena, ds: seq<nat>)
    ensures forall r :: r in ResponsesOf(a, ds) ==> |r.types| > 0
  {
    forall r | r in ResponsesOf(a, ds)
      ensures |r.types| > 0
    {
      assert ResponseInfoOf(a, r.decorator) == Some(r);
    }
  }

  // ---------------------------------------------------------------------------
  // Duplicate statuses

  function Statuses(rs: seq<ResponseInfo>): set<int> {
    set r | r in rs :: r.status
  }

  /** A status already declared by an earlier response. */
  predicate SeenBefore(rs: seq<ResponseInfo>, k: nat)
    requires k < |rs|
  {
    rs[k].status in Statuses(rs[..k])
  }

  /** The reports of `reportDuplicateStatuses`: one per response whose status an earlier one declared. */
  function DuplicateReports(rs: seq<ResponseInfo>): seq<Diagnostic>
    decreases |rs|
  {
    if rs == [] then []
    else
      var last := rs[|rs| - 1];
      DuplicateReports(rs[..|rs| - 1])
        + (if last.status in Statuses(rs[..|rs| - 1]) then [Diagnostic(last.decorator, DuplicateStatus(last.status))] else [])
  }

  lemma StatusesSnoc(rs: seq<ResponseInfo>, r: ResponseInfo)
    ensures Statuses(rs + [r]) == Statuses(rs) + {r.status}
  {
    assert forall x :: x in rs + [r] <==> x in rs || x == r;
  }

  lemma DuplicateReportsSnoc(rs: seq<ResponseInfo>, k: nat)
    requires k < |rs|
    ensures Statuses(rs[..k + 1]) == Statuses(rs[..k]) + {rs[k].status}
    ensures DuplicateReports(rs[..k + 1]) == DuplicateReports(rs[..k])
              + (if rs[k].status in Statuses(rs[..k]) then [Diagnostic(rs[k].decorator, DuplicateStatus(rs[k].status))] else [])
  {
    assert rs[..k + 1] == rs[..k] + [rs[k]];
    assert rs[..k + 1][..k] == rs[..k];
    StatusesSnoc(rs[..k], rs[k]);
  }

  /** `reportDuplicateStatuses`: the loop with its status map. */
  method ReportDuplicateStatuses(responses: seq<ResponseInfo>) returns (reports: seq<Diagnostic>)
    ensures reports == DuplicateReports(responses)
  {
    var statusMap: map<int, nat> := map[];
    reports := [];
    for k := 0 to |responses|
      invariant statusMap.Keys == Statuses(responses[..k])
      invariant reports == DuplicateReports(responses[..k])
    {
      var res := responses[k];
      DuplicateReportsSnoc(responses, k);
      if res.status in statusMap {
        reports := reports + [Diagnostic(res.decorator, DuplicateStatus(res.status))];
      } else {
        statusMap := statusMap[res.status := res.decorator];
      }
    }
    assert responses[..|responses|] == responses;
  }

  /**
   * One report per repeated declaration: as many reports as responses
   * beyond the distinct statuses, each on a declaration of a status that an
   * earlier one declared (so never on the first declaration of a status).
   */
  lemma {:induction false} DuplicateReportsCount(rs: seq<ResponseInfo>)
    ensures |DuplicateReports(rs)| == |rs| - |Statuses(rs)|
    ensures forall d :: d in DuplicateReports(rs) ==>
              exists k :: 0 <= k < |rs| && SeenBefore(rs, k) && d == Diagnostic(rs[k].decorator, DuplicateStatus(rs[k].status))
    decreases |rs|
  {
    if rs != [] {
      var prefix := rs[..|rs| - 1];
      var last := rs[|rs| - 1];
      assert rs == prefix + [last];
      DuplicateReportsCount(prefix);
      StatusesSnoc(prefix, last);
      if last.status in Statuses(prefix) {
        assert Statuses(rs) == Statuses(prefix);
      } else {
        assert |Statuses(rs)| == |Statuses(prefix)| + 1;
      }
      forall k | 0 <= k < |prefix|
        ensures SeenBefore(rs, k) == SeenBefore(prefix, k)
      {
        assert rs[..k] == prefix[..k];
      }
      assert prefix == rs[..|rs| - 1];
    }
  }

  // ---------------------------------------------------------------------------
  // The status -> type names cache

  /** The text before the first '.' of s (all of s when it has none). */
  function BeforeFirstDot(s: string): (r: string)
    ensures |r| <= |s| && r == s[..|r|] && '.' !in r
    ensures '.' !in s ==> r == s
    ensures |r| < |s| ==> s[|r|] == '.'
  {
    if s == [] then []
    else if s[0] == '.' then []
    else
      var rest := BeforeFirstDot(s[1..]);
      assert s == [s[0]] + s[1..];
      [s[0]] + rest
  }

  /** `el === 'ViewRenderer' ? 'ViewRenderer' : el.split('.')[0]` */
  function NormalizeTypeName(el: string): (r: string)
    ensures '.' !in el ==> r == el
  {
    if el == "ViewRenderer" then "ViewRenderer" else BeforeFirstDot(el)
  }

  /** The ViewRenderer branch agrees with the general one: normalising is taking the text before the first '.'. */
  lemma NormalizeIsBeforeFirstDot(el: string)
    ensures NormalizeTypeName(el) == BeforeFirstDot(el)
  {
    if el == "ViewRenderer" {
      assert forall k :: 0 <= k < |el| ==> el[k] != '.';
    }
  }

  function NormalizeAll(types: seq<string>): (r: seq<string>)
    ensures |r| == |types|
    ensures forall k :: 0 <= k < |r| ==> r[k] == NormalizeTypeName(types[k])
    decreases |types|
  {
    if types == [] then [] else [NormalizeTypeName(types[0])] + NormalizeAll(types[1..])
  }

  /** The status map built from the responses: `statusMap.set` in order, so the last declaration of a status wins. */
  function StatusTypeMap(rs: seq<ResponseInfo>): (m: map<int, seq<string>>)
    ensures m.Keys == Statuses(rs)
    decreases |rs|
  {
    if rs == [] then map[]
    else
      var last := rs[|rs| - 1];
      StatusesSnoc(rs[..|rs| - 1], last);
      assert rs == rs[..|rs| - 1] + [last];
      StatusTypeMap(rs[..|rs| - 1])[last.status := NormalizeAll(last.types)]
  }

  /** The last response declaring status, the reference for "the last declaration wins". */
  function LastDeclaring(rs: seq<ResponseInfo>, status: int): (r: Option<ResponseInfo>)
    ensures r.Some? <==> status in Statuses(rs)
    ensures r.Some? ==> r.value in rs && r.value.status == status
    ensures r.Some? ==> exists k :: 0 <= k < |rs| && rs[k] == r.value
                                    && forall j :: k < j < |rs| ==> rs[j].status != status
    decreases |rs|
  {
    if rs == [] then None
    else
      var last := rs[|rs| - 1];
      StatusesSnoc(rs[..|rs| - 1], last);
      assert rs == rs[..|rs| - 1] + [last];
      if last.status == status then Some(last)
      else
        var prefix := rs[..|rs| - 1];
        var earlier := LastDeclaring(prefix, status);
        assert earlier.Some? ==> exists k :: 0 <= k < |rs| && rs[k] == earlier.value
                                             && forall j :: k < j < |rs| ==> rs[j].status != status by {
          if earlier.Some? {
            var k :| 0 <= k < |prefix| && prefix[k] == earlier.value
                     && forall j :: k < j < |prefix| ==> prefix[j].status != status;
            assert rs[k] == earlier.value;
          }
        }
        earlier
  }

  /** Each status maps to the normalised types of its last declaration. */
  lemma {:induction false} StatusTypeMapLastWins(rs: seq<ResponseInfo>, status: int)
    requires status in Statuses(rs)
    ensures StatusTypeMap(rs)[status] == NormalizeAll(LastDeclaring(rs, status).value.types)
    decreases |rs|
  {
    var last := rs[|rs| - 1];
    StatusesSnoc(rs[..|rs| - 1], last);
    assert rs == rs[..|rs| - 1] + [last];
    if last.status != status {
      StatusTypeMapLastWins(rs[..|rs| - 1], status);
    }
  }

  /** Declared responses always have types, so every cached status has a non-empty list. */
  lemma StatusTypeMapNonEmpty(rs: seq<ResponseInfo>, status: int)
    requires forall r :: r in rs ==> |r.types| > 0
    requires status in StatusTypeMap(rs)
    ensures |StatusTypeMap(rs)[status]| > 0
  {
    StatusTypeMapLastWins(rs, status);
  }

  /** The loop that fills `statusMap` in the class handler. */
  method BuildStatusTypeMap(responses: seq<ResponseInfo>) returns (statusMap: map<int, seq<string>>)
    ensures statusMap == StatusTypeMap(responses)
  {
    statusMap := map[];
    for k := 0 to |responses|
      invariant statusMap == StatusTypeMap(responses[..k])
    {
      assert responses[..k + 1][..k] == responses[..k];
      var types := NormalizeAll(responses[k].types);
      statusMap := statusMap[responses[k].status := types];
    }
    assert responses[..|responses|] == responses;
  }

  // ---------------------------------------------------------------------------
  // Checking one return

  /** `this.rtn(...)`: a call whose callee is a member expression on `this` with property `rtn`. */
  predicate IsThisRtnCall(a: Arena, e: nat)
    ensures IsThisRtnCall(a, e) ==> e < |a| && a[e].kind.CallExpression?
    ensures e < |a| && a[e].kind.CallExpression? && a[e].kind.callee < |a|
            && a[a[e].kind.callee].kind.MemberExpression? && !IsIdentifierNamed(a, a[a[e].kind.callee].kind.property, "rtn")
            ==> !IsThisRtnCall(a, e)
  {
    && e < |a| && a[e].kind.CallExpression?
    && var callee := a[e].kind.callee;
       callee < |a| && a[callee].kind.MemberExpression?
       && a[callee].kind.obj < |a| && a[a[callee].kind.obj].kind.ThisExpression?
       && IsIdentifierNamed(a, a[callee].kind.property, "rtn")
  }

  /** The numeric literal status of `this.rtn(status, ...)`. */
  function RtnStatus(a: Arena, e: nat): (r: Option<int>)
    requires IsThisRtnCall(a, e)
    ensures r.Some? <==> |a[e].kind.arguments| > 0 && NumberLiteral(a, a[e].kind.arguments[0]).Some?
    ensures r.Some? ==> r == NumberLiteral(a, a[e].kind.arguments[0])
  {
    var args := a[e].kind.arguments;
    if |args| == 0 then None else NumberLiteral(a, args[0])
  }

  /** `this.rtn<Name>(...)`: the type arguments node and the generic's name. */
  function RtnGeneric(a: Arena, e: nat): (r: Option<(nat, string)>)
    requires IsThisRtnCall(a, e)
    ensures a[e].kind.typeArguments.None? ==> r.None?
    ensures r.Some? ==>
              var t := r.value.0;
              && a[e].kind.typeArguments == Some(t)
              && t < |a| && a[t].kind.TSTypeParameterInstantiation? && |a[t].kind.params| > 0
              && a[t].kind.params[0] < |a| && a[a[t].kind.params[0]].kind.TSTypeReference?
              && IsIdentifierNamed(a, a[a[t].kind.params[0]].kind.typeName, r.value.1)
  {
    match a[e].kind.typeArguments
    case None => None
    case Some(t) =>
      if t < |a| && a[t].kind.TSTypeParameterInstantiation? && |a[t].kind.params| > 0 then
        var tn := a[t].kind.params[0];
        if tn < |a| && a[tn].kind.TSTypeReference? && a[tn].kind.typeName < |a|
           && a[a[tn].kind.typeName].kind.Identifier?
        then Some((t, a[a[tn].kind.typeName].kind.name))
        else None
      else None
  }

  /** `expectedMap.get(status) || []` */
  function Expected(expectedMap: map<int, seq<string>>, status: int): seq<string> {
    if status in expectedMap then expectedMap[status] else []
  }

  /**
   * A return the rule accepts: `this.rtn(status, ...)` with a numeric
   * literal status that has declared types and, when a simple generic is
   * given, is one of them.
   */
  predicate Conforms(a: Arena, stmt: nat, expectedMap: map<int, seq<string>>)
    requires IsReturn(a, stmt)
  {
    var arg := a[stmt].kind.argument;
    && arg.Some?
    && IsThisRtnCall(a, arg.value)
    && RtnStatus(a, arg.value).Some?
    && |Expected(expectedMap, RtnStatus(a, arg.value).value)| > 0
    && (RtnGeneric(a, arg.value).Some? ==>
          RtnGeneric(a, arg.value).value.1 in Expected(expectedMap, RtnStatus(a, arg.value).value))
  }

  /** `validateReturnFormat`: at most one report, the first check that fails. */
  function ValidateReturnFormat(a: Arena, stmt: nat, expectedMap: map<int, seq<string>>): (r: Option<Diagnostic>)
    requires IsReturn(a, stmt)
    ensures r.None? <==> Conforms(a, stmt, expectedMap)
    ensures r.Some? && r.value.message.ReturnTypeNotMatch? ==>
              var status := r.value.message.status;
              |Expected(expectedMap, status)| > 0 && r.value.message.expected == Expected(expectedMap, status)
              && r.value.message.generic !in Expected(expectedMap, status)
    ensures r.Some? && r.value.message.InvalidReturnStatus? ==> |Expected(expectedMap, r.value.message.status)| == 0
    ensures r.Some? ==> !r.value.message.DuplicateStatus?
    // one clause per check, in the order they are made
    ensures a[stmt].kind.argument.None? ==> r == Some(Diagnostic(stmt, EmptyReturn))
    ensures var arg := a[stmt].kind.argument;
            arg.Some? && !IsThisRtnCall(a, arg.value) ==> r == Some(Diagnostic(stmt, ReturnWithOutThisRtn))
    ensures var arg := a[stmt].kind.argument;
            arg.Some? && IsThisRtnCall(a, arg.value) && RtnStatus(a, arg.value).None?
            ==> r == Some(Diagnostic(stmt, ReturnStatusShouldBeNumber))
    ensures var arg := a[stmt].kind.argument;
            arg.Some? && IsThisRtnCall(a, arg.value) && RtnStatus(a, arg.value).Some?
            && |Expected(expectedMap, RtnStatus(a, arg.value).value)| == 0
            ==> r == Some(Diagnostic(a[arg.value].kind.arguments[0], InvalidReturnStatus(RtnStatus(a, arg.value).value)))
    ensures var arg := a[stmt].kind.argument;
            arg.Some? && IsThisRtnCall(a, arg.value) && RtnStatus(a, arg.value).Some?
            && |Expected(expectedMap, RtnStatus(a, arg.value).value)| > 0
            && RtnGeneric(a, arg.value).Some?
            && RtnGeneric(a, arg.value).value.1 !in Expected(expectedMap, RtnStatus(a, arg.value).value)
            ==> r == Some(Diagnostic(RtnGeneric(a, arg.value).value.0,
                                     ReturnTypeNotMatch(RtnGeneric(a, arg.value).value.1,
                                                        Expected(expectedMap, RtnStatus(a, arg.value).value),
                                                        RtnStatus(a, arg.value).value)))
  {
    match a[stmt].kind.argument
    case None => Some(Diagnostic(stmt, EmptyReturn))
    case Some(e) =>
      if !IsThisRtnCall(a, e) then Some(Diagnostic(stmt, ReturnWithOutThisRtn))
      else match RtnStatus(a, e)
        case None => Some(Diagnostic(stmt, ReturnStatusShouldBeNumber))
        case Some(status) =>
          var expected := Expected(expectedMap, status);
          if |expected| == 0 then Some(Diagnostic(a[e].kind.arguments[0], InvalidReturnStatus(status)))
          else match RtnGeneric(a, e)
            case None => None
            case Some((t, generic)) =>
              if generic in expected then None
              else Some(Diagnostic(t, ReturnTypeNotMatch(generic, expected, status)))
  }

  /** The order of the checks: an empty return is reported as such whatever the map. */
  lemma EmptyReturnFirst(a: Arena, stmt: nat, expectedMap: map<int, seq<string>>)
    requires IsReturn(a, stmt) && a[stmt].kind.argument.None?
    ensures ValidateReturnFormat(a, stmt, expectedMap) == Some(Diagnostic(stmt, EmptyReturn))
  {
  }

  /** Only a status with declared types reaches the type check; other statuses are reported on the status literal. */
  lemma UndeclaredStatusBeforeType(a: Arena, stmt: nat, expectedMap: map<int, seq<string>>)
    requires IsReturn(a, stmt)
    requires var arg := a[stmt].kind.argument;
             arg.Some? && IsThisRtnCall(a, arg.value) && RtnStatus(a, arg.value).Some?
             && RtnStatus(a, arg.value).value !in expectedMap
    ensures var e := a[stmt].kind.argument.value;
            ValidateReturnFormat(a, stmt, expectedMap)
              == Some(Diagnostic(a[e].kind.arguments[0], InvalidReturnStatus(RtnStatus(a, e).value)))
  {
  }

  // ---------------------------------------------------------------------------
  // The rule: class handler, return handler and the state they share

  /** The rule's three WeakMaps, keyed by node, and the reports made so far. */
  datatype RuleState = RuleState(
    methodResponseMap: map<nat, seq<ResponseInfo>>,
    statusTypeCache: map<nat, map<int, seq<string>>>,
    returnToMethodMap: map<nat, nat>,
    diagnostics: seq<Diagnostic>)

  const InitialState: RuleState := RuleState(map[], map[], map[], [])

  /** `element.value.body` of a method definition, when it has one. */
  function MethodBody(a: Arena, element: nat): (r: Option<nat>)
    ensures !(element < |a| && a[element].kind.MethodDefinition?) ==> r.None?
    ensures r.Some? ==>
              && element < |a| && a[element].kind.MethodDefinition?
              && a[element].kind.value < |a| && a[a[element].kind.value].kind.FunctionExpression?
              && a[a[element].kind.value].kind.body == r
  {
    if element < |a| && a[element].kind.MethodDefinition?
       && a[element].kind.value < |a| && a[a[element].kind.value].kind.FunctionExpression?
    then a[a[element].kind.value].kind.body
    else None
  }

  /** `returnToMethodMap.set(ret, element)` for each collected return. */
  function MapReturns(m: map<nat, nat>, rets: seq<nat>, element: nat): (r: map<nat, nat>)
    ensures r.Keys == m.Keys + (set x | x in rets)
    ensures forall x :: x in rets ==> r[x] == element
    ensures forall x :: x in m && x !in rets ==> r[x] == m[x]
  {
    m + map x | x in rets :: element
  }

  /** A `kind: 'method'` method definition. */
  predicate IsPlainMethod(a: Arena, element: nat) {
    element < |a| && a[element].kind.MethodDefinition? && a[element].kind.methodKind == NormalMethod
  }

  /**
   * What the class handler records for a method with responses rs: the
   * responses, the duplicate reports, the status map, and the method as
   * owner of every return collected from its body.
   */
  function Register(a: Arena, mode: WalkMode, s: RuleState, element: nat, rs: seq<ResponseInfo>): (r: RuleState)
    ensures s.diagnostics <= r.diagnostics
    ensures r.diagnostics[|s.diagnostics|..] == DuplicateReports(rs)
    ensures r.statusTypeCache == s.statusTypeCache[element := StatusTypeMap(rs)]
    ensures r.methodResponseMap == s.methodResponseMap[element := rs]
    ensures MethodBody(a, element).None? ==> r.returnToMethodMap == s.returnToMethodMap
    ensures MethodBody(a, element).Some? ==>
              r.returnToMethodMap == MapReturns(s.returnToMethodMap, Dfs(a, mode, MethodBody(a, element).value, {}).1, element)
  {
    var s1 := s.(methodResponseMap := s.methodResponseMap[element := rs],
                 diagnostics := s.diagnostics + DuplicateReports(rs),
                 statusTypeCache := s.statusTypeCache[element := StatusTypeMap(rs)]);
    match MethodBody(a, element)
    case None => s1
    case Some(b) => s1.(returnToMethodMap := MapReturns(s1.returnToMethodMap, Dfs(a, mode, b, {}).1, element))
  }

  /** A `kind: 'method'` method with at least one `@Response`: the members the class handler registers. */
  predicate HasResponses(a: Arena, element: nat) {
    IsPlainMethod(a, element) && ResponsesOf(a, MethodDecorators(a, element)) != []
  }

  /** One iteration of the class handler's loop over the class body. */
  function MemberStep(a: Arena, mode: WalkMode, s: RuleState, element: nat): (r: RuleState)
    ensures !HasResponses(a, element) ==> r == s
    ensures HasResponses(a, element) ==> r == Register(a, mode, s, element, ResponsesOf(a, MethodDecorators(a, element)))
    ensures s.diagnostics <= r.diagnostics
    ensures forall d :: d in r.diagnostics[|s.diagnostics|..] ==> d.message.DuplicateStatus?
  {
    if !IsPlainMethod(a, element) then s
    else
      var rs := ResponsesOf(a, MethodDecorators(a, element));
      if |rs| == 0 then s
      else
        DuplicateReportsCount(rs);
        Register(a, mode, s, element, rs)
  }

  /** The loop over the class body, in member order. */
  function MembersFold(a: Arena, mode: WalkMode, s: RuleState, members: seq<nat>): (r: RuleState)
    ensures s.diagnostics <= r.diagnostics
    // exactly the members with responses are added to the status cache
    ensures r.statusTypeCache.Keys == s.statusTypeCache.Keys + (set m | m in members && HasResponses(a, m))
    decreases |members|
  {
    if members == [] then s
    else
      var prefix, last := members[..|members| - 1], members[|members| - 1];
      assert members == prefix + [last];
      MemberStep(a, mode, MembersFold(a, mode, s, prefix), last)
  }

  /** The `ClassDeclaration` handler. */
  function ClassStep(a: Arena, mode: WalkMode, s: RuleState, classNode: nat): (r: RuleState)
    ensures !HasBasePath(a, classNode) ==> r == s
    ensures HasBasePath(a, classNode) ==> r == MembersFold(a, mode, s, a[classNode].kind.members)
  {
    if HasBasePath(a, classNode) then MembersFold(a, mode, s, a[classNode].kind.members) else s
  }

  /** The `ReturnStatement` handler: a return mapped to a method with a status map is validated. */
  function ReturnStep(a: Arena, s: RuleState, returnNode: nat): (r: RuleState)
    requires IsReturn(a, returnNode)
    ensures returnNode !in s.returnToMethodMap ==> r == s
    ensures r == s.(diagnostics := r.diagnostics)
    ensures s.diagnostics <= r.diagnostics && |r.diagnostics| <= |s.diagnostics| + 1
    ensures returnNode in s.returnToMethodMap && s.returnToMethodMap[returnNode] !in s.statusTypeCache ==> r == s
    ensures returnNode in s.returnToMethodMap && s.returnToMethodMap[returnNode] in s.statusTypeCache ==>
              var owner := s.returnToMethodMap[returnNode];
              r.diagnostics == s.diagnostics + Reported(ValidateReturnFormat(a, returnNode, s.statusTypeCache[owner]))
  {
    if returnNode in s.returnToMethodMap && s.returnToMethodMap[returnNode] in s.statusTypeCache then
      match ValidateReturnFormat(a, returnNode, s.statusTypeCache[s.returnToMethodMap[returnNode]])
      case None => s
      case Some(d) => s.(diagnostics := s.diagnostics + [d])
    else s
  }

  /** The report `validateReturnFormat` makes, if any. */
  function Reported(report: Option<Diagnostic>): (ds: seq<Diagnostic>)
    ensures report.None? ==> ds == []
    ensures report.Some? ==> ds == [report.value]
  {
    match report
    case None => []
    case Some(d) => [d]
  }

  /**
   * The two listeners together: once a method with responses is
   * registered, every return its body's walk reaches is checked against
   * that method's status map.
   */
  lemma RegisteredReturnIsChecked(a: Arena, mode: WalkMode, s: RuleState, element: nat, rs: seq<ResponseInfo>, x: nat)
    requires MethodBody(a, element).Some? && IsReturn(a, x) && Reaches(a, mode, MethodBody(a, element).value, x)
    ensures var r := Register(a, mode, s, element, rs);
            ReturnStep(a, r, x) == r.(diagnostics := r.diagnostics + Reported(ValidateReturnFormat(a, x, StatusTypeMap(rs))))
  {
    var b := MethodBody(a, element).value;
    var p :| IsWalkPath(a, mode, p) && p[0] == b && p[|p| - 1] == x;
    DfsFindsReachableReturns(a, mode, b);
  }

  /** The listener calls ESLint makes, in its traversal order. */
  datatype Event = ClassDeclarationEvent(classNode: nat) | ReturnStatementEvent(returnNode: nat)

  predicate ReturnEventsAreReturns(a: Arena, events: seq<Event>) {
    forall k :: 0 <= k < |events| && events[k].ReturnStatementEvent? ==> IsReturn(a, events[k].returnNode)
  }

  function Apply(a: Arena, mode: WalkMode, s: RuleState, e: Event): RuleState
    requires e.ReturnStatementEvent? ==> IsReturn(a, e.returnNode)
  {
    match e
    case ClassDeclarationEvent(c) => ClassStep(a, mode, s, c)
    case ReturnStatementEvent(r) => ReturnStep(a, s, r)
  }

  /** The rule's state after the listener calls of one file. */
  function LintSpec(a: Arena, mode: WalkMode, events: seq<Event>): RuleState
    requires ReturnEventsAreReturns(a, events)
    decreases |events|
  {
    if events == [] then InitialState
    else
      var prefix := events[..|events| - 1];
      assert ReturnEventsAreReturns(a, prefix);
      Apply(a, mode, LintSpec(a, mode, prefix), events[|events| - 1])
  }

  /** The state created by the rule's `create(context)`. */
  class ValidateResponseRule {
    /** How `collectReturnStatements` walks: `CollectMode` as written. */
    const mode: WalkMode
    var methodResponseMap: map<nat, seq<ResponseInfo>>
    var statusTypeCache: map<nat, map<int, seq<string>>>
    var returnToMethodMap: map<nat, nat>
    var diagnostics: seq<Diagnostic>

    function State(): RuleState
      reads this
    {
      RuleState(methodResponseMap, statusTypeCache, returnToMethodMap, diagnostics)
    }

    constructor (mode: WalkMode)
      ensures this.mode == mode && State() == InitialState
    {
      this.mode := mode;
      methodResponseMap, statusTypeCache, returnToMethodMap, diagnostics := map[], map[], map[], [];
    }

    method ClassDeclaration(a: Arena, classNode: nat)
      modifies this
      ensures State() == ClassStep(a, mode, old(State()), classNode)
    {
      if !HasBasePath(a, classNode) {
        return;
      }
      var members := a[classNode].kind.members;
      for k := 0 to |members|
        invariant State() == MembersFold(a, mode, old(State()), members[..k])
      {
        assert members[..k + 1][..k] == members[..k];
        Member(a, members[k]);
      }
      assert members[..|members|] == members;
    }

    /** The body of the loop over the class body, for one element. */
    method Member(a: Arena, element: nat)
      modifies this
      ensures State() == MemberStep(a, mode, old(State()), element)
    {
      if !IsPlainMethod(a, element) {
        return;
      }
      var responses := ExtractResponseDecorators(a, element);
      if |responses| > 0 {
        DuplicateReportsCount(responses);
        Record(a, element, responses);
      }
    }

    /** The statements run for a method with responses. */
    method Record(a: Arena, element: nat, responses: seq<ResponseInfo>)
      modifies this
      ensures State() == Register(a, mode, old(State()), element, responses)
    {
      methodResponseMap := methodResponseMap[element := responses];
      var reports := ReportDuplicateStatuses(responses);
      diagnostics := diagnostics + reports;
      var statusMap := BuildStatusTypeMap(responses);
      statusTypeCache := statusTypeCache[element := statusMap];
      var body := MethodBody(a, element);
      if body.Some? {
        var rets := CollectWith(a, mode, body.value);
        returnToMethodMap := MapReturns(returnToMethodMap, rets, element);
      }
    }

    method ReturnStatement(a: Arena, returnNode: nat)
      requires IsReturn(a, returnNode)
      modifies this
      ensures State() == ReturnStep(a, old(State()), returnNode)
    {
      if returnNode !in returnToMethodMap {
        return;
      }
      var methodNode := returnToMethodMap[returnNode];
      if methodNode !in statusTypeCache {
        return;
      }
      var report := ValidateReturnFormat(a, returnNode, statusTypeCache[methodNode]);
      if report.Some? {
        diagnostics := diagnostics + [report.value];
      }
    }
  }

  /** Runs the rule over one file: a fresh rule state, then each listener call in order. */
  method Lint(a: Arena, mode: WalkMode, events: seq<Event>) returns (diagnostics: seq<Diagnostic>)
    requires ReturnEventsAreReturns(a, events)
    ensures diagnostics == LintSpec(a, mode, events).diagnostics
  {
    var rule := new ValidateResponseRule(mode);
    for k := 0 to |events|
      invariant rule.State() == LintSpec(a, mode, events[..k])
    {
      assert events[..k + 1][..k] == events[..k];
      match events[k]
      case ClassDeclarationEvent(c) => rule.ClassDeclaration(a, c);
      case ReturnStatementEvent(r) => rule.ReturnStatement(a, r);
    }
    assert events[..|events|] == events;
    diagnostics := rule.diagnostics;
  }

  // ---------------------------------------------------------------------------
  // Properties of the rule over a whole file

  /** A file whose classes carry no `@BasePath` leaves the rule untouched: nothing is recorded or reported. */
  lemma {:induction false} WithoutBasePathNothingHappens(a: Arena, mode: WalkMode, events: seq<Event>)
    requires ReturnEventsAreReturns(a, events)
    requires forall k :: 0 <= k < |events| && events[k].ClassDeclarationEvent? ==> !HasBasePath(a, events[k].classNode)
    ensures LintSpec(a, mode, events) == InitialState
    decreases |events|
  {
    if events != [] {
      var prefix := events[..|events| - 1];
      assert forall k :: 0 <= k < |prefix| ==> prefix[k] == events[k];
      WithoutBasePathNothingHappens(a, mode, prefix);
    }
  }

  /** Every return the rule maps to a method lies inside that method's body. */
  ghost predicate ChecksOwnReturns(a: Arena, s: RuleState) {
    forall x :: x in s.returnToMethodMap ==>
      MethodBody(a, s.returnToMethodMap[x]).Some? && IsAncestor(a, MethodBody(a, s.returnToMethodMap[x]).value, x)
  }

  lemma MemberStepChecksOwnReturns(a: Arena, mode: WalkMode, s: RuleState, element: nat)
    requires WellLinked(a) && !mode.followParent
    requires ChecksOwnReturns(a, s)
    ensures ChecksOwnReturns(a, MemberStep(a, mode, s, element))
  {
    var b := MethodBody(a, element);
    var r := MemberStep(a, mode, s, element);
    if HasResponses(a, element) && b.Some? {
      var found := Dfs(a, mode, b.value, {}).1;
      assert r.returnToMethodMap == MapReturns(s.returnToMethodMap, found, element);
      if b.value < |a| {
        DfsWithoutParentStaysInside(a, mode, b.value);
      }
      forall x | x in r.returnToMethodMap
        ensures MethodBody(a, r.returnToMethodMap[x]).Some?
        ensures IsAncestor(a, MethodBody(a, r.returnToMethodMap[x]).value, x)
      {
        if x !in found {
          assert r.returnToMethodMap[x] == s.returnToMethodMap[x];
        }
      }
    } else {
      assert r.returnToMethodMap == s.returnToMethodMap;
    }
  }

  lemma {:induction false} MembersFoldChecksOwnReturns(a: Arena, mode: WalkMode, s: RuleState, members: seq<nat>)
    requires WellLinked(a) && !mode.followParent
    requires ChecksOwnReturns(a, s)
    ensures ChecksOwnReturns(a, MembersFold(a, mode, s, members))
    decreases |members|
  {
    if members != [] {
      MembersFoldChecksOwnReturns(a, mode, s, members[..|members| - 1]);
      MemberStepChecksOwnReturns(a, mode, MembersFold(a, mode, s, members[..|members| - 1]), members[|members| - 1]);
    }
  }

  /**
   * With the corrected walk (no parent link) on a well-linked tree, every
   * return the rule validates is validated against the responses of the
   * method whose body contains it.
   */
  lemma {:induction false} CorrectedRuleChecksOwnReturns(a: Arena, mode: WalkMode, events: seq<Event>)
    requires WellLinked(a) && !mode.followParent
    requires ReturnEventsAreReturns(a, events)
    ensures ChecksOwnReturns(a, LintSpec(a, mode, events))
    decreases |events|
  {
    if events != [] {
      var prefix := events[..|events| - 1];
      assert ReturnEventsAreReturns(a, prefix);
      CorrectedRuleChecksOwnReturns(a, mode, prefix);
      var s := LintSpec(a, mode, prefix);
      match events[|events| - 1]
      case ClassDeclarationEvent(c) =>
        if HasBasePath(a, c) {
          MembersFoldChecksOwnReturns(a, mode, s, a[c].kind.members);
        }
      case ReturnStatementEvent(r) =>
    }
  }

  /** The walk from element's body reaches x. */
  ghost predicate BodyReaches(a: Arena, mode: WalkMode, element: nat, x: nat) {
    MethodBody(a, element).Some? && Reaches(a, mode, MethodBody(a, element).value, x)
  }

  /** The member m with responses is registered in s: its responses and its status map are cached. */
  predicate Registered(a: Arena, s: RuleState, m: nat)
    requires HasResponses(a, m)
  {
    && m in s.statusTypeCache && s.statusTypeCache[m] == StatusTypeMap(ResponsesOf(a, MethodDecorators(a, m)))
    && m in s.methodResponseMap && s.methodResponseMap[m] == ResponsesOf(a, MethodDecorators(a, m))
  }

  /** The return x is mapped to the member m in s. */
  predicate MappedTo(s: RuleState, x: nat, m: nat) {
    x in s.returnToMethodMap && s.returnToMethodMap[x] == m
  }

  /** Handling a member with responses registers it and maps to it every return its body's walk reaches. */
  lemma MemberStepRegisters(a: Arena, mode: WalkMode, s: RuleState, m: nat, x: nat)
    requires HasResponses(a, m)
    ensures Registered(a, MemberStep(a, mode, s, m), m)
    ensures IsReturn(a, x) && BodyReaches(a, mode, m, x) ==> MappedTo(MemberStep(a, mode, s, m), x, m)
  {
    if IsReturn(a, x) && BodyReaches(a, mode, m, x) {
      var b := MethodBody(a, m).value;
      var p :| IsWalkPath(a, mode, p) && p[0] == b && p[|p| - 1] == x;
      DfsFindsReachableReturns(a, mode, b);
    }
  }

  /** Handling any member keeps an earlier registration: a member's entry is only ever rewritten with the same value. */
  lemma MemberStepKeepsRegistration(a: Arena, mode: WalkMode, s: RuleState, e: nat, m: nat)
    requires HasResponses(a, m) && Registered(a, s, m)
    ensures Registered(a, MemberStep(a, mode, s, e), m)
  {
    if HasResponses(a, e) {
      var r := Register(a, mode, s, e, ResponsesOf(a, MethodDecorators(a, e)));
      assert MemberStep(a, mode, s, e) == r;
      assert r.statusTypeCache == s.statusTypeCache[e := StatusTypeMap(ResponsesOf(a, MethodDecorators(a, e)))];
    }
  }

  /** Handling a member keeps a return's owner, unless that member's walk reaches the return. */
  lemma MemberStepKeepsOwner(a: Arena, mode: WalkMode, s: RuleState, e: nat, m: nat, x: nat)
    requires MappedTo(s, x, m) && (e == m || !BodyReaches(a, mode, e, x))
    ensures MappedTo(MemberStep(a, mode, s, e), x, m)
  {
    if HasResponses(a, e) && MethodBody(a, e).Some? {
      var b := MethodBody(a, e).value;
      var found := Dfs(a, mode, b, {}).1;
      var r := Register(a, mode, s, e, ResponsesOf(a, MethodDecorators(a, e)));
      assert MemberStep(a, mode, s, e) == r;
      assert r.returnToMethodMap == MapReturns(s.returnToMethodMap, found, e);
      if x in found {
        DfsFindsReachableReturns(a, mode, b);
        assert e == m;
      }
    }
  }

  /**
   * Completeness of the class handler's loop: a member with responses ends
   * registered, and every return its body's walk reaches is mapped to it,
   * unless a later, different member's walk reaches that return too and
   * takes it over.
   */
  lemma {:induction false} MembersFoldRegisters(a: Arena, mode: WalkMode, s: RuleState, members: seq<nat>, i: nat, x: nat)
    requires i < |members| && HasResponses(a, members[i])
    ensures Registered(a, MembersFold(a, mode, s, members), members[i])
    ensures IsReturn(a, x) && BodyReaches(a, mode, members[i], x)
            && (forall j :: i < j < |members| && members[j] != members[i] ==> !BodyReaches(a, mode, members[j], x))
            ==> MappedTo(MembersFold(a, mode, s, members), x, members[i])
    decreases |members|
  {
    var m := members[i];
    var prefix, last := members[..|members| - 1], members[|members| - 1];
    var s1 := MembersFold(a, mode, s, prefix);
    assert MembersFold(a, mode, s, members) == MemberStep(a, mode, s1, last);
    if i == |members| - 1 {
      MemberStepRegisters(a, mode, s1, m, x);
    } else {
      assert prefix[i] == m;
      MembersFoldRegisters(a, mode, s, prefix, i, x);
      if forall j :: i < j < |members| && members[j] != m ==> !BodyReaches(a, mode, members[j], x) {
        assert forall j :: i < j < |prefix| && prefix[j] != m ==> !BodyReaches(a, mode, prefix[j], x) by {
          forall j | i < j < |prefix| ensures prefix[j] == members[j] { }
        }
        assert last == m || !BodyReaches(a, mode, last, x);
        if MappedTo(s1, x, m) {
          MemberStepKeepsOwner(a, mode, s1, last, m, x);
        }
      }
      MemberStepKeepsRegistration(a, mode, s1, last, m);
    }
  }

  /**
   * The class handler and the return handler together: after a
   * `@BasePath` class is handled, a return reached from the body of one of
   * its members with responses (and taken over by no later member) is
   * validated against that member's status map.
   */
  lemma ClassChecksMemberReturns(a: Arena, mode: WalkMode, s: RuleState, classNode: nat, i: nat, x: nat)
    requires HasBasePath(a, classNode)
    requires var members := a[classNode].kind.members;
             && i < |members| && HasResponses(a, members[i])
             && IsReturn(a, x) && BodyReaches(a, mode, members[i], x)
             && forall j :: i < j < |members| && members[j] != members[i] ==> !BodyReaches(a, mode, members[j], x)
    ensures var r, m := ClassStep(a, mode, s, classNode), a[classNode].kind.members[i];
            ReturnStep(a, r, x)
              == r.(diagnostics := r.diagnostics
                                   + Reported(ValidateReturnFormat(a, x, StatusTypeMap(ResponsesOf(a, MethodDecorators(a, m))))))
  {
    MembersFoldRegisters(a, mode, s, a[classNode].kind.members, i, x);
  }
}
