/**
 * The earlier lint rule `response-structure-match`: for a decorated
 * controller method it records the `@Response(status, Type)` decorators
 * by status, then checks that every collected return is an object
 * `{ status, res }` whose numeric status has a decorator. Comparing the
 * type of `res` with the declared type needs the TypeScript checker and
 * is not part of this model: such a return is left as a pending check.
 */
module ResponseStructureMatch {
  import opened Wrappers
  import opened Decimal
  import opened Estree
  import opened ReturnWalk

  datatype MessageId = MissingResponse | InvalidFormat | InvalidStatusFormat

  /** A `context.report` call: the node and the message. */
  datatype Report = Report(node: nat, message: MessageId)

  // ---------------------------------------------------------------------------
  // responseDecorateValidate

  /**
   * `String(statusArg.value)`, the property name the decorator is stored
   * under: a literal's value as JavaScript prints it, and `undefined` for
   * any other node (an identifier or member expression has no `value`).
   */
  function RecordKey(a: Arena, statusArg: nat): (k: string)
    ensures NumberLiteral(a, statusArg).Some? ==> k == IntToDecimal(NumberLiteral(a, statusArg).value)
  {
    if statusArg < |a| && a[statusArg].kind.Literal? then
      match a[statusArg].kind.literal
      case NumberValue(n) => IntToDecimal(n)
      case StringValue(s) => s
      case BooleanValue(b) => if b then "true" else "false"
      case NullValue => "null"
    else "undefined"
  }

  /** How the loop treats one decorator. */
  datatype DecoratorVerdict = NotResponse | Incomplete | Accepted(key: string)

  /**
   * A `@Response(...)` call with a status argument and an identifier as
   * second argument is accepted under its status key; a `@Response` call
   * missing either is incomplete; anything else is skipped.
   */
  function Classify(a: Arena, d: nat): (v: DecoratorVerdict)
    ensures v.NotResponse? <==> DecoratorCall(a, d, "Response").None?
    ensures v.Accepted? <==>
              && DecoratorCall(a, d, "Response").Some?
              && |a[DecoratorCall(a, d, "Response").value].kind.arguments| >= 2
              && At(a, a[DecoratorCall(a, d, "Response").value].kind.arguments[1]).Some?
              && At(a, a[DecoratorCall(a, d, "Response").value].kind.arguments[1]).value.Identifier?
    ensures v.Accepted? ==> v.key == RecordKey(a, a[DecoratorCall(a, d, "Response").value].kind.arguments[0])
  {
    match DecoratorCall(a, d, "Response")
    case None => NotResponse
    case Some(e) =>
      var args := a[e].kind.arguments;
      if |args| < 2 || !(args[1] < |a| && a[args[1]].kind.Identifier?) then Incomplete
      else Accepted(RecordKey(a, args[0]))
  }

  /** The object `responseDecorators`, the counter `size`, and the reports made along the way. */
  datatype DecoratorScan = DecoratorScan(record: map<string, nat>, size: nat, reports: seq<Report>)

  /** One iteration of the loop over the decorators. */
  function ScanStep(a: Arena, s: DecoratorScan, d: nat): DecoratorScan {
    match Classify(a, d)
    case NotResponse => s
    case Incomplete => s.(reports := s.reports + [Report(d, MissingResponse)])
    case Accepted(k) => s.(record := s.record[k := d], size := s.size + 1)
  }

  /** The loop over the decorators, in order. */
  function Scan(a: Arena, ds: seq<nat>): (r: DecoratorScan)
    ensures r.size + |r.reports| <= |ds|
    decreases |ds|
  {
    if ds == [] then DecoratorScan(map[], 0, [])
    else ScanStep(a, Scan(a, ds[..|ds| - 1]), ds[|ds| - 1])
  }

  /** The counter is zero exactly when no decorator was accepted. */
  lemma {:induction false} ScanSizeZero(a: Arena, ds: seq<nat>)
    ensures Scan(a, ds).size == 0 <==> forall d :: d in ds ==> !Classify(a, d).Accepted?
    decreases |ds|
  {
    if ds != [] {
      var prefix := ds[..|ds| - 1];
      ScanSizeZero(a, prefix);
      assert ds == prefix + [ds[|ds| - 1]];
    }
  }

  /** The reports are the incomplete `@Response` calls. */
  lemma {:induction false} ScanReports(a: Arena, ds: seq<nat>)
    ensures forall rep :: rep in Scan(a, ds).reports <==>
              rep.node in ds && rep.message == MissingResponse && Classify(a, rep.node).Incomplete?
    decreases |ds|
  {
    if ds != [] {
      var prefix := ds[..|ds| - 1];
      ScanReports(a, prefix);
      assert ds == prefix + [ds[|ds| - 1]];
    }
  }

  /** The record holds accepted decorators under their own keys. */
  lemma {:induction false} ScanRecordAccepted(a: Arena, ds: seq<nat>)
    ensures forall k :: k in Scan(a, ds).record ==> Scan(a, ds).record[k] in ds && Classify(a, Scan(a, ds).record[k]) == Accepted(k)
    decreases |ds|
  {
    if ds != [] {
      var prefix := ds[..|ds| - 1];
      ScanRecordAccepted(a, prefix);
      assert ds == prefix + [ds[|ds| - 1]];
    }
  }

  lemma ScanSnoc(a: Arena, ds: seq<nat>, i: nat)
    requires i < |ds|
    ensures Scan(a, ds[..i + 1]) == ScanStep(a, Scan(a, ds[..i]), ds[i])
  {
    assert ds[..i + 1][..i] == ds[..i];
  }

  /** The last accepted decorator with key k, searching from the end. */
  function LastAccepted(a: Arena, ds: seq<nat>, k: string): (r: Option<nat>)
    ensures r.Some? ==> r.value in ds && Classify(a, r.value) == Accepted(k)
    ensures r.None? ==> forall d :: d in ds ==> Classify(a, d) != Accepted(k)
    decreases |ds|
  {
    if ds == [] then None
    else
      var prefix, last := ds[..|ds| - 1], ds[|ds| - 1];
      assert ds == prefix + [last];
      if Classify(a, last) == Accepted(k) then Some(last)
      else LastAccepted(a, prefix, k)
  }

  /** No decorator after index i is accepted with key k. */
  predicate NoneAcceptedAfter(a: Arena, ds: seq<nat>, i: nat, k: string) {
    forall j :: i < j < |ds| ==> Classify(a, ds[j]) != Accepted(k)
  }

  /** The decorator found is the last one accepted with the key: no later decorator is. */
  lemma {:induction false} LastAcceptedIsLast(a: Arena, ds: seq<nat>, k: string)
    ensures LastAccepted(a, ds, k).Some? ==>
              exists i :: 0 <= i < |ds| && ds[i] == LastAccepted(a, ds, k).value && NoneAcceptedAfter(a, ds, i, k)
    decreases |ds|
  {
    if ds != [] {
      var n := |ds| - 1;
      var prefix, last := ds[..n], ds[n];
      var r := LastAccepted(a, ds, k);
      if Classify(a, last) == Accepted(k) {
        assert r == Some(ds[n]);
        assert NoneAcceptedAfter(a, ds, n, k);
      } else if LastAccepted(a, prefix, k).Some? {
        assert r == LastAccepted(a, prefix, k);
        LastAcceptedIsLast(a, prefix, k);
        var i :| 0 <= i < n && prefix[i] == r.value && NoneAcceptedAfter(a, prefix, i, k);
        assert ds[i] == r.value;
        forall j | i < j < |ds|
          ensures Classify(a, ds[j]) != Accepted(k)
        {
          if j < n {
            assert ds[j] == prefix[j];
          }
        }
        assert NoneAcceptedAfter(a, ds, i, k);
      }
    }
  }

  /** A later decorator for the same status replaces an earlier one, and every accepted status is present. */
  lemma {:induction false} ScanLastWins(a: Arena, ds: seq<nat>, k: string)
    ensures k in Scan(a, ds).record <==> LastAccepted(a, ds, k).Some?
    ensures k in Scan(a, ds).record ==> Scan(a, ds).record[k] == LastAccepted(a, ds, k).value
    decreases |ds|
  {
    if ds != [] {
      ScanLastWins(a, ds[..|ds| - 1], k);
    }
  }

  /** The counter counts accepted decorators, so it is at least the number of distinct statuses. */
  lemma {:induction false} ScanSizeBoundsKeys(a: Arena, ds: seq<nat>)
    ensures |Scan(a, ds).record.Keys| <= Scan(a, ds).size
    decreases |ds|
  {
    if ds != [] {
      var s := Scan(a, ds[..|ds| - 1]);
      ScanSizeBoundsKeys(a, ds[..|ds| - 1]);
      match Classify(a, ds[|ds| - 1])
      case NotResponse =>
      case Incomplete =>
      case Accepted(k) =>
        assert s.record[k := ds[|ds| - 1]].Keys == s.record.Keys + {k};
        assert |s.record.Keys + {k}| <= |s.record.Keys| + 1;
    }
  }

  /**
   * `responseDecorateValidate`: nothing (`undefined`) for a missing or
   * empty decorator list, otherwise the record and counter of the scan.
   */
  method ResponseDecorateValidate(a: Arena, decorators: Option<seq<nat>>) returns (r: Option<DecoratorScan>)
    ensures r.None? <==> decorators.None? || decorators.value == []
    ensures r.Some? ==> r.value == Scan(a, decorators.value)
  {
    if decorators.None? || |decorators.value| == 0 {
      return None;
    }
    var ds := decorators.value;
    var record: map<string, nat> := map[];
    var size := 0;
    var reports: seq<Report> := [];
    for i := 0 to |ds|
      invariant DecoratorScan(record, size, reports) == Scan(a, ds[..i])
    {
      ScanSnoc(a, ds, i);
      var d := ds[i];
      match Classify(a, d)
      case NotResponse =>
      case Incomplete =>
        reports := reports + [Report(d, MissingResponse)];
      case Accepted(k) =>
        record := record[k := d];
        size := size + 1;
    }
    assert ds[..|ds|] == ds;
    r := Some(DecoratorScan(record, size, reports));
  }

  // ---------------------------------------------------------------------------
  // validateReturn, up to the decorator lookup

  /** A `Property` whose key is the identifier `key`. */
  predicate IsKeyedProperty(a: Arena, p: nat, key: string) {
    p < |a| && a[p].kind.Property? && IsIdentifierNamed(a, a[p].kind.key, key)
  }

  /** The index of the first property keyed `key` at or after index i. */
  function FirstKeyed(a: Arena, props: seq<nat>, key: string, i: nat): (r: Option<nat>)
    requires i <= |props|
    ensures r.Some? ==> i <= r.value < |props| && IsKeyedProperty(a, props[r.value], key)
    ensures r.Some? ==> forall j :: i <= j < r.value ==> !IsKeyedProperty(a, props[j], key)
    ensures r.None? ==> forall j :: i <= j < |props| ==> !IsKeyedProperty(a, props[j], key)
    decreases |props| - i
  {
    if i == |props| then None
    else if IsKeyedProperty(a, props[i], key) then Some(i)
    else FirstKeyed(a, props, key, i + 1)
  }

  /** `properties.find(...)`: the first property keyed `key`. */
  function FindReturnValue(a: Arena, props: seq<nat>, key: string): (r: Option<nat>)
    ensures r.None? <==> forall j :: 0 <= j < |props| ==> !IsKeyedProperty(a, props[j], key)
    ensures r.Some? ==> exists k :: 0 <= k < |props| && props[k] == r.value && IsKeyedProperty(a, r.value, key)
                                    && forall j :: 0 <= j < k ==> !IsKeyedProperty(a, props[j], key)
  {
    match FirstKeyed(a, props, key, 0)
    case None => None
    case Some(k) => Some(props[k])
  }

  /** A return that passed the structural checks; its `res` type is still to be compared. */
  datatype PendingCheck = PendingCheck(ret: nat, statusProp: nat, resProp: nat, decorator: nat)

  datatype ReturnVerdict = Reported(report: Report) | Pending(check: PendingCheck)

  /** The object a return statement returns, if it returns an object literal. */
  function ReturnedObject(a: Arena, ret: nat): (r: Option<nat>)
    ensures r.Some? ==> r.value < |a| && a[r.value].kind.ObjectExpression?
  {
    if ret < |a| && a[ret].kind.ReturnStatement? && a[ret].kind.argument.Some?
       && a[ret].kind.argument.value < |a| && a[a[ret].kind.argument.value].kind.ObjectExpression?
    then a[ret].kind.argument
    else None
  }

  /** One iteration of the loop over the returns. */
  function CheckReturn(a: Arena, record: map<string, nat>, ret: nat): (v: ReturnVerdict)
    ensures v.Reported? && v.report.message == InvalidFormat ==> v.report.node == ret
    ensures v.Pending? ==> v.check.ret == ret && ReturnedObject(a, ret).Some?
  {
    match ReturnedObject(a, ret)
    case None => Reported(Report(ret, InvalidFormat))
    case Some(obj) =>
      var props := a[obj].kind.properties;
      var statusProp := FindReturnValue(a, props, "status");
      var resProp := FindReturnValue(a, props, "res");
      if statusProp.None? || resProp.None? then Reported(Report(ret, InvalidFormat))
      else
        match NumberLiteral(a, a[statusProp.value].kind.value)
        case None => Reported(Report(statusProp.value, InvalidStatusFormat))
        case Some(n) =>
          var key := IntToDecimal(n);
          if key !in record then Reported(Report(statusProp.value, MissingResponse))
          else Pending(PendingCheck(ret, statusProp.value, resProp.value, record[key]))
  }

  /**
   * The verdict on one return: not an object literal with both `status`
   * and `res` is an invalid format reported on the return; a status that
   * is not a number literal is reported on the `status` property, and so
   * is a number no decorator declared; otherwise the return is matched to
   * the decorator stored under the status's decimal text.
   */
  lemma CheckReturnMeaning(a: Arena, record: map<string, nat>, ret: nat)
    ensures var v := CheckReturn(a, record, ret);
            var obj := ReturnedObject(a, ret);
            var props := if obj.Some? then a[obj.value].kind.properties else [];
            var status := FindReturnValue(a, props, "status");
            var res := FindReturnValue(a, props, "res");
            && (v == Reported(Report(ret, InvalidFormat)) <==> obj.None? || status.None? || res.None?)
            && (obj.Some? && status.Some? && res.Some? ==>
                  match NumberLiteral(a, a[status.value].kind.value)
                  case None => v == Reported(Report(status.value, InvalidStatusFormat))
                  case Some(n) =>
                    && (IntToDecimal(n) !in record ==> v == Reported(Report(status.value, MissingResponse)))
                    && (IntToDecimal(n) in record ==> v == Pending(PendingCheck(ret, status.value, res.value, record[IntToDecimal(n)]))))
  {
  }

  datatype ReturnsOutcome = ReturnsOutcome(reports: seq<Report>, pending: seq<PendingCheck>)

  /** One iteration of the loop over the returns. */
  function ReturnStep(a: Arena, record: map<string, nat>, s: ReturnsOutcome, ret: nat): ReturnsOutcome {
    match CheckReturn(a, record, ret)
    case Reported(rep) => ReturnsOutcome(s.reports + [rep], s.pending)
    case Pending(p) => ReturnsOutcome(s.reports, s.pending + [p])
  }

  /** The loop over the returns, in order. */
  function ValidateReturns(a: Arena, record: map<string, nat>, rets: seq<nat>): (r: ReturnsOutcome)
    ensures |r.reports| + |r.pending| == |rets|
    decreases |rets|
  {
    if rets == [] then ReturnsOutcome([], [])
    else ReturnStep(a, record, ValidateReturns(a, record, rets[..|rets| - 1]), rets[|rets| - 1])
  }

  /** Each return yields its report or its pending check, and nothing else is produced. */
  lemma {:induction false} ValidateReturnsFacts(a: Arena, record: map<string, nat>, rets: seq<nat>)
    ensures forall k :: 0 <= k < |rets| && CheckReturn(a, record, rets[k]).Reported? ==>
              CheckReturn(a, record, rets[k]).report in ValidateReturns(a, record, rets).reports
    ensures forall k :: 0 <= k < |rets| && CheckReturn(a, record, rets[k]).Pending? ==>
              CheckReturn(a, record, rets[k]).check in ValidateReturns(a, record, rets).pending
    ensures forall rep :: rep in ValidateReturns(a, record, rets).reports ==>
              exists k :: 0 <= k < |rets| && CheckReturn(a, record, rets[k]) == Reported(rep)
    ensures forall p :: p in ValidateReturns(a, record, rets).pending ==>
              p.ret in rets && CheckReturn(a, record, p.ret) == Pending(p)
    decreases |rets|
  {
    if rets != [] {
      var prefix := rets[..|rets| - 1];
      ValidateReturnsFacts(a, record, prefix);
      assert forall k :: 0 <= k < |prefix| ==> prefix[k] == rets[k];
      assert rets == prefix + [rets[|rets| - 1]];
    }
  }

  lemma ValidateReturnsSnoc(a: Arena, record: map<string, nat>, rets: seq<nat>, i: nat)
    requires i < |rets|
    ensures ValidateReturns(a, record, rets[..i + 1]) == ReturnStep(a, record, ValidateReturns(a, record, rets[..i]), rets[i])
  {
    assert rets[..i + 1][..i] == rets[..i];
  }

  /** `validateReturn` as far as the decorator lookup (nothing for an empty list). */
  method ValidateReturn(a: Arena, record: map<string, nat>, rets: seq<nat>) returns (reports: seq<Report>, pending: seq<PendingCheck>)
    ensures ReturnsOutcome(reports, pending) == ValidateReturns(a, record, rets)
  {
    reports, pending := [], [];
    if |rets| == 0 {
      return;
    }
    for i := 0 to |rets|
      invariant ReturnsOutcome(reports, pending) == ValidateReturns(a, record, rets[..i])
    {
      ValidateReturnsSnoc(a, record, rets, i);
      match CheckReturn(a, record, rets[i])
      case Reported(rep) =>
        reports := reports + [rep];
      case Pending(p) =>
        pending := pending + [p];
    }
    assert rets[..|rets|] == rets;
  }

  /**
   * A numeric status in a return finds the decorator that declared that
   * status last, whether it was written as the number or as its decimal
   * string; without one the status is reported as missing.
   */
  lemma StatusFindsLastDecorator(a: Arena, ds: seq<nat>, ret: nat)
    requires ReturnedObject(a, ret).Some?
    requires var props := a[ReturnedObject(a, ret).value].kind.properties;
             && FindReturnValue(a, props, "status").Some?
             && FindReturnValue(a, props, "res").Some?
             && NumberLiteral(a, a[FindReturnValue(a, props, "status").value].kind.value).Some?
    ensures var props := a[ReturnedObject(a, ret).value].kind.properties;
            var statusProp := FindReturnValue(a, props, "status").value;
            var key := IntToDecimal(NumberLiteral(a, a[statusProp].kind.value).value);
            && (LastAccepted(a, ds, key).None? ==>
                  CheckReturn(a, Scan(a, ds).record, ret) == Reported(Report(statusProp, MissingResponse)))
            && (LastAccepted(a, ds, key).Some? ==>
                  CheckReturn(a, Scan(a, ds).record, ret)
                    == Pending(PendingCheck(ret, statusProp, FindReturnValue(a, props, "res").value, LastAccepted(a, ds, key).value)))
  {
    var props := a[ReturnedObject(a, ret).value].kind.properties;
    var statusProp := FindReturnValue(a, props, "status").value;
    var key := IntToDecimal(NumberLiteral(a, a[statusProp].kind.value).value);
    ScanLastWins(a, ds, key);
    CheckReturnMeaning(a, Scan(a, ds).record, ret);
  }

  /** `String(200)` and `"200"` are the same property name: a string status argument is found by a numeric return. */
  lemma StringStatusSameKey(a: Arena, numeric: nat, text: nat)
    requires NumberLiteral(a, numeric).Some?
    requires text < |a| && a[text].kind == Literal(StringValue(IntToDecimal(NumberLiteral(a, numeric).value)))
    ensures RecordKey(a, text) == RecordKey(a, numeric)
  {
  }

  /** A status argument that is not a literal is stored under `undefined`, which no numeric return looks up. */
  lemma NonLiteralStatusNeverMatches(a: Arena, statusArg: nat, n: int)
    requires !(statusArg < |a| && a[statusArg].kind.Literal?)
    ensures RecordKey(a, statusArg) != IntToDecimal(n)
  {
    var s := IntToDecimal(n);
    assert s[0] == '-' || '0' <= s[0] <= '9';
    assert RecordKey(a, statusArg) == "undefined";
  }

  // ---------------------------------------------------------------------------
  // The MethodDefinition listener

  /** What the listener does for one method: its reports and pending checks, or a thrown TypeError. */
  datatype Outcome = Checked(reports: seq<Report>, pending: seq<PendingCheck>) | Crashed

  /** `node.value.body`, when it is a block. */
  function BodyBlock(a: Arena, node: nat): (r: Option<nat>)
    ensures r.Some? ==> r.value < |a| && a[r.value].kind.BlockStatement?
  {
    if node < |a| && a[node].kind.MethodDefinition? then
      var f := a[node].kind.value;
      if f < |a| && a[f].kind.FunctionExpression? && a[f].kind.body.Some?
         && a[f].kind.body.value < |a| && a[a[f].kind.body.value].kind.BlockStatement?
      then a[f].kind.body
      else None
    else None
  }

  /** The decorator list of a method definition (`undefined` is None). */
  function Decorators(a: Arena, node: nat): Option<seq<nat>> {
    if node < |a| && a[node].kind.MethodDefinition? then a[node].kind.decorators else None
  }

  /** The reports and pending checks once the decorators have been scanned. */
  function AfterScan(a: Arena, scan: DecoratorScan, rets: seq<nat>): (r: Outcome)
    ensures r.Checked?
  {
    if scan.size == 0 then Checked(scan.reports, [])
    else
      var v := ValidateReturns(a, scan.record, rets);
      Checked(scan.reports + v.reports, v.pending)
  }

  /**
   * The same with the arguments as passed: `validateReturn` receives the
   * type checker as `parserServices`, so the first return that would
   * become a pending check reads `esTreeNodeToTSNodeMap` of the checker,
   * which is undefined, and throws.
   */
  function AfterScanAsWritten(a: Arena, scan: DecoratorScan, rets: seq<nat>): (r: Outcome)
    ensures r.Crashed? <==> AfterScan(a, scan, rets).pending != []
    ensures r.Checked? ==> r == AfterScan(a, scan, rets)
  {
    var r := AfterScan(a, scan, rets);
    if r.pending == [] then r else Crashed
  }

  /**
   * The listener with both defects removed: an empty decorator list is
   * read as no `@Response` decorator at all, and a matched return reaches
   * the type check (here a pending check) instead of throwing.
   */
  function MethodDefinitionGuardedSpec(a: Arena, mode: WalkMode, node: nat): (r: Outcome)
    ensures r.Checked?
    ensures Decorators(a, node) == Some([]) ==> r == Checked([], [])
  {
    match Decorators(a, node)
    case None => Checked([], [])
    case Some(ds) =>
      match BodyBlock(a, node)
      case None => Checked([], [])
      case Some(b) => AfterScan(a, Scan(a, ds), Dfs(a, mode, b, {}).1)
  }

  /**
   * The listener as written: an empty decorator list passes the first
   * guard, `responseDecorateValidate` returns `undefined`, and
   * destructuring it throws; otherwise the first return with a declared
   * status throws in `validateReturn`.
   */
  function MethodDefinitionSpec(a: Arena, mode: WalkMode, node: nat): (r: Outcome)
    ensures r.Crashed? <==>
              && Decorators(a, node).Some? && BodyBlock(a, node).Some?
              && (Decorators(a, node).value == [] || MethodDefinitionGuardedSpec(a, mode, node).pending != [])
    ensures Decorators(a, node).None? || BodyBlock(a, node).None? ==> r == Checked([], [])
  {
    match Decorators(a, node)
    case None => Checked([], [])
    case Some(ds) =>
      match BodyBlock(a, node)
      case None => Checked([], [])
      case Some(b) =>
        if ds == [] then Crashed
        else AfterScanAsWritten(a, Scan(a, ds), Dfs(a, mode, b, {}).1)
  }

  /** The guard changes nothing where the listener as written does not throw. */
  lemma GuardedAgreesWhenNoCrash(a: Arena, mode: WalkMode, node: nat)
    requires !MethodDefinitionSpec(a, mode, node).Crashed?
    ensures MethodDefinitionGuardedSpec(a, mode, node) == MethodDefinitionSpec(a, mode, node)
  {
  }

  /**
   * With no accepted `@Response` no return is looked at; otherwise every
   * return the walk collects from the body gets exactly one report or
   * pending check, and every pending check is for such a return.
   */
  lemma {:induction false} OutcomeAccountsForReturns(a: Arena, mode: WalkMode, node: nat)
    requires BodyBlock(a, node).Some? && Decorators(a, node).Some?
    ensures var r := MethodDefinitionGuardedSpec(a, mode, node);
            var body := BodyBlock(a, node).value;
            var scan := Scan(a, Decorators(a, node).value);
            && (scan.size == 0 ==> r == Checked(scan.reports, []))
            && (scan.size > 0 ==> |r.reports| + |r.pending| == |scan.reports| + |Dfs(a, mode, body, {}).1|)
            && (forall p :: p in r.pending ==> IsReturn(a, p.ret) && Reaches(a, mode, body, p.ret))
  {
    var body := BodyBlock(a, node).value;
    var scan := Scan(a, Decorators(a, node).value);
    if scan.size > 0 {
      var rets := Dfs(a, mode, body, {}).1;
      var v := ValidateReturns(a, scan.record, rets);
      assert MethodDefinitionGuardedSpec(a, mode, node) == Checked(scan.reports + v.reports, v.pending);
      ValidateReturnsFacts(a, scan.record, rets);
      DfsFindsReachableReturns(a, mode, body);
      forall p | p in v.pending
        ensures IsReturn(a, p.ret) && Reaches(a, mode, body, p.ret)
      {
        assert p.ret in rets;
      }
    }
  }

  /** The listener as written. */
  method MethodDefinition(a: Arena, mode: WalkMode, node: nat) returns (r: Outcome)
    ensures r == MethodDefinitionSpec(a, mode, node)
  {
    var decorators := Decorators(a, node);
    if decorators.None? {
      return Checked([], []);
    }
    var body := BodyBlock(a, node);
    if body.None? {
      return Checked([], []);
    }
    var rets := CollectWith(a, mode, body.value);
    var scan := ResponseDecorateValidate(a, decorators);
    if scan.None? {
      return Crashed;
    }
    if scan.value.size == 0 {
      return Checked(scan.value.reports, []);
    }
    var reports, pending := ValidateReturn(a, scan.value.record, rets);
    if pending != [] {
      return Crashed;
    }
    r := Checked(scan.value.reports + reports, pending);
  }
}
