/**
 * The recursive walks both lint rules use to find the `return` statements
 * of a method body: every own property of a node whose value is a node, or
 * an array of nodes, is followed, with a visited set against cycles.
 *
 * Both walks enumerate the node's keys with `for ... in`, and ESLint has
 * set `parent` on every node before any rule listener runs, so `parent` is
 * one of the followed properties. `WalkMode.followParent` says whether it
 * is; `stopAtReturn` says whether a `return` is a leaf of the walk
 * (validate-response) or is descended into (response-structure-match).
 */
module ReturnWalk {
  import opened Wrappers
  import opened Estree

  datatype WalkMode = WalkMode(stopAtReturn: bool, followParent: bool)

  /** The entries of s that are nodes of a. */
  function InArena(a: Arena, s: seq<nat>): (r: seq<nat>)
    ensures forall j :: j in r <==> j in s && j < |a|
    decreases |s|
  {
    if s == [] then []
    else
      assert s == [s[0]] + s[1..];
      (if s[0] < |a| then [s[0]] else []) + InArena(a, s[1..])
  }

  /** The nodes the walk moves to from node i: its children, then its parent when followed. */
  function Succ(a: Arena, mode: WalkMode, i: nat): (s: seq<nat>)
    ensures forall j :: j in s ==> j < |a|
  {
    if i >= |a| then []
    else InArena(a, Children(a[i].kind) + (if mode.followParent then OptionList(a[i].parent) else []))
  }

  /** Whether the walk goes on past node i. */
  predicate Expands(a: Arena, mode: WalkMode, i: nat) {
    !(mode.stopAtReturn && IsReturn(a, i))
  }

  /** p is a route the walk can take: every node but the last is passed through. */
  ghost predicate IsWalkPath(a: Arena, mode: WalkMode, p: seq<nat>) {
    && |p| > 0
    && (forall k :: 0 <= k < |p| ==> p[k] < |a|)
    && (forall k :: 0 <= k < |p| - 1 ==> Expands(a, mode, p[k]) && p[k + 1] in Succ(a, mode, p[k]))
  }

  ghost predicate Reaches(a: Arena, mode: WalkMode, from: nat, to: nat) {
    exists p :: IsWalkPath(a, mode, p) && p[0] == from && p[|p| - 1] == to
  }

  predicate Distinct(s: seq<nat>) {
    forall j, k :: 0 <= j < k < |s| ==> s[j] != s[k]
  }

  /**
   * The walk from node i given the nodes already visited: the new visited
   * set and the returns met, in visiting order.
   */
  function Dfs(a: Arena, mode: WalkMode, i: nat, visited: set<nat>): (r: (set<nat>, seq<nat>))
    ensures visited <= r.0
    decreases Indices(a) - visited, 0
  {
    if i in visited || i >= |a| then (visited, [])
    else
      var here := if IsReturn(a, i) then [i] else [];
      if !Expands(a, mode, i) then (visited + {i}, here)
      else
        var rest := DfsAll(a, mode, Succ(a, mode, i), visited + {i});
        (rest.0, here + rest.1)
  }

  /** The walk from each of cs in turn, threading the visited set. */
  function DfsAll(a: Arena, mode: WalkMode, cs: seq<nat>, visited: set<nat>): (r: (set<nat>, seq<nat>))
    ensures visited <= r.0
    decreases Indices(a) - visited, |cs| + 1
  {
    if cs == [] then (visited, [])
    else
      var first := Dfs(a, mode, cs[0], visited);
      var rest := DfsAll(a, mode, cs[1..], first.0);
      (rest.0, first.1 + rest.1)
  }

  /** Every passed-through node newly visited has all its successors visited. */
  ghost predicate ClosedOver(a: Arena, mode: WalkMode, before: set<nat>, after: set<nat>) {
    forall x, y :: x in after && x !in before && Expands(a, mode, x) && y in Succ(a, mode, x) ==> y in after
  }

  /** found lists exactly the returns newly visited, each once. */
  ghost predicate FoundExactly(a: Arena, before: set<nat>, after: set<nat>, found: seq<nat>) {
    && Distinct(found)
    && forall x :: x in found <==> x in after && x !in before && IsReturn(a, x)
  }

  lemma ReachesSelf(a: Arena, mode: WalkMode, i: nat)
    requires i < |a|
    ensures Reaches(a, mode, i, i)
  {
    assert IsWalkPath(a, mode, [i]);
  }

  lemma PrependStep(a: Arena, mode: WalkMode, i: nat, c: nat, x: nat)
    requires i < |a| && Expands(a, mode, i) && c in Succ(a, mode, i)
    requires Reaches(a, mode, c, x)
    ensures Reaches(a, mode, i, x)
  {
    var p :| IsWalkPath(a, mode, p) && p[0] == c && p[|p| - 1] == x;
    var q := [i] + p;
    forall k | 0 <= k < |q| - 1
      ensures Expands(a, mode, q[k]) && q[k + 1] in Succ(a, mode, q[k])
    {
      if k > 0 {
        assert q[k] == p[k - 1] && q[k + 1] == p[k];
      }
    }
    assert IsWalkPath(a, mode, q);
  }
  /** One more step in front of a route: from i down to a child, or up to its parent when that link is followed. */
  lemma ExtendRoute(a: Arena, mode: WalkMode, i: nat, c: nat, x: nat)
    requires i < |a| && c < |a| && Expands(a, mode, i)
    requires c in Children(a[i].kind) || (mode.followParent && a[i].parent == Some(c))
    requires Reaches(a, mode, c, x)
    ensures Reaches(a, mode, i, x)
  {
    assert c in Children(a[i].kind) + (if mode.followParent then OptionList(a[i].parent) else []);
    PrependStep(a, mode, i, c, x);
  }


  lemma {:induction false} DfsFacts(a: Arena, mode: WalkMode, i: nat, visited: set<nat>)
    ensures var r := Dfs(a, mode, i, visited);
            && (i < |a| ==> i in r.0)
            && ClosedOver(a, mode, visited, r.0)
            && FoundExactly(a, visited, r.0, r.1)
            && forall x :: x in r.0 && x !in visited ==> Reaches(a, mode, i, x)
    decreases Indices(a) - visited, 0
  {
    if i !in visited && i < |a| {
      var v := visited + {i};
      var here := if IsReturn(a, i) then [i] else [];
      ReachesSelf(a, mode, i);
      if Expands(a, mode, i) {
        var cs := Succ(a, mode, i);
        DfsAllFacts(a, mode, cs, v);
        var rest := DfsAll(a, mode, cs, v);
        assert Dfs(a, mode, i, visited) == (rest.0, here + rest.1);
        ExpandedStep(a, mode, i, visited, rest.0, rest.1);
      }
    }
  }

  /** The facts of one expanding step of Dfs, from those of the walk over its successors. */
  lemma ExpandedStep(a: Arena, mode: WalkMode, i: nat, visited: set<nat>, after: set<nat>, found: seq<nat>)
    requires i < |a| && i !in visited && Expands(a, mode, i)
    requires var cs := Succ(a, mode, i);
             && (forall c :: c in cs && c < |a| ==> c in after)
             && ClosedOver(a, mode, visited + {i}, after)
             && FoundExactly(a, visited + {i}, after, found)
             && forall x :: x in after && x !in visited + {i} ==> exists c :: c in cs && Reaches(a, mode, c, x)
    requires visited + {i} <= after
    ensures ClosedOver(a, mode, visited, after)
    ensures FoundExactly(a, visited, after, (if IsReturn(a, i) then [i] else []) + found)
    ensures forall x :: x in after && x !in visited ==> Reaches(a, mode, i, x)
  {
    var here := if IsReturn(a, i) then [i] else [];
    var f := here + found;
    forall j, k | 0 <= j < k < |f|
      ensures f[j] != f[k]
    {
      if j < |here| {
        assert f[k] in found;
      }
    }
    forall x | x in after && x !in visited
      ensures Reaches(a, mode, i, x)
    {
      if x == i {
        ReachesSelf(a, mode, i);
      } else {
        var c :| c in Succ(a, mode, i) && Reaches(a, mode, c, x);
        PrependStep(a, mode, i, c, x);
      }
    }
  }

  lemma {:induction false} DfsAllFacts(a: Arena, mode: WalkMode, cs: seq<nat>, visited: set<nat>)
    ensures var r := DfsAll(a, mode, cs, visited);
            && (forall c :: c in cs && c < |a| ==> c in r.0)
            && ClosedOver(a, mode, visited, r.0)
            && FoundExactly(a, visited, r.0, r.1)
            && forall x :: x in r.0 && x !in visited ==> exists c :: c in cs && Reaches(a, mode, c, x)
    decreases Indices(a) - visited, |cs| + 1
  {
    if cs != [] {
      var first := Dfs(a, mode, cs[0], visited);
      DfsFacts(a, mode, cs[0], visited);
      DfsAllFacts(a, mode, cs[1..], first.0);
      var rest := DfsAll(a, mode, cs[1..], first.0);
      assert forall c :: c in cs ==> c == cs[0] || c in cs[1..];
      forall x | x in rest.0 && x !in visited
        ensures exists c :: c in cs && Reaches(a, mode, c, x)
      {
        if x in first.0 {
          assert Reaches(a, mode, cs[0], x);
        } else {
          var c :| c in cs[1..] && Reaches(a, mode, c, x);
          assert c in cs;
        }
      }
      var f := first.1 + rest.1;
      forall j, k | 0 <= j < k < |f|
        ensures f[j] != f[k]
      {
        if j < |first.1| && k >= |first.1| {
          assert f[j] in first.1 && f[k] in rest.1;
        }
      }
    }
  }

  /**
   * The walk from root meets exactly the returns the walk can reach from
   * root, each once.
   */
  lemma {:induction false} DfsFindsReachableReturns(a: Arena, mode: WalkMode, root: nat)
    requires root < |a|
    ensures var found := Dfs(a, mode, root, {}).1;
            && Distinct(found)
            && forall x :: x in found <==> IsReturn(a, x) && Reaches(a, mode, root, x)
  {
    var r := Dfs(a, mode, root, {});
    DfsFacts(a, mode, root, {});
    forall x | IsReturn(a, x) && Reaches(a, mode, root, x)
      ensures x in r.1
    {
      var p :| IsWalkPath(a, mode, p) && p[0] == root && p[|p| - 1] == x;
      var k := 0;
      while k < |p| - 1
        invariant 0 <= k <= |p| - 1
        invariant p[k] in r.0
      {
        assert Expands(a, mode, p[k]) && p[k + 1] in Succ(a, mode, p[k]);
        k := k + 1;
      }
    }
  }

  /** The node k `parent` steps above x, if the chain is that long. */
  function Climb(a: Arena, x: nat, k: nat): Option<nat>
    decreases k
  {
    if k == 0 then (if x < |a| then Some(x) else None)
    else if x < |a| && a[x].parent.Some? then Climb(a, a[x].parent.value, k - 1)
    else None
  }

  /** anc is x or lies on x's `parent` chain. */
  ghost predicate IsAncestor(a: Arena, anc: nat, x: nat) {
    exists k: nat :: Climb(a, x, k) == Some(anc)
  }

  /** Without the parent link, a walk path only descends: its start is an ancestor of its end. */
  lemma {:induction false} ChildPathClimbs(a: Arena, mode: WalkMode, p: seq<nat>)
    requires WellLinked(a) && !mode.followParent
    requires IsWalkPath(a, mode, p)
    ensures Climb(a, p[|p| - 1], |p| - 1) == Some(p[0])
    decreases |p|
  {
    if |p| > 1 {
      var q := p[..|p| - 1];
      assert IsWalkPath(a, mode, q);
      ChildPathClimbs(a, mode, q);
      var x, y := p[|p| - 1], p[|p| - 2];
      assert x in Succ(a, mode, y);
      assert x in Children(a[y].kind);
    }
  }

  /**
   * The corrected walk (no parent link) only meets returns inside the
   * node it starts from: that node is on each found return's parent chain.
   */
  lemma DfsWithoutParentStaysInside(a: Arena, mode: WalkMode, root: nat)
    requires WellLinked(a) && !mode.followParent && root < |a|
    ensures forall x :: x in Dfs(a, mode, root, {}).1 ==> IsAncestor(a, root, x)
  {
    DfsFindsReachableReturns(a, mode, root);
    forall x | x in Dfs(a, mode, root, {}).1
      ensures IsAncestor(a, root, x)
    {
      var p :| IsWalkPath(a, mode, p) && p[0] == root && p[|p| - 1] == x;
      ChildPathClimbs(a, mode, p);
    }
  }

  /** The mutable state of one walk: the visited set and the returns reported so far. */
  class ReturnCollector {
    const arena: Arena
    const mode: WalkMode
    /** The nodes of the arena: what the visited set grows towards. */
    ghost const nodes: set<nat>
    var visited: set<nat>
    var found: seq<nat>

    constructor (arena: Arena, mode: WalkMode)
      ensures this.arena == arena && this.mode == mode
      ensures nodes == Indices(arena)
      ensures visited == {} && found == []
    {
      this.arena := arena;
      this.mode := mode;
      this.nodes := Indices(arena);
      visited := {};
      found := [];
    }

    /** One call of the recursive walk: reports the returns it meets by appending them to found. */
    method Walk(node: nat)
      requires nodes == Indices(arena)
      modifies this
      ensures visited == Dfs(arena, mode, node, old(visited)).0
      ensures found == old(found) + Dfs(arena, mode, node, old(visited)).1
      decreases nodes - visited, 1
    {
      if node !in visited && node < |arena| {
        Visit(node);
      }
    }

    /** The walk at a node not yet visited: mark it, report it if it is a return, go on past it. */
    method Visit(node: nat)
      requires nodes == Indices(arena)
      requires node !in visited && node < |arena|
      modifies this
      ensures visited == Dfs(arena, mode, node, old(visited)).0
      ensures found == old(found) + Dfs(arena, mode, node, old(visited)).1
      decreases nodes - visited, 0
    {
      ghost var v0, f0 := visited, found;
      VisitShrinks(nodes, v0, node);
      Mark(node);
      GoOn(node);
      DfsVisit(arena, mode, node, v0);
      ConcatAssoc(f0, Here(arena, node), Past(arena, mode, node, v0 + {node}).1);
    }

    /** Past a node the walk goes on into each of its successors, unless it stops there. */
    method GoOn(node: nat)
      requires nodes == Indices(arena)
      modifies this
      ensures visited == Past(arena, mode, node, old(visited)).0
      ensures found == old(found) + Past(arena, mode, node, old(visited)).1
      decreases nodes - visited, |Succ(arena, mode, node)| + 3
    {
      if Expands(arena, mode, node) {
        WalkEach(Succ(arena, mode, node));
      }
    }

    /** `visited.add(node)`, and `found.push(node)` for a return. */
    method Mark(node: nat)
      modifies this
      ensures visited == old(visited) + {node}
      ensures found == old(found) + Here(arena, node)
    {
      visited := visited + {node};
      if IsReturn(arena, node) {
        found := found + [node];
      }
    }

    /** The loop over a node's child properties (and `parent`), walking each in turn. */
    method WalkEach(cs: seq<nat>)
      requires nodes == Indices(arena)
      modifies this
      ensures visited == DfsAll(arena, mode, cs, old(visited)).0
      ensures found == old(found) + DfsAll(arena, mode, cs, old(visited)).1
      decreases nodes - visited, |cs| + 2
    {
      ghost var target := DfsAll(arena, mode, cs, visited);
      var k := 0;
      while k < |cs|
        invariant 0 <= k <= |cs|
        invariant nodes - visited <= nodes - old(visited)
        invariant DfsAll(arena, mode, cs[k..], visited).0 == target.0
        invariant found + DfsAll(arena, mode, cs[k..], visited).1 == old(found) + target.1
      {
        DfsAllStep(arena, mode, cs, k, visited);
        ghost var before, v := found, visited;
        Walk(cs[k]);
        ConcatAssoc(before, Dfs(arena, mode, cs[k], v).1, DfsAll(arena, mode, cs[k + 1..], visited).1);
        k := k + 1;
      }
    }
  }

  /** Visiting a new node shrinks the set of nodes left to visit. */
  lemma VisitShrinks(nodes: set<nat>, visited: set<nat>, node: nat)
    requires node in nodes && node !in visited
    ensures nodes - (visited + {node}) < nodes - visited
  {
    assert node in nodes - visited;
  }

  lemma ConcatAssoc<T>(x: seq<T>, y: seq<T>, z: seq<T>)
    ensures (x + y) + z == x + (y + z)
  {
  }

  /** The node itself when it is a return. */
  function Here(a: Arena, i: nat): seq<nat> {
    if IsReturn(a, i) then [i] else []
  }

  /** What the walk does past node i: each successor in turn, or nothing where it stops. */
  function Past(a: Arena, mode: WalkMode, i: nat, visited: set<nat>): (set<nat>, seq<nat>) {
    if Expands(a, mode, i) then DfsAll(a, mode, Succ(a, mode, i), visited) else (visited, [])
  }

  /** Dfs at a node not yet visited: the node, then what lies past it. */
  lemma DfsVisit(a: Arena, mode: WalkMode, i: nat, visited: set<nat>)
    requires i !in visited && i < |a|
    ensures var rest := Past(a, mode, i, visited + {i});
            Dfs(a, mode, i, visited) == (rest.0, Here(a, i) + rest.1)
  {
    if !Expands(a, mode, i) {
      assert Here(a, i) + [] == Here(a, i);
    }
  }

  /** One iteration of the loop over cs: walk cs[k], then the rest. */
  lemma DfsAllStep(a: Arena, mode: WalkMode, cs: seq<nat>, k: nat, visited: set<nat>)
    requires k < |cs|
    ensures var step := Dfs(a, mode, cs[k], visited);
            var rest := DfsAll(a, mode, cs[k + 1..], step.0);
            DfsAll(a, mode, cs[k..], visited) == (rest.0, step.1 + rest.1)
  {
    assert cs[k..][0] == cs[k];
    assert cs[k..][1..] == cs[k + 1..];
  }

  /** The returns a fresh walk from node meets, in the order it reports them. */
  method CollectWith(a: Arena, mode: WalkMode, node: nat) returns (found: seq<nat>)
    ensures found == Dfs(a, mode, node, {}).1
  {
    var collector := new ReturnCollector(a, mode);
    collector.Walk(node);
    found := collector.found;
  }

  /** validate-response's `collectReturnStatements` as written: follows `parent`, stops at a return. */
  const CollectMode: WalkMode := WalkMode(true, true)

  /** response-structure-match's `findReturnStatementsSafely` as written: follows `parent`, descends into returns. */
  const FindMode: WalkMode := WalkMode(false, true)

  method CollectReturnStatements(a: Arena, node: nat) returns (found: seq<nat>)
    requires node < |a|
    ensures Distinct(found)
    ensures forall x :: x in found <==> IsReturn(a, x) && Reaches(a, CollectMode, node, x)
  {
    found := CollectWith(a, CollectMode, node);
    DfsFindsReachableReturns(a, CollectMode, node);
  }

  method FindReturnStatementsSafely(a: Arena, node: nat) returns (found: seq<nat>)
    requires node < |a|
    ensures Distinct(found)
    ensures forall x :: x in found <==> IsReturn(a, x) && Reaches(a, FindMode, node, x)
  {
    found := CollectWith(a, FindMode, node);
    DfsFindsReachableReturns(a, FindMode, node);
  }

  /** The corrected collector: `parent` is not followed, so only the body's own returns are met. */
  method CollectReturnStatementsInBody(a: Arena, node: nat) returns (found: seq<nat>)
    requires node < |a|
    ensures Distinct(found)
    ensures forall x :: x in found <==> IsReturn(a, x) && Reaches(a, WalkMode(true, false), node, x)
    ensures WellLinked(a) ==> forall x :: x in found ==> IsAncestor(a, node, x)
  {
    found := CollectWith(a, WalkMode(true, false), node);
    DfsFindsReachableReturns(a, WalkMode(true, false), node);
    if WellLinked(a) {
      DfsWithoutParentStaysInside(a, WalkMode(true, false), node);
    }
  }

  method FindReturnStatementsInBody(a: Arena, node: nat) returns (found: seq<nat>)
    requires node < |a|
    ensures Distinct(found)
    ensures forall x :: x in found <==> IsReturn(a, x) && Reaches(a, WalkMode(false, false), node, x)
    ensures WellLinked(a) ==> forall x :: x in found ==> IsAncestor(a, node, x)
  {
    found := CollectWith(a, WalkMode(false, false), node);
    DfsFindsReachableReturns(a, WalkMode(false, false), node);
    if WellLinked(a) {
      DfsWithoutParentStaysInside(a, WalkMode(false, false), node);
    }
  }
}

/**
 * A file with a method body and, beside it, a helper function, both with
 * a `return`: following `parent` takes the walk out of the body and into
 * the helper.
 */
module ReturnWalkExample {
  import opened Wrappers
  import opened Estree
  import opened ReturnWalk

  /**
   * 0 Program, 1 the method's function, 2 its body, 3 its return,
   * 4 the helper function, 5 its body, 6 its return.
   */
  function MethodAndHelper(): (a: Arena)
    ensures |a| == 7
  {
    [ Node(OtherNode([1, 4]), None),
      Node(OtherNode([2]), Some(0)),
      Node(BlockStatement([3]), Some(1)),
      Node(ReturnStatement(None), Some(2)),
      Node(OtherNode([5]), Some(0)),
      Node(BlockStatement([6]), Some(4)),
      Node(ReturnStatement(None), Some(5)) ]
  }

  /** The nodes of MethodAndHelper one by one, so that proofs about it need not unfold the literal. */
  predicate MethodAndHelperShape(a: Arena) {
    && |a| == 7
    && a[0] == Node(OtherNode([1, 4]), None)
    && a[1] == Node(OtherNode([2]), Some(0))
    && a[2] == Node(BlockStatement([3]), Some(1))
    && a[4] == Node(OtherNode([5]), Some(0))
    && a[5] == Node(BlockStatement([6]), Some(4))
    && a[6] == Node(ReturnStatement(None), Some(5))
  }

  lemma MethodAndHelperHasShape()
    ensures MethodAndHelperShape(MethodAndHelper())
  {
  }

  lemma MethodAndHelperWellLinked()
    ensures WellLinked(MethodAndHelper())
  {
    var a := MethodAndHelper();
    forall i, c | 0 <= i < |a| && c in Children(a[i].kind) && c < |a|
      ensures a[c].parent == Some(i)
    {
    }
  }

  /** The helper's return is not inside the method body: the body is not on its parent chain. */
  lemma HelperReturnOutsideBody()
    ensures !IsAncestor(MethodAndHelper(), 2, 6)
  {
    var a := MethodAndHelper();
    forall k: nat
      ensures Climb(a, 6, k) != Some(2)
    {
      if k >= 1 {
        assert Climb(a, 6, k) == Climb(a, 5, k - 1);
      }
      if k >= 2 {
        assert Climb(a, 5, k - 1) == Climb(a, 4, k - 2);
      }
      if k >= 3 {
        assert Climb(a, 4, k - 2) == Climb(a, 0, k - 3);
      }
    }
  }

  /** The route the walk takes from the method body up through `parent` and down into the helper. */
  lemma UpAndIntoHelper(a: Arena, mode: WalkMode)
    requires MethodAndHelperShape(a)
    requires mode.followParent
    ensures Reaches(a, mode, 2, 6)
  {
    ReachesSelf(a, mode, 6);
    ExtendRoute(a, mode, 5, 6, 6);
    ExtendRoute(a, mode, 4, 5, 6);
    ExtendRoute(a, mode, 0, 4, 6);
    ExtendRoute(a, mode, 1, 0, 6);
    ExtendRoute(a, mode, 2, 1, 6);
  }

  /** As written, the walk from the method body reports the helper's return. */
  lemma {:induction false} ParentLinkLeavesBody(a: Arena)
    requires a == MethodAndHelper()
    ensures 6 in Dfs(a, CollectMode, 2, {}).1
    ensures 6 in Dfs(a, FindMode, 2, {}).1
  {
    MethodAndHelperHasShape();
    UpAndIntoHelper(a, CollectMode);
    UpAndIntoHelper(a, FindMode);
    DfsFindsReachableReturns(a, CollectMode, 2);
    DfsFindsReachableReturns(a, FindMode, 2);
  }

  /** Without the parent link the helper's return is not reported. */
  lemma {:induction false} CorrectedWalkStaysInBody(a: Arena)
    requires a == MethodAndHelper()
    ensures 6 !in Dfs(a, WalkMode(true, false), 2, {}).1
    ensures 6 !in Dfs(a, WalkMode(false, false), 2, {}).1
  {
    MethodAndHelperWellLinked();
    HelperReturnOutsideBody();
    DfsWithoutParentStaysInside(a, WalkMode(true, false), 2);
    DfsWithoutParentStaysInside(a, WalkMode(false, false), 2);
  }
}
