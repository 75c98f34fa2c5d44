/**
 * The part of the ESTree / typescript-estree syntax tree the two lint
 * rules look at, as an arena: a node refers to its children and to its
 * parent by index. An index outside the arena is "not a node" (a `null`
 * or a non-node value) and every reader skips it.
 */
module Estree {
  import opened Wrappers

  datatype LiteralValue = NumberValue(n: int) | StringValue(s: string) | BooleanValue(b: bool) | NullValue

  /** `MethodDefinition.kind`: 'method' | 'constructor' | 'get' | 'set'. */
  datatype MethodKind = NormalMethod | ConstructorMethod | GetAccessor | SetAccessor

  datatype Kind =
    | Identifier(name: string)
    | Literal(literal: LiteralValue)
    | ThisExpression
    | MemberExpression(obj: nat, property: nat)
    | CallExpression(callee: nat, arguments: seq<nat>, typeArguments: Option<nat>)
    | TSTypeParameterInstantiation(params: seq<nat>)
    | TSTypeReference(typeName: nat)
    | ArrayExpression(elements: seq<Option<nat>>)
    | ObjectExpression(properties: seq<nat>)
    | Property(key: nat, value: nat)
    | Decorator(expression: nat)
    | ReturnStatement(argument: Option<nat>)
    | BlockStatement(statements: seq<nat>)
    /** A class declaration with its class body's elements inlined. */
    | ClassDeclaration(decorators: Option<seq<nat>>, members: seq<nat>)
    | MethodDefinition(methodKind: MethodKind, decorators: Option<seq<nat>>, key: nat, value: nat)
    | FunctionExpression(params: seq<nat>, body: Option<nat>)
    /** Any other node (Program, IfStatement, ...), with its child nodes in key order. */
    | OtherNode(children: seq<nat>)

  /** `parent` is `null` on the Program node only. */
  datatype Node = Node(kind: Kind, parent: Option<nat>)

  type Arena = seq<Node>

  function OptionList(o: Option<nat>): seq<nat> {
    if o.None? then [] else [o.value]
  }

  function OptionSeq(o: Option<seq<nat>>): seq<nat> {
    if o.None? then [] else o.value
  }

  /** Array holes (`null`) are skipped. */
  function PresentElements(elements: seq<Option<nat>>): (r: seq<nat>)
    ensures forall c :: c in r <==> Some(c) in elements
    decreases |elements|
  {
    if elements == [] then []
    else
      assert elements == [elements[0]] + elements[1..];
      OptionList(elements[0]) + PresentElements(elements[1..])
  }

  /** The node-valued own properties of a node other than `parent`, in key order. */
  function Children(k: Kind): seq<nat> {
    match k
    case Identifier(_) => []
    case Literal(_) => []
    case ThisExpression => []
    case MemberExpression(o, p) => [o, p]
    case CallExpression(c, args, t) => [c] + args + OptionList(t)
    case TSTypeParameterInstantiation(ps) => ps
    case TSTypeReference(t) => [t]
    case ArrayExpression(els) => PresentElements(els)
    case ObjectExpression(ps) => ps
    case Property(k, v) => [k, v]
    case Decorator(e) => [e]
    case ReturnStatement(arg) => OptionList(arg)
    case BlockStatement(ss) => ss
    case ClassDeclaration(ds, ms) => OptionSeq(ds) + ms
    case MethodDefinition(_, ds, k, v) => OptionSeq(ds) + [k, v]
    case FunctionExpression(ps, b) => ps + OptionList(b)
    case OtherNode(cs) => cs
  }

  function At(a: Arena, i: nat): Option<Kind> {
    if i < |a| then Some(a[i].kind) else None
  }

  predicate IsIdentifierNamed(a: Arena, i: nat, name: string) {
    i < |a| && a[i].kind.Identifier? && a[i].kind.name == name
  }

  /** The call node of a decorator `@name(...)`, if d is one. */
  function DecoratorCall(a: Arena, d: nat, name: string): (r: Option<nat>)
    ensures r.Some? ==> r.value < |a| && a[r.value].kind.CallExpression?
                        && IsIdentifierNamed(a, a[r.value].kind.callee, name)
  {
    if d < |a| && a[d].kind.Decorator? then
      var e := a[d].kind.expression;
      if e < |a| && a[e].kind.CallExpression? && IsIdentifierNamed(a, a[e].kind.callee, name) then Some(e) else None
    else None
  }

  /** The value of a numeric literal node. */
  function NumberLiteral(a: Arena, i: nat): Option<int> {
    if i < |a| && a[i].kind.Literal? && a[i].kind.literal.NumberValue? then Some(a[i].kind.literal.n) else None
  }

  predicate IsReturn(a: Arena, i: nat) {
    i < |a| && a[i].kind.ReturnStatement?
  }

  /** The indices below n. */
  function Below(n: nat): (s: set<nat>)
    ensures forall i: nat :: i in s <==> i < n
  {
    if n == 0 then {} else Below(n - 1) + {n - 1}
  }

  /** The indices of the arena that are nodes. */
  function Indices(a: Arena): (s: set<nat>)
    ensures forall i: nat :: i in s <==> i < |a|
  {
    Below(|a|)
  }

  /** What the parser guarantees: a node's children have it as their `parent`. */
  ghost predicate WellLinked(a: Arena) {
    forall i, c :: 0 <= i < |a| && c in Children(a[i].kind) && c < |a| ==> a[c].parent == Some(i)
  }
}
