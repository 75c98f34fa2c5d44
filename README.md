# Response contracts of an express/zod controller framework, in Dafny

This project models the core of a small TypeScript web framework. Controllers
declare their responses with `@Response(status, Type)` decorators and return
through `this.rtn<Type>(status, value)`. The model covers:

- **The `validate-response` ESLint rule** (`ValidateResponse`, walk in
  `ReturnWalk`). The rule works in four steps:
  - it recognises a controller class by its `@BasePath(...)` call decorator;
  - it extracts the `Response(...)` decorators of each method and reports repeated statuses;
  - it builds the status → accepted type names map;
  - it walks each method body for `return` statements and checks each one:
    - it has an argument;
    - the argument has the shape `this.rtn(...)`;
    - the status is a numeric literal;
    - the status is declared;
    - the explicit generic is one of the declared types.

  The syntax tree is an arena (`Estree.Arena`): a sequence of nodes with child
  indices and a `parent` index. Because of that, sharing, cycles through
  `parent` and the walk's `visited` set all matter. The rule object is the
  class `ValidateResponseRule`. Its three weak maps are fields, and each
  ESLint listener call is a method that is proved against a state-transition
  function (`ClassStep`, `MemberStep`, `ReturnStep`). ESLint's sequence of
  listener calls is a parameter (`Lint`, `LintSpec`).
- **The earlier rule `response-structure-match`** (`ResponseStructureMatch`), up to
  the point where it asks the TypeScript checker. It covers:
  - the decorator record with its `size` counter;
  - the `findReturnStatementsSafely` walk;
  - the `{ status, res }` checks of `validateReturn`.
- **The zod custom error message codec** `__custom::<status>::<code>::<message>`
  (`CustomErrorMessage`, with decimal rendering and parsing in `Decimal`).
- **The two metadata registries** behind `Reflect.defineMetadata`:
  - `OapiMetadata.MetadataStore` keeps append-lists of responses;
  - `DiMetadata.ControllerRegistry` keeps one overwritten response cell,
    reads the base path and the routes through `constructor`, and lets an
    instance read the parameters and the response of its prototype.

  Both are classes whose fields are maps keyed by controller object (and
  handler name).
- **The OpenAPI assembly of `registerSwaggerDoc`** (`SwaggerRegister`):
  `makeResponseMeta`, the `responses` and `paths` reductions, and the loop over
  controllers.
- **`Controller.rtn` and `isControllerReturnType`** (`ControllerReturn`), over
  a small model of JavaScript values (`Runtime`).

The return walk is written once, as a functional depth-first search `Dfs`, and
once as the imperative class `ReturnCollector` whose methods are proved equal
to it. It is specified by reachability: the returns it finds are exactly the
reachable return statements, each once. `WalkMode` selects the variant:
- `stopAtReturn`: `validate-response` stops at a return, while the earlier rule descends into it;
- `followParent`: whether the `parent` link that ESLint puts on every node is followed.

The module sets `ValidateResponseExamples`, `ResponseStructureMatchExamples`
and `ReturnWalkExample` hold small syntax trees taken from the rule's test
suite and from the findings below. `OapiExamples` runs the controller
test's `MockController` through the OpenAPI registry and the swagger
register, and `DiMetadata.UserControllerRouterReads` runs `UserController`
through the DI registry.

Behaviour of the code worth noting:
- For a repeated status, the last `@Response` sets the status map's entry (eslint-rules/src/rules/validate-response.ts:92-100, `statusMap.set` in a loop; `StatusTypeMapLastWins`).
- `collectReturnStatements` descends into every child that is a node, nested functions included, and through the `parent` link out of the method body (eslint-rules/src/rules/validate-response.ts:146-165; finding 1).
- A `this.rtn` call with no type argument, or whose first type argument is not a plain type name, is accepted (eslint-rules/src/rules/validate-response.ts:214-238; `RtnGeneric`).
- The return handler runs only for `return` statements, so a method with declared responses and no `return` gets no report (eslint-rules/src/rules/validate-response.ts:115-127). The test that would cover that case is commented out at `eslint-rules/src/__test__/validate-response.test.ts:209-218`.
- The diagnostic ids are `duplicateStatus`, `invalidReturnStatus`, `emptyReturn`, `returnWithOutThisRtn`, `returnStatusShouldBeNumber` and `returnTypeNotMatch` (eslint-rules/src/rules/validate-response.ts:37-49).

## Model

| member | source | states |
|---|---|---|
| ValidateResponse.ZSchemaOwner | eslint-rules/src/rules/validate-response.ts:288-306 | a name exactly for `X.z` with an identifier `X`, and then the name is `X` |
| ValidateResponse.ZSchemaOwners | eslint-rules/src/rules/validate-response.ts:268-278 | every kept name is the owner of some element, never more names than elements |
| ValidateResponse.ZSchemaOwnersComplete | eslint-rules/src/rules/validate-response.ts:268-278 | every `X.z` element's owner is kept |
| ValidateResponse.ZSchemaOwnersInOrder | eslint-rules/src/rules/validate-response.ts:268-278 | when all elements are `X.z`, the names are their owners element by element, in order |
| ValidateResponse.ZSchemaOwnersAppend | eslint-rules/src/rules/validate-response.ts:268-278 | the names of an array are read element by element: the names of a concatenation are the concatenated names |
| ValidateResponse.TypeNamesOf | eslint-rules/src/rules/validate-response.ts:262-278 | an identifier gives its name; an array gives the owners of its `X.z` elements; `X.z` gives `[X]`; every other form gives nothing |
| ValidateResponse.ResponseInfoOf | eslint-rules/src/rules/validate-response.ts:250-282 | kept exactly when the decorator is `Response(...)` with two arguments, a numeric literal status and a type argument naming at least one type; then the status is the literal's value and the types are the names read from the second argument |
| ValidateResponse.ResponsesOf | eslint-rules/src/rules/validate-response.ts:242-307 | every extracted response comes from an accepted decorator of the method, and every accepted decorator is extracted; other decorators are dropped (order: `ResponsesOfAppend`) |
| ValidateResponse.ResponsesOfSnoc | eslint-rules/src/rules/validate-response.ts:248-306 | one more decorator appends what it contributes, after the earlier responses |
| ValidateResponse.ResponsesOfAppend | eslint-rules/src/rules/validate-response.ts:242-307 | extraction keeps decorator order: the responses of a concatenation are the concatenated responses |
| ValidateResponse.ResponsesOfSingle | eslint-rules/src/rules/validate-response.ts:250-306 | one decorator yields its response exactly when it is an accepted `Response(...)`, and nothing otherwise |
| ValidateResponse.ExtractResponseDecorators | eslint-rules/src/rules/validate-response.ts:242-307 | the loop pushes exactly `ResponsesOf` of the method's decorators, each with at least one type name |
| ValidateResponse.ResponsesHaveTypes | eslint-rules/src/rules/validate-response.ts:276-282 | every extracted response names at least one type |
| ValidateResponse.ResponsesOfPrefixStep | eslint-rules/src/rules/validate-response.ts:248-306 | one loop step: the responses of a longer prefix add the next decorator's contribution |
| ValidateResponse.StatusesSnoc | eslint-rules/src/rules/validate-response.ts:313-324 | the set of seen statuses grows by the status of each response in turn |
| ValidateResponse.DuplicateReportsSnoc | eslint-rules/src/rules/validate-response.ts:313-324 | one loop step adds a report exactly when the status was seen before |
| ValidateResponse.ReportDuplicateStatuses | eslint-rules/src/rules/validate-response.ts:309-325 | the loop over a `Map` from each status to its first decorator reports exactly `DuplicateReports` |
| ValidateResponse.DuplicateReportsCount | eslint-rules/src/rules/validate-response.ts:313-324 | number of reports = responses − distinct statuses; every report is on a later declaration of an already seen status |
| ValidateResponse.BeforeFirstDot | eslint-rules/src/rules/validate-response.ts:96-98 | the result is the prefix before the first `.`, the whole name when it has none |
| ValidateResponse.NormalizeTypeName | eslint-rules/src/rules/validate-response.ts:96-98 | a name without `.` is unchanged |
| ValidateResponse.NormalizeIsBeforeFirstDot | eslint-rules/src/rules/validate-response.ts:96-98 | `split('.')[0]` equals the prefix before the first dot |
| ValidateResponse.NormalizeAll | eslint-rules/src/rules/validate-response.ts:95-99 | element-wise normalisation, same length |
| ValidateResponse.StatusTypeMap | eslint-rules/src/rules/validate-response.ts:92-101 | the map's keys are exactly the extracted statuses |
| ValidateResponse.LastDeclaring | eslint-rules/src/rules/validate-response.ts:92-101 | finds a declaration of the status exactly when one exists, and no later response declares that status |
| ValidateResponse.StatusTypeMapLastWins | eslint-rules/src/rules/validate-response.ts:92-101 | for a repeated status the map holds the normalised types of the last declaration |
| ValidateResponse.StatusTypeMapNonEmpty | eslint-rules/src/rules/validate-response.ts:92-101 | every mapped type list is non-empty when every response has types |
| ValidateResponse.BuildStatusTypeMap | eslint-rules/src/rules/validate-response.ts:92-101 | the loop of `statusMap.set` calls builds exactly `StatusTypeMap` |
| ValidateResponse.ValidateReturnFormat | eslint-rules/src/rules/validate-response.ts:168-240 | no report exactly when the return conforms; `emptyReturn` on the statement without an argument; `returnWithOutThisRtn` on the statement when the argument is not `this.rtn(...)`; `returnStatusShouldBeNumber` on the statement without a numeric literal status; `invalidReturnStatus` on the status literal for an undeclared status; `returnTypeNotMatch` on the type arguments, with the declared list, when the generic is not declared |
| ValidateResponse.IsThisRtnCall | eslint-rules/src/rules/validate-response.ts:180-189 | only a call can be `this.rtn(...)`; a call on a member other than `rtn` is not |
| ValidateResponse.RtnStatus | eslint-rules/src/rules/validate-response.ts:191-202 | a status exactly when the first argument is a numeric literal, and then its value |
| ValidateResponse.RtnGeneric | eslint-rules/src/rules/validate-response.ts:214-226 | a generic only with type arguments whose first parameter is a type reference named by an identifier; the report node is that type-arguments node |
| ValidateResponse.EmptyReturnFirst | eslint-rules/src/rules/validate-response.ts:175-178 | a bare `return;` gives `emptyReturn` whatever the map |
| ValidateResponse.UndeclaredStatusBeforeType | eslint-rules/src/rules/validate-response.ts:202-212 | an undeclared numeric status is reported on the status literal before any type check |
| ValidateResponse.MapReturns | eslint-rules/src/rules/validate-response.ts:103-108 | every found return maps to the method; other entries are unchanged |
| ValidateResponse.MethodBody | eslint-rules/src/rules/validate-response.ts:103-104 | only a method definition has a body, the body of its function expression |
| ValidateResponse.Register | eslint-rules/src/rules/validate-response.ts:87-108 | appends exactly the duplicate reports, records the method's responses and status map, and maps every return the walk of the body finds to the method, other entries unchanged; without a body the return map is unchanged |
| ValidateResponse.MemberStep | eslint-rules/src/rules/validate-response.ts:80-109 | a member that is not a `kind: 'method'` method with responses changes nothing; one that is, is registered with its responses (`Register`), adding only `duplicateStatus` reports |
| ValidateResponse.MembersFold | eslint-rules/src/rules/validate-response.ts:80-109 | diagnostics are only appended, and the status cache gains exactly the class body's methods with responses |
| ValidateResponse.ClassStep | eslint-rules/src/rules/validate-response.ts:68-114 | a class without `@BasePath(...)` changes nothing; one with it folds `MemberStep` over its body in member order |
| ValidateResponse.HasBasePath | eslint-rules/src/rules/validate-response.ts:71-78 | only a class declaration carries `@BasePath(...)`; a class without decorators never does |
| ValidateResponse.ReturnStep | eslint-rules/src/rules/validate-response.ts:115-127 | a return not mapped to a method, or whose method has no status map, changes nothing; otherwise exactly the `validateReturnFormat` report against that method's map is appended, and nothing else changes |
| ValidateResponse.Reported | eslint-rules/src/rules/validate-response.ts:168-240 | a report appends one diagnostic, no report none |
| ValidateResponse.RegisteredReturnIsChecked | eslint-rules/src/rules/validate-response.ts:103-123 | once a method is registered, every return its body's walk reaches is checked against that method's status map |
| ValidateResponse.ValidateResponseRule.constructor | eslint-rules/src/rules/validate-response.ts:53-65 | the three maps and the diagnostics start empty |
| ValidateResponse.ValidateResponseRule.ClassDeclaration | eslint-rules/src/rules/validate-response.ts:68-114 | the new state is `ClassStep` of the old one |
| ValidateResponse.ValidateResponseRule.Member | eslint-rules/src/rules/validate-response.ts:80-109 | the new state is `MemberStep` of the old one |
| ValidateResponse.ValidateResponseRule.Record | eslint-rules/src/rules/validate-response.ts:87-101 | the new state is `Register` of the old one |
| ValidateResponse.ValidateResponseRule.ReturnStatement | eslint-rules/src/rules/validate-response.ts:115-127 | the new state is `ReturnStep` of the old one |
| ValidateResponse.Lint | eslint-rules/src/rules/validate-response.ts:53-128 | the reported diagnostics are those of `LintSpec` over the listener calls |
| ValidateResponse.WithoutBasePathNothingHappens | eslint-rules/src/rules/validate-response.ts:71-78 | a file whose classes lack `@BasePath(...)` registers nothing and reports nothing |
| ValidateResponse.MemberStepChecksOwnReturns | eslint-rules/src/rules/validate-response.ts:103-108 | without the parent link, every mapped return lies inside its method's body (kept by one member) |
| ValidateResponse.MembersFoldChecksOwnReturns | eslint-rules/src/rules/validate-response.ts:80-109 | the same, kept over all members of a class |
| ValidateResponse.CorrectedRuleChecksOwnReturns | eslint-rules/src/rules/validate-response.ts:68-127 | the same, kept over a whole run of the corrected rule |
| ValidateResponse.MemberStepRegisters | eslint-rules/src/rules/validate-response.ts:86-108 | handling a method with responses caches its responses and status map and maps to it every return its body's walk reaches |
| ValidateResponse.MemberStepKeepsRegistration | eslint-rules/src/rules/validate-response.ts:88-101 | handling any member leaves an earlier method's cached responses and status map as they were |
| ValidateResponse.MemberStepKeepsOwner | eslint-rules/src/rules/validate-response.ts:103-108 | handling a member keeps a return's owner unless that member's walk reaches the return |
| ValidateResponse.MembersFoldRegisters | eslint-rules/src/rules/validate-response.ts:80-109 | after the class body loop, every method with responses is registered, and every return its body's walk reaches is mapped to it unless a later, different method's walk also reaches it |
| ValidateResponse.ClassChecksMemberReturns | eslint-rules/src/rules/validate-response.ts:68-127 | after a `@BasePath` class is handled, such a return is validated against its method's status map |
| ReturnWalk.InArena | eslint-rules/src/rules/validate-response.ts:150-164 | children outside the arena (non-nodes) are skipped |
| ReturnWalk.Succ | eslint-rules/src/rules/validate-response.ts:146-165 | the walk only steps to nodes |
| ReturnWalk.Dfs | eslint-rules/src/rules/validate-response.ts:133-166 | the visited set only grows |
| ReturnWalk.DfsAll | eslint-rules/src/rules/validate-response.ts:146-165 | the visited set only grows over a list of children |
| ReturnWalk.ReachesSelf | eslint-rules/src/rules/validate-response.ts:138-144 | every node reaches itself |
| ReturnWalk.PrependStep | eslint-rules/src/rules/validate-response.ts:146-165 | a step to a child extends a route |
| ReturnWalk.ExtendRoute | eslint-rules/src/rules/validate-response.ts:146-165 | a child or, when followed, the parent extends a route |
| ReturnWalk.DfsFacts | eslint-rules/src/rules/validate-response.ts:133-166 | the walk visits its root, closes the visited set, finds each newly visited return exactly once, and visits only reachable nodes |
| ReturnWalk.ExpandedStep | eslint-rules/src/rules/validate-response.ts:141-165 | the same facts for a node whose children are walked |
| ReturnWalk.DfsAllFacts | eslint-rules/src/rules/validate-response.ts:146-165 | the same facts over a list of children |
| ReturnWalk.DfsFindsReachableReturns | eslint-rules/src/rules/validate-response.ts:133-166 | from a fresh visited set: distinct results, exactly the returns reachable from the root |
| ReturnWalk.ChildPathClimbs | eslint-rules/src/rules/validate-response.ts:146-165 | without the parent link, in a well-linked tree, a walk path is undone by climbing parents |
| ReturnWalk.DfsWithoutParentStaysInside | eslint-rules/src/rules/validate-response.ts:146-165 | without the parent link every found return is a descendant of the root |
| ReturnWalk.ReturnCollector.constructor | eslint-rules/src/rules/validate-response.ts:133-137 | empty visited set, nothing found |
| ReturnWalk.ReturnCollector.Walk | eslint-rules/src/rules/validate-response.ts:133-139 | the recursive walk updates visited and found exactly as `Dfs` |
| ReturnWalk.ReturnCollector.Visit | eslint-rules/src/rules/validate-response.ts:139-165 | a node not yet visited is walked as `Dfs` walks it |
| ReturnWalk.ReturnCollector.GoOn | eslint-rules/src/rules/validate-response.ts:141-165 | after a node is marked, the rest of its walk is as `Dfs` |
| ReturnWalk.ReturnCollector.Mark | eslint-rules/src/rules/validate-response.ts:139-144 | adds the node to visited and reports it when it is a return |
| ReturnWalk.ReturnCollector.WalkEach | eslint-rules/src/rules/validate-response.ts:150-156 | the loop over an array child walks as `DfsAll` |
| ReturnWalk.DfsVisit | eslint-rules/src/rules/validate-response.ts:139-165 | walking an unvisited node = reporting it if it is a return, then walking its children with it marked |
| ReturnWalk.DfsAllStep | eslint-rules/src/rules/validate-response.ts:150-156 | one loop step over the children |
| ReturnWalk.CollectWith | eslint-rules/src/rules/validate-response.ts:133-166 | the imperative walk from a fresh collector finds what `Dfs` finds |
| ReturnWalk.CollectReturnStatements | eslint-rules/src/rules/validate-response.ts:133-166 | distinct results; exactly the returns reachable without entering a return, the parent link followed |
| ReturnWalk.FindReturnStatementsSafely | eslint-plugin-local/rules/response-structure-match.js:125-150 | distinct results; exactly the returns reachable, also inside return arguments, the parent link followed |
| ReturnWalk.CollectReturnStatementsInBody | eslint-rules/src/rules/validate-response.ts:146-165 | corrected walk: reachable returns only, all inside the body |
| ReturnWalk.FindReturnStatementsInBody | eslint-plugin-local/rules/response-structure-match.js:138-146 | corrected walk of the earlier rule: reachable returns only, all inside the body |
| ReturnWalkExample.MethodAndHelperWellLinked | eslint-plugin-local/rules/response-structure-match.js:138-146 | the example tree's parent links match its children |
| ReturnWalkExample.HelperReturnOutsideBody | eslint-plugin-local/rules/response-structure-match.js:138-146 | the helper's return is not inside the method body |
| ReturnWalkExample.UpAndIntoHelper | eslint-plugin-local/rules/response-structure-match.js:138-146 | with the parent link, the method body reaches the helper's return |
| ReturnWalkExample.ParentLinkLeavesBody | eslint-plugin-local/rules/response-structure-match.js:138-146 | both walks as written find the helper's return from the method body |
| ReturnWalkExample.CorrectedWalkStaysInBody | eslint-plugin-local/rules/response-structure-match.js:138-146 | neither corrected walk finds it |
| ValidateResponseExamples.ArrayResponseTypes | eslint-rules/src/__test__/validate-response.test.ts:73 | `@Response(200, [UserDTO.z, SomethingDTO.z])` gives status 200 with both names |
| ValidateResponseExamples.RtnReturnVerdict | eslint-rules/src/rules/validate-response.ts:180-238 | `return this.rtn<G>(s, …)`: undeclared status, type mismatch or clean, by the declared list |
| ValidateResponseExamples.UserControllerCases | eslint-rules/src/__test__/validate-response.test.ts:146-170 | `rtn<UserDTO>(200)` and `rtn<ViewRenderer>(402)` are clean; `rtn<SomethingDTO>(200)` gives one mismatch |
| ValidateResponseExamples.BodyReachesHelperReturn | eslint-rules/src/rules/validate-response.ts:146-165 | the empty body of `getUser` reaches a helper's return through `parent` |
| ValidateResponseExamples.RootReachesHelperReturn | eslint-rules/src/rules/validate-response.ts:146-165 | the program root reaches the helper's return |
| ValidateResponseExamples.GetUserResponses | eslint-rules/src/rules/validate-response.ts:242-307 | `getUser` has the single response 200 → `UserDTO` |
| ValidateResponseExamples.ClassStepIsGetUser | eslint-rules/src/rules/validate-response.ts:68-114 | the controller class is handled as its one method |
| ValidateResponseExamples.UserDTONormalized | eslint-rules/src/rules/validate-response.ts:96-98 | `UserDTO` normalises to itself |
| ValidateResponseExamples.HelperReturnCollected | eslint-rules/src/rules/validate-response.ts:146-165 | the walk from the empty body collects the helper's return |
| ValidateResponseExamples.ControllerRegistersGetUser | eslint-rules/src/rules/validate-response.ts:103-108 | after the class, the helper's return is mapped to `getUser` |
| ValidateResponseExamples.ControllerAndHelperLint | eslint-rules/src/rules/validate-response.ts:68-127 | the run over the file is the class step then the return step |
| ValidateResponseExamples.HelperReturnReportedAsWritten | eslint-rules/src/rules/validate-response.ts:115-127 | as written, the helper's bare `return;` is reported as `emptyReturn` against `getUser` |
| ValidateResponseExamples.HelperReturnOutsideGetUser | eslint-rules/src/rules/validate-response.ts:146-165 | that return is not inside `getUser`'s body |
| ValidateResponseExamples.EmptyBodyFindsNothing | eslint-rules/src/rules/validate-response.ts:146-165 | without the parent link the empty body has no returns |
| ValidateResponseExamples.HelperReturnIgnoredWhenCorrected | eslint-rules/src/rules/validate-response.ts:115-127 | the corrected rule reports nothing on that file |
| ValidateResponseExamples.ControllerAndHelperFinding | eslint-rules/src/rules/validate-response.ts:146-165 | the finding in one statement: reported as written, outside the body, silent when corrected |
| ResponseStructureMatch.RecordKey | eslint-plugin-local/rules/response-structure-match.js:65 | a numeric status is stored under its decimal text |
| ResponseStructureMatch.Classify | eslint-plugin-local/rules/response-structure-match.js:54-66 | non-`Response` decorators are ignored; a decorator is accepted exactly with a status, a type and an Identifier type, under the status key |
| ResponseStructureMatch.Scan | eslint-plugin-local/rules/response-structure-match.js:52-69 | size plus reports never exceed the decorators |
| ResponseStructureMatch.ScanSizeZero | eslint-plugin-local/rules/response-structure-match.js:65-66 | `size` is 0 exactly when no decorator is accepted |
| ResponseStructureMatch.ScanReports | eslint-plugin-local/rules/response-structure-match.js:59-63 | `missingResponse` is reported exactly on the `Response` decorators lacking a status, a type, or an Identifier type |
| ResponseStructureMatch.ScanRecordAccepted | eslint-plugin-local/rules/response-structure-match.js:65 | every record entry is an accepted decorator under its own key |
| ResponseStructureMatch.ScanSnoc | eslint-plugin-local/rules/response-structure-match.js:54-67 | one loop step |
| ResponseStructureMatch.LastAccepted | eslint-plugin-local/rules/response-structure-match.js:65 | finds an accepted decorator with the key exactly when one exists |
| ResponseStructureMatch.LastAcceptedIsLast | eslint-plugin-local/rules/response-structure-match.js:65 | no decorator after the one found is accepted with the key |
| ResponseStructureMatch.ScanLastWins | eslint-plugin-local/rules/response-structure-match.js:65 | a key is in the record exactly when accepted, holding the last decorator with it |
| ResponseStructureMatch.ScanSizeBoundsKeys | eslint-plugin-local/rules/response-structure-match.js:65-66 | the keys never outnumber `size` |
| ResponseStructureMatch.ResponseDecorateValidate | eslint-plugin-local/rules/response-structure-match.js:47-70 | undefined exactly for missing or empty decorators; otherwise the loop computes `Scan` |
| ResponseStructureMatch.FirstKeyed | eslint-plugin-local/rules/response-structure-match.js:152-154 | the first property with an identifier key of that name, from an index on |
| ResponseStructureMatch.FindReturnValue | eslint-plugin-local/rules/response-structure-match.js:152-154 | absent exactly when no property has that identifier key |
| ResponseStructureMatch.ReturnedObject | eslint-plugin-local/rules/response-structure-match.js:78 | only an object expression argument counts |
| ResponseStructureMatch.CheckReturn | eslint-plugin-local/rules/response-structure-match.js:77-99 | an `invalidFormat` report is on the return; a pending check is for this return and an object |
| ResponseStructureMatch.CheckReturnMeaning | eslint-plugin-local/rules/response-structure-match.js:77-99 | `invalidFormat` exactly without object, `status` or `res`; then `invalidStatusFormat`, then `missingResponse`, else pending with the stored decorator |
| ResponseStructureMatch.ValidateReturns | eslint-plugin-local/rules/response-structure-match.js:72-99 | one outcome per return |
| ResponseStructureMatch.ValidateReturnsFacts | eslint-plugin-local/rules/response-structure-match.js:72-99 | each return's verdict appears in the outcome; every report and pending check comes from some return |
| ResponseStructureMatch.ValidateReturnsSnoc | eslint-plugin-local/rules/response-structure-match.js:77-99 | one loop step |
| ResponseStructureMatch.ValidateReturn | eslint-plugin-local/rules/response-structure-match.js:72-99 | the loop with `continue`s computes `ValidateReturns`; an empty list gives nothing |
| ResponseStructureMatch.StatusFindsLastDecorator | eslint-plugin-local/rules/response-structure-match.js:95-99 | a numeric status finds the last accepted decorator with that status |
| ResponseStructureMatch.StringStatusSameKey | eslint-plugin-local/rules/response-structure-match.js:65 | a string status with the same text shares the record key |
| ResponseStructureMatch.NonLiteralStatusNeverMatches | eslint-plugin-local/rules/response-structure-match.js:65 | a non-literal status never shares a key with a number |
| ResponseStructureMatch.BodyBlock | eslint-plugin-local/rules/response-structure-match.js:31 | only a block body is walked |
| ResponseStructureMatch.MethodDefinitionSpec | eslint-plugin-local/rules/response-structure-match.js:29-42 | as written: skips without decorators or block body; crashes exactly on an empty decorator list, or when a found return passes every check up to line 99, since the swapped arguments make line 101 throw |
| ResponseStructureMatch.MethodDefinitionGuardedSpec | eslint-plugin-local/rules/response-structure-match.js:29-42 | both defects removed: never crashes, empty decorators report nothing, a return passing line 99 becomes a pending checker call |
| ResponseStructureMatch.GuardedAgreesWhenNoCrash | eslint-plugin-local/rules/response-structure-match.js:29-42 | the guard changes nothing where the listener as written does not throw |
| ResponseStructureMatch.OutcomeAccountsForReturns | eslint-plugin-local/rules/response-structure-match.js:33-41 | `size` 0 gives only decorator reports; otherwise one verdict per found return, each pending check on a reachable return |
| ResponseStructureMatch.AfterScan | eslint-plugin-local/rules/response-structure-match.js:33-41 | the corrected listener after the scan never crashes |
| ResponseStructureMatch.AfterScanAsWritten | eslint-plugin-local/rules/response-structure-match.js:36-41 | as written the listener throws exactly when some return reaches the checker call, and otherwise agrees with `AfterScan` |
| ResponseStructureMatch.MethodDefinition | eslint-plugin-local/rules/response-structure-match.js:29-42 | the listener computes `MethodDefinitionSpec` |
| ResponseStructureMatchExamples.UndecoratedMethodCrashes | eslint-plugin-local/rules/response-structure-match.js:30-34 | `getUser() {}` with `decorators: []` throws as written and is skipped when guarded |
| ResponseStructureMatchExamples.CollectsTheReturn | eslint-plugin-local/rules/response-structure-match.js:125-150 | the walk finds the one return |
| ResponseStructureMatchExamples.ScansResponse200 | eslint-plugin-local/rules/response-structure-match.js:47-70 | `@Response(200, UserDTO)` gives record `{"200"}` of size 1 |
| ResponseStructureMatchExamples.CheckStatusReturn | eslint-plugin-local/rules/response-structure-match.js:90-99 | `{status: 200, res}` is pending; another status gives `missingResponse` |
| ResponseStructureMatchExamples.ListenerRunsScan | eslint-plugin-local/rules/response-structure-match.js:29-42 | the listener scans the decorators and checks the walked returns |
| ResponseStructureMatchExamples.AfterOneReturn | eslint-plugin-local/rules/response-structure-match.js:36-41 | a single return's verdict is the method's outcome |
| ResponseStructureMatchExamples.StatusReturnVerdict | eslint-plugin-local/rules/response-structure-match.js:29-101 | the whole listener on the example: as written it throws for status 200 and reports `missingResponse` otherwise; corrected, 200 is a pending checker call |
| CustomErrorMessage.ErrorMap | src/oapi-validator-factory/adapter/zod.ts:12-14 | `errorMap()` returns the same message |
| CustomErrorMessage.CreateCustomErrorResponseMessage | src/oapi-validator-factory/adapter/zod.ts:4-16 | the message starts with `__custom::` and `errorMap()` carries it |
| CustomErrorMessage.IsCustomErrorResponseMessage | src/oapi-validator-factory/adapter/zod.ts:18-20 | true exactly when present and starting with `__custom`; missing or empty gives false |
| CustomErrorMessage.FirstDelimiterFrom | src/oapi-validator-factory/adapter/zod.ts:27 | the first `::` at or after an index, or none |
| CustomErrorMessage.FirstDelimiter | src/oapi-validator-factory/adapter/zod.ts:27 | the first `::` of the string, or none |
| CustomErrorMessage.Split | src/oapi-validator-factory/adapter/zod.ts:27 | `split('::')` always has at least one piece |
| CustomErrorMessage.ExtractCustomErrorResponseMessage | src/oapi-validator-factory/adapter/zod.ts:22-34 | throws `Invalid custom error response message` exactly on a message that is not custom |
| CustomErrorMessage.SplitColonFreeField | src/oapi-validator-factory/adapter/zod.ts:27 | a colon-free field before `::` is split off exactly |
| CustomErrorMessage.SplitCreated | src/oapi-validator-factory/adapter/zod.ts:9 | a created message splits into `__custom`, status, code, then the message's own pieces |
| CustomErrorMessage.CreatedIsCustom | src/oapi-validator-factory/adapter/zod.ts:9-19 | every created message is custom |
| CustomErrorMessage.ExtractCreated | src/oapi-validator-factory/adapter/zod.ts:22-34 | extracting a created message gives the status and code back and the message up to its first `::` |
| CustomErrorMessage.RoundTrip | src/oapi-validator-factory/adapter/zod.ts:4-34 | for a message without `::` the round trip is exact |
| CustomErrorMessage.RoundTripNegativeCode | src/oapi-validator-factory/adapter/zod.ts:4-34 | `(401, -1, "Api key is invalid")` round-trips |
| Decimal.IntToDecimal | src/oapi-validator-factory/adapter/zod.ts:9 | as JavaScript prints an integer: a leading `-` exactly for negatives, then digits with no leading zero except `0` itself |
| Decimal.NatToDecimal | src/oapi-validator-factory/adapter/zod.ts:9 | a natural number prints as digits, with a leading zero only for `0` |
| Decimal.ToNumber | src/oapi-validator-factory/adapter/zod.ts:30-31 | `Number` of a digit string is its value |
| Decimal.NatDecimalRoundTrip | src/oapi-validator-factory/adapter/zod.ts:30 | digits read back as the natural number |
| Decimal.NegativeRoundTrip | src/oapi-validator-factory/adapter/zod.ts:31 | `-` and digits read back as the negative number |
| Decimal.NonNegativeRoundTrip | src/oapi-validator-factory/adapter/zod.ts:30-31 | `Number` of the digits of a natural number is that number |
| Decimal.DecimalRoundTrip | src/oapi-validator-factory/adapter/zod.ts:30-31 | `Number(String(n)) == n` for every integer |
| Decimal.DecimalInjective | src/oapi-validator-factory/swagger/register.ts:84 | distinct statuses give distinct keys |
| ControllerReturn.TypeOf | src/oapi-validator-factory/controller/Controller.ts:15 | `typeof` is `"object"` exactly for objects and null |
| ControllerReturn.IsControllerReturnType | src/oapi-validator-factory/controller/Controller.ts:11-21 | true exactly for an object with a numeric `status` and a `res` key; false for null and non-objects |
| ControllerReturn.Rtn | src/oapi-validator-factory/controller/Controller.ts:30-41 | the result has exactly `status` and `res`, equal to the arguments, and passes the guard |
| Runtime.ConstructorOf | src/controller/DI/reflect.ts:48 | an instance or prototype's `constructor` is its class |
| Runtime.PrototypeOf | src/controller/DI/reflect.ts:89-95 | only an instance has a prototype to look in, its class's prototype |
| MetadataLists.Appended | src/oapi-validator-factory/reflect-metadata/controller.ts:52-56 | read-push-redefine appends under one key and leaves the others alone |
| MetadataLists.AppendsInCallOrder | src/oapi-validator-factory/reflect-metadata/controller.ts:48-57 | a series of defines appends in call order |
| OapiMetadata.FindWithStatus | src/oapi-validator-factory/reflect-metadata/controller.ts:109-111 | the first entry with the status, or none when no entry has it |
| OapiMetadata.MetadataStore.constructor | src/oapi-validator-factory/reflect-metadata/controller.ts:10-13 | all metadata starts empty |
| OapiMetadata.MetadataStore.GetBasePathMetaData | src/oapi-validator-factory/reflect-metadata/controller.ts:42-46 | defined exactly when a base path was defined on that object itself, and then that path |
| OapiMetadata.MetadataStore.GetControllerRoutesMetaData | src/oapi-validator-factory/reflect-metadata/controller.ts:59-63 | the routes defined on that object, or the empty list |
| OapiMetadata.MetadataStore.GetControllerRouteParamsMetaData | src/oapi-validator-factory/reflect-metadata/controller.ts:83-89 | the parameters defined for (object, handler), or the empty list |
| OapiMetadata.MetadataStore.GetAllControllerResponseMetaData | src/oapi-validator-factory/reflect-metadata/controller.ts:114-123 | defined exactly when a response was defined for (object, handler), and then the list |
| OapiMetadata.MetadataStore.DefineBasePathMetaData | src/oapi-validator-factory/reflect-metadata/controller.ts:35-46 | the getter then returns this path for the target only |
| OapiMetadata.MetadataStore.DefineControllerRoutesMetaData | src/oapi-validator-factory/reflect-metadata/controller.ts:48-63 | the route is appended to the controller's list; nothing else changes |
| OapiMetadata.MetadataStore.DefineControllerRouteParamMetaData | src/oapi-validator-factory/reflect-metadata/controller.ts:65-89 | the param is appended for (controller, handler); every other handler's list is unchanged |
| OapiMetadata.MetadataStore.DefineControllerResponseMetaData | src/oapi-validator-factory/reflect-metadata/controller.ts:91-102 | the entry is appended for (controller, handler); others unchanged |
| OapiMetadata.MetadataStore.FindControllerResponseMetaDataWithStatus | src/oapi-validator-factory/reflect-metadata/controller.ts:104-112 | undefined when nothing is defined; otherwise the first defined entry with that status |
| OapiMetadata.DefinedResponsesInCallOrder | src/oapi-validator-factory/reflect-metadata/controller.ts:114-123 | `getAll` is undefined after no define, else exactly the entries in call order |
| OapiExamples.DecorateMockController | src/oapi-validator-factory/__test__/controller.test.ts:37-54 | the decorators of `MockController` leave exactly the base path on the class and the route and the two responses (400 then 201) on the target they are handed |
| OapiExamples.MockControllerAsWritten | src/oapi-validator-factory/__test__/controller.test.ts:56-141 | with `@Response` and `@Post` writing on the prototype, reads on the class find the base path but no route and no response, and the swagger document has no path |
| OapiExamples.MockControllerCorrected | src/oapi-validator-factory/__test__/controller.test.ts:67-141 | with those decorators writing on the class, the test's reads find one `post` route, two responses, 201 the zod schema and 400 the view renderer |
| OapiExamples.MockControllerCorrectedDocument | src/oapi-validator-factory/swagger/register.ts:22-54 | on the corrected registry the swagger document has the one path `/test/test-path` |
| DiMetadata.ControllerRegistry.constructor | src/controller/DI/reflect.ts:8-11 | all metadata starts empty |
| DiMetadata.ControllerRegistry.GetBasePathMetaData | src/controller/DI/reflect.ts:45-49 | read on the object's constructor: defined exactly when its class has a base path |
| DiMetadata.ControllerRegistry.GetControllerRoutesMetaData | src/controller/DI/reflect.ts:63-68 | read on the object's constructor, or the empty list |
| DiMetadata.ControllerRegistry.GetControllerRouteParamsMetaData | src/controller/DI/reflect.ts:89-95 | the object's own parameters first; an instance without them reads its prototype's; otherwise the empty list |
| DiMetadata.ControllerRegistry.GetControllerResponseMetaData | src/controller/DI/reflect.ts:105-114 | the object's own response first; an instance without one reads its prototype's; otherwise undefined |
| DiMetadata.ControllerRegistry.DefineBasePathMetaData | src/controller/DI/reflect.ts:38-49 | stored on the target, read through `constructor`: round-trips for instances of the target class only |
| DiMetadata.ControllerRegistry.DefineControllerRoutesMetaData | src/controller/DI/reflect.ts:51-68 | appended under `target.constructor`; every object of that class sees it |
| DiMetadata.ControllerRegistry.DefineControllerRouteParamMetaData | src/controller/DI/reflect.ts:70-95 | appended per (target, handler) onto what the target reads; the decorators pass the prototype, so every instance without its own entry reads the new list; others unchanged |
| DiMetadata.ControllerRegistry.DefineControllerResponseMetaData | src/controller/DI/reflect.ts:97-114 | the single cell is overwritten; instances of a prototype target read it; others unchanged |
| DiMetadata.LastResponseWins | src/controller/DI/reflect.ts:102 | after two defines the getter returns the second |
| DiMetadata.UserControllerRouterReads | src/controller/UserController.ts:12-27 | `UserController` as its decorators register it: a fresh instance reads base path `/user`, the one `get` route, the three parameters and the 200 `UserDTO` response |
| SwaggerRegister.MethodKey | src/oapi-validator-factory/swagger/register.ts:39 | the HTTP method name is the operation key |
| SwaggerRegister.MakeResponseMeta | src/oapi-validator-factory/swagger/register.ts:78-108 | exactly one key, the status; `ViewRenderer` gives `text/html` string schema, otherwise `application/json` with the return type |
| SwaggerRegister.ResponsesOf | src/oapi-validator-factory/swagger/register.ts:41-47 | the keys are exactly the statuses of the metadata list |
| SwaggerRegister.LastWithStatus | src/oapi-validator-factory/swagger/register.ts:41-47 | finds an entry with the status exactly when one exists, and no later entry has that status |
| SwaggerRegister.ResponsesLaterWins | src/oapi-validator-factory/swagger/register.ts:41-47 | a repeated status holds the later entry's response object |
| SwaggerRegister.PathKey | src/oapi-validator-factory/swagger/register.ts:38 | the key is base path + route path (`undefined` when no base path) |
| SwaggerRegister.PathItemFor | src/oapi-validator-factory/swagger/register.ts:38-50 | one method key with `operationId` = handler and `parameters = []`; throws when the handler has no responses |
| SwaggerRegister.PathsOf | src/oapi-validator-factory/swagger/register.ts:32-53 | throws exactly when some route has no responses; otherwise the keys are the concatenated paths |
| SwaggerRegister.LastRouteWithKey | src/oapi-validator-factory/swagger/register.ts:38 | finds a route with the key exactly when one exists, and no later route has that key |
| SwaggerRegister.PathsLaterRouteReplaces | src/oapi-validator-factory/swagger/register.ts:38 | a path shared by two routes holds the whole entry of the later one |
| SwaggerRegister.DocumentFor | src/oapi-validator-factory/swagger/register.ts:22-54 | throws the missing-responses error exactly when some route of the controller has no responses; otherwise the configured header and one path per route |
| SwaggerRegister.RegisterSwaggerDoc | src/oapi-validator-factory/swagger/register.ts:18-76 | one document per controller in order, stopping at the first controller that throws |

## Left out

- ESLint plumbing: `meta`, the delivery of `context.report`, the host's order of listener calls, and the `try`/`catch` with `console.error`. The order of listener calls is a parameter. Diagnostics are a returned sequence, in report order.
- Message text: diagnostics carry their id and data, not the interpolated text.
- The TypeScript checker path of the earlier rule, `eslint-plugin-local/rules/response-structure-match.js:101-120`: `resolveName` and `isTypeAssignableTo` are foreign compiler calls. The code there is also broken:
  - the `parserServices` and `checker` arguments are swapped between lines 41 and 72, so line 101 throws (modelled: `AfterScanAsWritten`);
  - `decorator.typeArg` does not exist;
  - `expectedTypeName` is undefined.

  In the corrected listener a return that passes every earlier check becomes a pending check.
- Tokens, comments and `PrivateIdentifier` keys: the arena holds only the node kinds the rules look at. Every other node is a generic node with children.
- `hasOwnProperty` in the walk: arena nodes have only own properties, so the check always passes.
- JavaScript numbers are integers here. NaN, fractions and `Number` of strings other than sign and digits are not modelled; those strings read as an unevaluated number.
- Reflect metadata lookup along the prototype chain beyond one step: the DI getters of parameters and responses step from an instance to its prototype, as `src/controller/DI/index.ts:32-48` needs. The OpenAPI getters read only the object's own metadata, which is what a lookup on a class amounts to when it has no parent class. Superclass chains (a class inheriting its parent class's metadata) are not modelled.
- `getParamTypes` with its compiler-emitted `design:paramtypes` and the `console.log` at `src/controller/DI/reflect.ts:75`.
- Aliasing: the registries return lists as values, so a caller mutating a returned array is not modelled.
- `createZodSwaggerDocument`, the `fs` writes and `console.log` of `registerSwaggerDoc`: the model returns the document inputs instead.
- JSON key order of the assembled objects.
- Decorator factories, express routing, zod schemas and DTO classes.
- ReturnWalk.Dfs: termination relies on the arena being finite. A JavaScript object graph can be unbounded; the arena cannot.

## Findings

| source | as written | input that shows it | evidently intended | confidence | as-written member | corrected member |
|---|---|---|---|---|---|---|
| eslint-rules/src/rules/validate-response.ts:146-165 | `for (const key in node)` also enumerates the `parent` link that ESLint sets on every node, so the walk climbs out of the method body and collects every return of the file, including those of unrelated functions | a controller method `getUser` with `@Response(200, UserDTO)` and an empty body, and after the class a helper function with `return;`: the helper's return is reported as `emptyReturn` against `getUser` | collect only the returns inside the method body | not executed | ValidateResponseExamples.HelperReturnReportedAsWritten | ValidateResponse.CorrectedRuleChecksOwnReturns |
| eslint-plugin-local/rules/response-structure-match.js:138-146 | the same walk in the earlier rule follows `parent` too | a method body and a helper function beside it, each with a `return`: the walk from the body finds the helper's return | collect only the returns inside the method body | not executed | ReturnWalkExample.ParentLinkLeavesBody | ReturnWalk.FindReturnStatementsInBody |
| src/oapi-validator-factory/controller/decorators/response.ts:18 | `@Response` and `@Post` (`decorators/route.ts:20`) define their metadata on the method decorator's `target`, the prototype, while the test at `__test__/controller.test.ts:67-141` and `registerSwaggerDoc` read on the class, and a lookup from a class never reaches its own prototype | `MockController` of the test: reads on `mockController.constructor` find no route and no response, and its swagger document has no path | define on `target.constructor`, as the parameter decorators do (`decorators/param.ts:33`) | not executed | OapiExamples.MockControllerAsWritten | OapiExamples.MockControllerCorrected |
| eslint-plugin-local/rules/response-structure-match.js:41 | the listener calls `validateReturn(context, checker, parserServices, …)` while line 72 declares `(context, parserServices, checker, …)`, so line 101 reads `esTreeNodeToTSNodeMap` on the checker and throws | a method with `@Response(200, UserDTO)` returning `{ status: 200, res }` | pass the arguments in declared order | not executed | ResponseStructureMatchExamples.StatusReturnVerdict | ResponseStructureMatch.MethodDefinitionGuardedSpec |
| eslint-plugin-local/rules/response-structure-match.js:30-34 | `!node.decorators` does not skip a method whose decorator list is empty, `responseDecorateValidate` then returns `undefined`, and destructuring it throws | `getUser() {}` parsed with `decorators: []` | skip methods without decorators | not executed | ResponseStructureMatchExamples.UndecoratedMethodCrashes | ResponseStructureMatch.MethodDefinitionGuardedSpec |
