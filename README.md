# param.macro — a Dafny model of the macro's transformers

`param.macro` is a Babel macro. It imports three names:

- `_` turns an expression holding placeholders into a closure, one parameter per placeholder, in order: `f(_, 1)` becomes `_arg => f(_arg, 1)`.
- `it` turns an argument (or a declarator's initialiser) holding it into a one-parameter closure: `map(it.name)` becomes `_it => _it.name`.
- `lift` marks where a placeholder's search for its enclosing call stops, and is then removed.

The plugin front end recognises the import (or `require`) by structural matching. It groups the references of each imported name and runs the transformers in a fixed order: `it`, `default`, `_`, `lift`.

The model has eight modules:

- `Tree` (tree.dfy). The syntax tree is a value `Node(kind, kids, meta, uid)`. Positions are paths of child indices, with `At`, `Put` and `ReplaceWith`. `meta` holds the data Babel keeps on a path: `_.wasPlaceholder`, and `it.wasTransformed` together with `it.idName`. `Locate` finds a reference by node identity. `Rename` stands for `scope.rename`. The host tree the transformers edit in place is the class `Ast`: its `root` and its fresh-name counter `next`.
- `Navigation` (navigation.dfy). The helpers of src/util.js and dist/util.js:
  - `findTargetCallee`, `findTargetCaller`, `findParentUntil`, `findTopmostLink`, `findTargetAssignment`;
  - both versions of `findWrapper`;
  - `getParamNode`, `markPlaceholder`, `shouldHoist`.
- `Hoisting` (hoisting.dfy). `hoistArguments`: the plan for a call's arguments, and its commit before the enclosing statement.
- `Placeholders` (placeholders.dfy). `transformPlaceholders`.
- `SharedClosure` (shared_closure.dfy). Several placeholders among the arguments of one call make one closure. `StepsAt` takes the placeholders in turn, by their positions at the time each is taken.
- `ImplicitParams` (implicit_params.dfy). `transformImplicitParams`.
- `Lift` (lift.dfy). `transformLift`.
- `Plugin` (plugin.dfy). `isPrimitive`, `looksLike`, `isImport`, `isRequire` and `applyPlugin`.

Each transformer has two forms:

- a function over values (`PlaceholderRefs`, `ImplicitRefs`, `LiftRefs`, `TransformPlaceholders`), about which the lemmas are proved;
- a method that edits the `Ast` in place, one reference per loop iteration. Its `ensures` ties the new state to that function.

A thrown `PartialError` is an `Err`. It stops the loop and leaves the tree as the earlier references left it.

Where the prose description of the macro and the code disagree, the model follows the code:

- `isPrimitive` tests the first letter of `typeof`, so it also accepts bigints and symbols.
- `findTargetAssignment` only knows declarators and assignment patterns. It stops at call parents and at the right side of a pipeline.
- `findTopmostLink` (dist/util.js:87-101) stops at a pipeline's left operand. So `fn(inner(_).name |> otherFn)` becomes `fn(((_arg) => { return inner(_arg).name; }) |> otherFn)`. The test at test/placeholders.js:241-268 expects `fn((_arg) => { return inner(_arg).name |> otherFn; })`.
- The test at test/mix.js:41-80 expects three pipeline stages to be wrapped into closures: `_[0].split('')`, `it.join(', ')` and `` `-- ${_} --` ``. Each stands on a pipeline's right side, in no argument and no declarator. src/implicit-params.js:6-15 and dist/util.js:57-73 find no target for them and throw, and so does the model (`ImplicitOutcome`, `StepAtOutcome`).

## Model

| member | source | states |
|---|---|---|
| Tree.Locate | src/placeholders.js:18-19 | a reference found by identity is a valid position holding a node of that identity |
| Tree.LocateFirst | src/placeholders.js:18-19 | every node of that identity is found, and what is found comes first in pre-order among them; a search that finds nothing means the tree has no such node |
| Tree.RenameRemoves | src/implicit-params.js:26 | after renaming `from` to a different name, no identifier named `from` is left in the renamed subtree |
| Tree.RenameAt | src/implicit-params.js:18-21 | renaming keeps every position and renames the subtree found there |
| Tree.ClosureReturn | src/placeholders.js:62-67 | the built closure `(p) => { return e }` holds `e` at `[0,0,0]`, without the data of `e`'s old position |
| Tree.ClosureBody | src/implicit-params.js:28-33 | below the closure's `return` lies exactly the subtree of the wrapped expression |
| Navigation.ArgumentSlotShape | src/util.js:24-30 | a position is an argument slot exactly when its parent is a call or `new` and it is not the callee |
| Navigation.TargetCallee | src/util.js:24-30 | the result is the position itself or its nearest ancestor that is an argument slot; no position in between is one; None exactly when no ancestor-or-self is one |
| Navigation.TargetCalleeUnique | src/util.js:24-30 | any argument slot above the position, with none in between, is the one found |
| Navigation.TargetCalleeAfterPut | src/placeholders.js:57 | editing below a position does not change the argument slot found from it |
| Navigation.TargetCaller | src/util.js:32-34 | present exactly when the callee is; it is the call or `new` strictly above, owning that argument slot |
| Navigation.StopLink | dist/util.js:40-55 | the upward walk stops at the root or at the first link whose verdict is not "continue"; every link passed continued |
| Navigation.StopLinkAgree | dist/util.js:40-55 | two tests that agree on every link of the walk stop it at the same link |
| Navigation.FindParentUntil | dist/util.js:40-55 | the `while` loop returns what `ParentUntil` specifies: the link on `true`, the returned path on any other truthy verdict, and null (or, with `accumulate`, the last link) on `false` or at the root |
| Navigation.ParentUntilBlocked | dist/util.js:50-54 | a walk blocked or run to the root gives null, or with `accumulate` the last link |
| Navigation.TopmostLink | dist/util.js:87-101 | the result is an ancestor-or-self; every link climbed is a member expression's object or property, a non-pipeline binary operand, a callee or a unary operand; the stopping link is none of these |
| Navigation.TopmostLinkKinds | dist/util.js:87-101 | the topmost link depends only on the kinds along the path |
| Navigation.TargetAssignment | dist/util.js:57-73 | a result is the `init` of a declarator or the `right` of an assignment pattern above the topmost link; None exactly when the walk meets a call parent or a pipeline's right operand, or reaches the root |
| Navigation.AssignWalk | dist/util.js:57-73 | the same from any starting link: a found target has the kind and slot searched for, and the walk is empty exactly when blocked |
| Navigation.AssignmentBlocked | dist/util.js:62-65 | a call parent or a pipeline's right side above the topmost link, with no declarator or assignment pattern below it, leaves the placeholder without an assignment target |
| Navigation.WrapperFound | dist/util.js:103-117 | a found wrapper is a macro-marked arrow above the walk's root, reached across at most one call and no pipeline right operand or other marked arrow |
| Navigation.WrapperWalkFound | dist/util.js:103-117 | whatever the counting walk returns meets that description |
| Navigation.LoopWrapperFound | src/util.js:36-51 | the same description for the version of `findWrapper` without the pipeline stop |
| Navigation.WrapperComplete | dist/util.js:103-117 | conversely, a marked arrow meeting that description is the wrapper found, so a search that finds nothing means there is none |
| Navigation.WrapperWalkComplete | dist/util.js:108-116 | the counting walk returns any wrapper that meets the description |
| Navigation.LoopWrapperComplete | src/util.js:36-51 | conversely, for the version without the pipeline stop |
| Navigation.FindWrapper | src/util.js:36-51 | the `while` loop with its call counter computes `LoopWrapper` |
| Navigation.WrappersAgree | src/util.js:36-51 | with no pipeline on the way, both versions of `findWrapper` find the same wrapper |
| Navigation.ParamNode | dist/util.js:144-150 | the parameter binds exactly the fresh name; it is a rest element exactly when the placeholder is spread |
| Navigation.MarkPlaceholderEffect | dist/util.js:152-154 | the position is then macro-marked and otherwise unchanged, its subtree and everything beside it unchanged, and the nodes above it keep their heads |
| Navigation.ShouldHoist | src/util.js:79-93 | an argument is hoisted exactly when it is not a literal, not one of the never-hoisted types, not macro-marked, and none of its own arguments is macro-marked |
| Navigation.NonHoistKinds | src/util.js:3-9 | literals, identifiers, arrays, objects, functions and arrow functions are never hoisted |
| Navigation.MacroNotHoisted | src/util.js:80-91 | a macro-marked argument, or a call with a macro-marked argument, is never hoisted |
| Navigation.EffectfulHoisted | src/util.js:79-93 | an unmarked call, `new`, member access, binary, assignment or tagged template with unmarked arguments is hoisted |
| Navigation.StatementParent | src/util.js:57 | the nearest ancestor-or-self that is a statement in a list; None exactly when there is none |
| Navigation.ArrowAbove | src/util.js:60-61 | the nearest strict ancestor that is an arrow function |
| Hoisting.PlanHoist | src/util.js:67-76 | as many arguments as before, one declaration per hoistable argument, and the counter advanced by that many |
| Hoisting.PlanHoistArgs | src/util.js:67-76 | an argument that is not hoistable is kept; a hoistable one becomes `_ref`-named id number k (k = hoistable arguments before it), declared by declaration k with the original expression |
| Hoisting.PlanHoistAt | src/util.js:67-76 | the same, for one argument position at a time |
| Hoisting.HoistOrder | src/util.js:67-76 | of two hoistable arguments, the earlier one gets the earlier name and declaration (`_ref` before `_ref2`, as in test/placeholders.js:81-97) |
| Hoisting.PlanNothingHoistable | src/util.js:68 | with nothing hoistable, the arguments are unchanged and no name is taken |
| Hoisting.InsertShift | src/util.js:74 | after the declarations are inserted before a statement, that statement and everything below it are that many places further down the list |
| Hoisting.InsertList | src/util.js:74 | the declarations sit in order just before the statement; the list before and after them is kept |
| Hoisting.SiteShape | src/util.js:53-63 | a hoist site holds a call or `new` with arguments, inside the target, below a statement in a list |
| Hoisting.HoistNoArgs | src/util.js:65 | with no arguments to hoist, the tree and the counter are unchanged |
| Hoisting.HoistCommits | src/util.js:53-77 | hoisting at a site commits the plan for that call's arguments and advances the counter by the number hoisted |
| Hoisting.CommitList | src/util.js:74 | the commit inserts exactly the plan's declarations before the upper statement and keeps the rest of that list |
| Hoisting.CommitMoved | src/util.js:75 | after the commit, the call, moved down past the declarations, has the plan's arguments after its callee |
| Hoisting.HoistArguments | src/util.js:53-77 | in place: success leaves the tree and counter `HoistTarget` computes; a failure leaves both unchanged |
| Hoisting.HoistCall | src/util.js:67-76 | the loop over the arguments leaves the commit of `PlanHoist` and its counter |
| Placeholders.ReuseInPlace | src/placeholders.js:19-27 | in place: the placeholder replaced by the fresh name and its argument slot marked, the wrapper given the parameter, one fresh name taken |
| Placeholders.EncloseInPlace | src/placeholders.js:46-70 | in place: the placeholder replaced and marked, the topmost link wrapped into a marked one-parameter arrow, one fresh name taken, the hoist target returned |
| Placeholders.PlaceholderInPlace | src/placeholders.js:18-71 | one loop iteration in place, equal to `Step`; on failure nothing changes |
| Placeholders.PlaceholderAtInPlace | src/placeholders.js:19-70 | one located placeholder in place, equal to `StepAt` |
| Placeholders.UnwrappedInPlace | src/placeholders.js:30-70 | the no-wrapper case in place: the assignment target first, then the caller |
| Placeholders.AssignedInPlace | src/placeholders.js:46-70 | the assignment case in place: join a wrapper or wrap the chain, with nothing recorded for hoisting |
| Placeholders.CalledInPlace | src/placeholders.js:30-70 | the caller case in place: fails exactly without a caller, else wraps and records one hoist target |
| Placeholders.TransformPlaceholdersInPlace | src/placeholders.js:15-74 | the whole transformer in place equals `TransformPlaceholders`: every reference, then hoisting of every recorded target, stopping at the first failure |
| Placeholders.ReplaceEffect | src/placeholders.js:46-49 | the placeholder becomes the fresh id carrying its slot's data plus the placeholder mark; the nodes above keep their heads and nothing beside it changes |
| Placeholders.AppendParamEffect | src/placeholders.js:26 | the wrapper gains the parameter as its last child; everything below it is kept |
| Placeholders.ReuseEffect | src/placeholders.js:19-27 | inside a wrapper the placeholder has an argument slot; after reuse, the id is in place and marked, the slot is marked, and the wrapper has one more parameter, the new one, last |
| Placeholders.ReuseFrame | src/placeholders.js:19-27 | joining changes nothing beside the placeholder; above it every node keeps its kind and identity, all but the wrapper keep their number of children, and all but the marked argument slot keep their data |
| Placeholders.MarkedAt | src/placeholders.js:46-49 | the id is in place and marked; for an argument, its slot is marked too |
| Placeholders.MarkedAbove | src/placeholders.js:46-49 | the nodes above the placeholder keep their kind, arity and identity |
| Placeholders.MarkedElsewhere | src/placeholders.js:46-49 | nothing beside the placeholder changes |
| Placeholders.WrapAt | src/placeholders.js:61-70 | the tail becomes a marked arrow with the one parameter, returning the old tail |
| Placeholders.WrapBelow | src/placeholders.js:61-70 | below the arrow's `return` lies exactly the old tail's subtree |
| Placeholders.WrapAbove | src/placeholders.js:61-70 | the nodes above the tail keep their heads |
| Placeholders.WrapElsewhere | src/placeholders.js:61-70 | nothing beside the tail changes |
| Placeholders.EncloseCall | src/placeholders.js:56-70 | for an argument, the topmost link above the caller is found the same before and after the id is put in place |
| Placeholders.EncloseArrow | src/placeholders.js:56-70 | the topmost link becomes a marked arrow binding the parameter; the hoist target is that arrow when it replaced the caller, else the caller |
| Placeholders.EncloseId | src/placeholders.js:46-70 | the fresh id sits below the arrow's `return`, at its old place relative to the link |
| Placeholders.EncloseSlot | src/placeholders.js:46-70 | the marked argument slot sits there too |
| Placeholders.EncloseElsewhere | src/placeholders.js:61-70 | nothing beside the new arrow changes |
| Placeholders.CalledEffect | src/placeholders.js:34-59 | the caller case succeeds exactly when there is a caller, takes one fresh name and appends exactly one hoist target |
| Placeholders.AssignedJoin | src/placeholders.js:51-54 | an assignment placeholder joining a wrapper puts the marked id in place and gives the wrapper the parameter, last; nothing is recorded |
| Placeholders.AssignedFrame | src/placeholders.js:46-54 | the same for an assignment placeholder joining a wrapper, where the only mark is on the placeholder itself, so every node above it keeps its data |
| Placeholders.AssignedEnclose | src/placeholders.js:61-70 | an assignment placeholder with no wrapper makes the topmost link a marked one-parameter arrow; nothing is recorded |
| Placeholders.StepAtOutcome | src/placeholders.js:19-70 | a placeholder fails exactly when it is neither an argument nor below an assignment target, with the placeholder message; otherwise it takes one fresh name, and it appends one hoist target exactly when it neither joins a wrapper nor has an assignment target |
| Placeholders.StepAtRoot | src/placeholders.js:30-44 | a reference at the root has no wrapper, no assignment target and no caller, so it fails with the placeholder message |
| Placeholders.PlaceholderRefsGrow | src/placeholders.js:18-71 | the reference loop takes at most one fresh name per reference and only appends hoist targets, at most one per name taken |
| Placeholders.PlaceholderRefsAppend | src/placeholders.js:18-71 | the loop over `a + b` is the loop over `a`, then, unless that failed, the loop over `b` |
| Placeholders.HoistAllAppend | src/placeholders.js:73 | the hoisting loop over `a + b` is the loop over `a`, then, unless that failed, the loop over `b` |
| SharedClosure.JoinFinds | dist/util.js:103-117 | from every later argument of a call whose closure is open to it, the search for a wrapper finds that closure |
| SharedClosure.JoinStep | src/placeholders.js:19-27 | a later placeholder argument joins the closure: one fresh name, nothing recorded for hoisting, the closure stays open to the call, and the new parameter follows the ones already there |
| SharedClosure.JoinKeepsSiblings | src/placeholders.js:24-26 | joining leaves the call's other arguments as they were |
| SharedClosure.JoinAll | src/placeholders.js:18-28 | any number of later placeholder arguments, taken in turn, all join without failing; the counter advances by their number and nothing is recorded for hoisting |
| SharedClosure.JoinAllParams | src/placeholders.js:22-26 | the closure gains one parameter per joining argument, in argument order, named from consecutive counter values |
| SharedClosure.EnclosedReady | src/placeholders.js:61-70 | after the first placeholder wraps the chain, the closure has only that placeholder's parameter and is open to the call, now below its `return`, when no other call lies on the chain |
| SharedClosure.EnclosedSiblings | src/placeholders.js:61-70 | the call's other arguments lie below the `return` as they were |
| SharedClosure.FirstEncloses | src/placeholders.js:30-70 | the first placeholder argument takes one fresh name and records one hoist target, the new arrow if it replaced the call and the call otherwise, and leaves the closure open to the call |
| SharedClosure.PlaceholdersShareClosure | test/placeholders.js:48-60 | `console.log(_, 1, _, 2, _)`: a call's placeholder arguments make one closure, whose parameters follow argument order with consecutive names `_arg`, `_arg2`, ...; only the first records a hoist target |
| ImplicitParams.DeclaratorAbove | src/implicit-params.js:8 | the nearest strict ancestor that is a variable declarator; None exactly when there is none |
| ImplicitParams.ImplicitTarget | src/implicit-params.js:6-8 | the reference's argument slot if it has one, else the `init` of its declarator; None exactly when it has neither |
| ImplicitParams.ImplicitInPlace | src/implicit-params.js:5-38 | one loop iteration in place equals `ImplicitStep`; on failure nothing changes |
| ImplicitParams.TransformImplicitParamsInPlace | src/implicit-params.js:4-39 | the whole loop in place equals `ImplicitRefs`, stopping at the first failure |
| ImplicitParams.RenameInBelow | src/implicit-params.js:18-21 | renaming within the target renames each node below it |
| ImplicitParams.RenameInAt | src/implicit-params.js:25-26 | the target itself is renamed; its position data is kept |
| ImplicitParams.EncloseAt | src/implicit-params.js:28-37 | the target becomes an arrow binding the fresh name, with `{ return ... }` below it, and records that name |
| ImplicitParams.EncloseBelow | src/implicit-params.js:28-35 | below the `return` lies the renamed target's subtree |
| ImplicitParams.EncloseReturn | src/implicit-params.js:28-35 | the `return` holds the renamed target, without its old position data |
| ImplicitParams.EncloseAbove | src/implicit-params.js:35 | the nodes above the target keep their heads |
| ImplicitParams.EncloseElsewhere | src/implicit-params.js:35 | nothing beside the target changes |
| ImplicitParams.EncloseMoves | src/implicit-params.js:26-35 | every node of the target is found below the arrow's `return`, renamed |
| ImplicitParams.CollapseTarget | src/implicit-params.js:6-7 | a later reference inside the wrapped argument still finds that argument as its target |
| ImplicitParams.ImplicitAtRoot | src/implicit-params.js:6-15 | a reference at the root has neither an argument slot nor a declarator, so it fails with the implicit-parameter message |
| ImplicitParams.ImplicitOutcome | src/implicit-params.js:6-26 | a reference fails exactly when it is neither in an argument nor in a declarator, with the implicit-parameter message; it takes a fresh name exactly when its target has none recorded |
| ImplicitParams.ImplicitFresh | src/implicit-params.js:25-37 | the first reference in a target makes it an arrow with the one fresh parameter, recorded on it; nothing beside the target changes |
| ImplicitParams.ImplicitFreshBody | src/implicit-params.js:25-33 | below the arrow's `return` the reference is the fresh name, and the written name is gone |
| ImplicitParams.ImplicitReuse | src/implicit-params.js:17-23 | a reference in a target already transformed takes the recorded name and no fresh one; the target keeps its data and arity; the written name is gone from it; nothing beside it changes |
| ImplicitParams.RepeatedItCollapses | test/implicit-parameters.js:114-126 | two `it`s in one argument give one arrow: after the first, the second finds the same target, already named, and changes nothing |
| Lift.LiftInPlace | src/lift.js:5-20 | one loop iteration in place equals `LiftStep`; on failure nothing changes |
| Lift.TransformLiftInPlace | src/lift.js:3-22 | the whole loop in place equals `LiftRefs`, stopping at the first failure |
| Lift.LiftAtRoot | src/lift.js:5-7 | a reference at the root has no parent path; the source crashes reading it, and the model fails with that host error, not with either `lift` error |
| Lift.LiftOutcome | src/lift.js:7-15 | a reference fails exactly when its parent is not a call or the call does not have exactly one argument; the first of these is the error reported |
| Lift.LiftHere | src/lift.js:20 | the call becomes its argument, keeping the data of the call's position |
| Lift.LiftBelow | src/lift.js:20 | below that position lies exactly the argument's subtree |
| Lift.LiftAbove | src/lift.js:20 | the nodes above the call keep their heads |
| Lift.LiftElsewhere | src/lift.js:20 | nothing beside the call changes |
| Lift.LiftRefsAppend | src/lift.js:4-21 | the loop over `a + b` is the loop over `a`, then, unless that failed, the loop over `b` |
| Lift.LiftRefsFailure | src/lift.js:4-21 | a failing reference reports its error and leaves the tree as the earlier references left it |
| Plugin.PrimitiveKinds | plugin.js:8-9 | `isPrimitive` holds exactly for values that are not objects, arrays or functions, bigints and symbols included |
| Plugin.FalsyNeverMatches | plugin.js:11-13 | a falsy value or pattern never matches |
| Plugin.MatchFromAll | plugin.js:14-25 | the `every` from a key on holds exactly when each later key's value matches |
| Plugin.LooksLikeKeys | plugin.js:11-25 | an object pattern matches a truthy value exactly when every key matches; an empty pattern matches every truthy value |
| Plugin.IsImportShape | plugin.js:27-33 | `isImport` holds exactly when the path, its node and its source are present and the source's value is the package name |
| Plugin.ImportRecognised | plugin.js:27-33 | an import declaration is recognised exactly when its source is `param.macro` |
| Plugin.RequireShape | plugin.js:35-47 | `isRequire` holds exactly when the callee is the identifier `require`, the argument test holds, and the parent is a declarator |
| Plugin.RequireAsWrittenNeverMatches | plugin.js:41-42 | as written, an argument list of nodes never passes the test |
| Plugin.RequireMissed | plugin.js:35-47 | as written, `const x = require('param.macro')` is not recognised |
| Plugin.RequireRecognised | plugin.js:35-47 | comparing the argument's value, `require(source)` under a declarator is recognised exactly when the source is `param.macro` |
| Plugin.ApplyPlugin | plugin.js:49-67 | in place, equal to `ApplyPluginSpec`: the `reduce`, the early return, then the transformers in order |
| Plugin.ByNameKeys | plugin.js:52-59 | an imported name has a reference list exactly when some import brings it in |
| Plugin.ByNameLatest | plugin.js:52-59 | the list of an imported name is that of its last import |
| Plugin.HasReferencesSome | plugin.js:50-55 | the flag is set exactly when some imported binding has a reference |
| Plugin.NoReferencesNoChange | plugin.js:61 | with no reference to any imported binding, nothing is transformed and nothing fails |
| Plugin.DispatchIgnores | plugin.js:63-66 | imported names other than `it`, `default`, `_` and `lift` do not affect the outcome |
| Plugin.ItBeforePlaceholders | plugin.js:63-65 | `it` runs first, and the placeholders are transformed in the tree it left, unless it failed |

## Left out

- The Babel visitor wiring is not modelled: the `ImportDeclaration` and `CallExpression` handlers, the specifier-to-import mapping, `path.remove()` and the `package.json` lookup. It is host glue; `applyPlugin` takes the imports and a reference lookup as parameters.
- `scope.getBinding(...).referencePaths` is a parameter (`refsOf`). The order of the references is the host's, so the parameter order of test/placeholders.js:48-60 rests on it.
- `scope.rename` renames a binding across its whole scope, and only its binding and references. The model renames inside the target subtree only: the part of the scope the new arrow encloses. It renames every identifier with that name, so member properties, object keys and shadowing bindings are renamed too: `map(it.it)` becomes `_it => _it._it` in the model, where Babel gives `_it => _it.it`.
- `generateUidIdentifier` is modelled as a name built from the hint and one shared counter. Collision avoidance with names already in scope is not modelled.
- A declarator without an initialiser is not modelled: the model's declarator always has its `init` child.
- `PartialError`'s stack-trace capture is left out. An error is its kind only; the message text is not kept.
- A reference that is no longer in the tree is skipped by all three transformers. Babel would operate on a removed path.
- A reference at the root is handled per transformer. `Placeholders.Step` fails with the placeholder message, as the source does: there it finds no wrapper, no assignment target and no caller (src/placeholders.js:19-44). `Lift.LiftAt` fails with the host error `NoParentPath`, standing for the crash at src/lift.js:5-7. `ImplicitParams.ImplicitAt` fails with the implicit-parameter message, as src/implicit-params.js:6-15 does. No reference is ever the program node, so this case does not arise in practice.
- Hoisting cases in which the source crashes (no statement parent, no arrow above a call) become a host error value, not a thrown `TypeError`.
- JavaScript numbers are modelled as integers (no NaN, no fractions). Property reads are modelled on objects only. Strings and arrays are never used as patterns.
- dist/placeholders.js is not part of this model. It is an older and different algorithm: no assignment target, no `getParamNode`, no wrapper for an assignment placeholder. plugin.js:3-5 loads the transformers from dist/, but `Plugin.ApplyPlugin` composes the src/placeholders.js model.
- dist/lift.js, dist/index.js and src/index.js are not part of this model. The first is a compiled copy of src/lift.js; the other two are entry points.
- dist/implicit-params.js is not part of this model. It differs from src/implicit-params.js in two ways: it throws babel-macros' `MacroError` rather than `PartialError` (dist/implicit-params.js:6,19), and it sets `it.wasTransformed` and `it.idName` on the path `replaceWith` returns (dist/implicit-params.js:31-35) rather than on `parent`. The model follows src/implicit-params.js.
- SharedClosure.PlaceholdersShareClosure: covers later placeholders that stand directly as arguments of the call, with no other call on the chain from the call to the closure. The positions of the placeholders are given, because the model does not assume that node identities are unique.
- ImplicitParams.RepeatedItCollapses: proved for references whose target is an argument slot, not for a declarator's initialiser.
- Plugin.Apply: only the two function-valued patterns the plugin uses are modelled, not arbitrary functions in patterns.

## Findings

| source | as written | input that shows it | evidently intended | confidence | as-written member | corrected member |
|---|---|---|---|---|---|---|
| plugin.js:41-42 | `args[0] === name` compares the argument node, an object, to the package name string | `const x = require('param.macro')` | compare the argument's value, `args[0].value === name` | not executed | Plugin.RequireMissed | Plugin.RequireRecognised |
