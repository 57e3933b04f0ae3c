# Permission alias resolution, modelled in Dafny

SpiceDB checks a namespace definition when it is written. During that check it
computes which permissions are *pure aliases*. A pure alias is a relation or
permission whose whole rewrite is a union with exactly one child, and that child
is a computed userset naming a relation or permission. For each pure alias,
the result records the name its chain of aliases finally lands on. That is the
job of `computePermissionAliases`, and this project models it.

The Go function runs in two phases:

1. **Classification.** One loop over the namespace's relations.
   - Every relation that is not a pure alias is marked done, with no alias.
   - An alias of a non-permission is marked done and mapped to its target.
   - An alias of a permission is parked in a working set.
2. **Fixpoint.** Passes over the working set. Each pass visits the entries in
   Go's arbitrary map order. An entry whose target is already done inherits the
   target's alias, or the target itself when the target has none, and leaves the
   working set. A pass that removes nothing ends the function with an error. The
   error lists the remaining entries in sorted order.

The model keeps that form. `Aliasing.ComputePermissionAliases` is an imperative
method over the same three pieces of state:
- `aliases`: a `map<string, string>`;
- `done`: a `set<string>`;
- `workingSet`: a `map<string, string>`.

The method has the same outer loop, including the `startingCount` progress test.
The classification loop is `Aliasing.ClassifyRelations`. One pass of the fixpoint
is `Aliasing.ResolvePass`, and that pass's loop body is `Aliasing.VisitEntry`.
Go's map iteration order becomes an arbitrary choice (`:|`) of the next unvisited
key. The error's text becomes the datatype `CycleError(keys)`.

Each outcome is specified by a function of the input, not of the run:
- `Follow` walks a chain of aliases with a fuel bound.
- `ResolvesAll` describes a successful result. Its keys are exactly the pure
  aliases, and each key maps to where its chain ends.
- `IsCycleReport` describes a failure. Its list is non-empty and strictly
  ascending in Go's string order. Every listed alias waits on a listed name or on
  an undeclared permission, and every unlisted alias resolves.

The method is proved to produce one of these two. `AliasingProperties` then
proves what they mean:
- a cycle report lists exactly the aliases that never resolve;
- both descriptions have at most one solution, and no namespace has both, so the
  result does not depend on Go's iteration order;
- chains collapse;
- values are terminal names;
- the key set is exactly the single computed-userset unions;
- in any namespace, a permission aliasing itself, two permissions aliasing
  each other, or an alias of an undeclared permission makes the result an error
  that lists the aliases involved; in a namespace holding
  only such aliases, that error is the whole result.

Files:
- `wrappers.dfy`: Option and Result.
- `string_order.dfy`: Go's string order and `sort.Strings`.
- `namespace.dfy`: the relation and rewrite data, and pure-alias classification.
- `aliasing.dfy`: the resolver and its specification.
- `aliasing_properties.dfy`: properties of the specification.

## Model

| member | source | states |
|---|---|---|
| Namespace.AliasTarget | internal/namespace/aliasing.go:17-44 | A relation has alias target `x` exactly when its rewrite is a union whose only child is the computed userset `x`. |
| Namespace.DirectAliases | internal/namespace/aliasing.go:16-52 | The direct alias map holds exactly the declared relations that are pure aliases, each mapped to the name its single computed userset refers to. |
| Aliasing.ComputePermissionAliases | internal/namespace/aliasing.go:11-81 | The method terminates; the outer loop's measure is the working set's size. Its result meets `Outcome`. A success satisfies `ResolvesAll`: its keys are exactly the pure aliases, and each maps to the end of its alias chain. A failure carries a `CycleError` satisfying `IsCycleReport`. |
| Aliasing.ClassifyRelations | internal/namespace/aliasing.go:16-53 | After the first loop, every relation is either done or parked in the working set. Done non-aliases have no alias. Done aliases of non-permissions map to their target. Parked entries are aliases of permissions, keyed to their target. Every alias of a permission is parked. |
| Aliasing.ParkedAllPermissionAliases | internal/namespace/aliasing.go:43-52 | When every relation whose single computed userset names a permission has been parked, every such alias in the direct alias map is in the working set. |
| Aliasing.ClassifyNotAlias | internal/namespace/aliasing.go:17-41 | A relation with no rewrite, no union, more or fewer than one child, or a child that is not a computed userset is marked done with no alias, and the loop invariant holds for one more relation. |
| Aliasing.ClassifyDirect | internal/namespace/aliasing.go:43-49 | An alias of a non-permission is marked done and mapped to that name, and the loop invariant holds for one more relation. |
| Aliasing.ClassifyPark | internal/namespace/aliasing.go:51-52 | An alias of a permission enters the working set keyed to that permission, and the loop invariant holds for one more relation. |
| Aliasing.FinishWithoutAlias | internal/namespace/aliasing.go:17-41 | Marking a non-alias done keeps the resolver's state consistent. |
| Aliasing.FinishDirect | internal/namespace/aliasing.go:45-48 | Marking an alias of a non-permission done, with its target as alias, keeps the state consistent. |
| Aliasing.Park | internal/namespace/aliasing.go:52 | Parking an alias of a permission keeps the state consistent. |
| Aliasing.ResolvePass | internal/namespace/aliasing.go:57-69 | One pass only removes working-set entries. `done` only grows. Existing aliases are unchanged. A name done without an alias never gains one. Every entry whose target was done when the pass began leaves the working set. An entry leaves only if its target is done by the end of the pass. If nothing leaves the working set, nothing changed, and every entry waits on a name that is not done. |
| Aliasing.VisitEntry | internal/namespace/aliasing.go:58-68 | If the entry's target is done, the entry is marked done, leaves the working set, and maps to the target's alias when the target has one and to the target otherwise. If the target is not done, nothing changes. In both cases the pass invariant holds and the entry is no longer pending. |
| Aliasing.PassThroughAlias | internal/namespace/aliasing.go:58-62 | An entry whose target is done and has an alias takes that alias, becomes done, leaves the working set, and the pass has progressed. |
| Aliasing.PassToTarget | internal/namespace/aliasing.go:58-66 | An entry whose target is done with no alias maps to the target itself, becomes done, leaves the working set, and the pass has progressed. |
| Aliasing.PassWaits | internal/namespace/aliasing.go:57-58 | An entry whose target is not done stays in the working set unchanged. |
| Aliasing.ResolveThroughAlias | internal/namespace/aliasing.go:61-62 | Inheriting the target's alias keeps every recorded alias equal to the end of its chain. |
| Aliasing.ResolveToTarget | internal/namespace/aliasing.go:63-64 | Mapping an entry to its done, alias-free target keeps every recorded alias equal to the end of its chain. |
| Aliasing.FinishedResolvesAll | internal/namespace/aliasing.go:55-80 | Once the working set is empty, the aliases satisfy `ResolvesAll`. |
| Aliasing.StuckIsCycleReport | internal/namespace/aliasing.go:70-76 | When a pass makes no progress, the sorted remaining keys satisfy `IsCycleReport`. |
| Aliasing.SubsetOfSameSize | internal/namespace/aliasing.go:56-70 | A pass whose working set keeps its size has removed nothing. |
| Aliasing.SubsetIsSmaller | internal/namespace/aliasing.go:55-78 | A pass that removed something strictly shrinks the working set, so the outer loop terminates. |
| Aliasing.CollectKeys | internal/namespace/aliasing.go:71-74 | The collected list holds each working-set key exactly once. |
| StringOrder.SortStrings | internal/namespace/aliasing.go:75 | Sorting returns an ascending permutation of its input. |
| StringOrder.Insert | internal/namespace/aliasing.go:75 | Inserting into an ascending list gives an ascending list with one more copy of the element. |
| StringOrder.LessEqTotal | internal/namespace/aliasing.go:75 | Go's string order compares any two strings. |
| StringOrder.LessEqReflexive | internal/namespace/aliasing.go:75 | Every string is ordered before or equal to itself. |
| StringOrder.LessEqTransitive | internal/namespace/aliasing.go:75 | Go's string order is transitive. |
| StringOrder.LessEqAntisymmetric | internal/namespace/aliasing.go:75 | Two strings each ordered before or equal to the other are equal. |
| StringOrder.SortedListingIsStrict | internal/namespace/aliasing.go:71-75 | A sorted listing of a set's elements is strictly ascending. |
| StringOrder.StrictlySortedUnique | internal/namespace/aliasing.go:75 | Two strictly ascending lists with the same elements are equal. |
| AliasingProperties.FollowMonotone | internal/namespace/aliasing.go:58-65 | Once a chain has ended, following it with more steps gives the same name. |
| AliasingProperties.ResolvesToUnique | internal/namespace/aliasing.go:58-65 | A chain ends in at most one name. |
| AliasingProperties.FollowEndsTerminal | internal/namespace/aliasing.go:44-48 | A chain ends in a non-permission, or in a declared permission that is not an alias. |
| AliasingProperties.ResolvedValuesAreTerminal | internal/namespace/aliasing.go:44-65 | Every value of a successful result is a non-permission, or a declared permission that is not an alias. |
| AliasingProperties.ValuesAreNotKeys | internal/namespace/aliasing.go:44-65 | No value of a successful result is a key of it, when every alias is a permission. |
| AliasingProperties.AliasesArePermissions | internal/namespace/aliasing.go:16-45 | When a namespace's permissions are exactly its relations with a rewrite, every pure alias is a permission. |
| AliasingProperties.ChainsCollapse | internal/namespace/aliasing.go:58-65 | An alias of permission `p` maps to `p`'s alias when `p` has one, and to `p` otherwise. An alias of a non-permission maps to that name. |
| AliasingProperties.DirectTargetKept | internal/namespace/aliasing.go:44-48 | An alias of a non-permission is a key of the result, mapped to that very name. |
| AliasingProperties.ResolutionUnique | internal/namespace/aliasing.go:55-80 | Two successful results for one namespace are equal. |
| AliasingProperties.ClosedNeverResolves | internal/namespace/aliasing.go:58-70 | An alias in a set whose members only wait on one another or on undeclared permissions never resolves. |
| AliasingProperties.CycleReportExact | internal/namespace/aliasing.go:70-77 | A cycle report lists exactly the aliases whose chains never end. |
| AliasingProperties.CycleReportUnique | internal/namespace/aliasing.go:70-77 | Two cycle reports for one namespace are equal. |
| AliasingProperties.OutcomesExclusive | internal/namespace/aliasing.go:70-80 | No namespace has both a cycle report and a successful result. |
| AliasingProperties.OutcomeDeterministic | internal/namespace/aliasing.go:57 | Any two results that keep the method's promise are equal, so Go's iteration order does not affect the result. |
| AliasingProperties.FailsIffSomeNeverResolves | internal/namespace/aliasing.go:70-80 | The result is an error exactly when some alias never resolves. |
| AliasingProperties.AliasKeys | internal/namespace/aliasing.go:17-52 | A relation is a key of a successful result exactly when its rewrite is a union of one computed userset. No name outside the namespace is a key. |
| AliasingProperties.OnlyOutcomeIsReport | internal/namespace/aliasing.go:70-77 | When a cycle report exists, the only result the method may return is that error. |
| AliasingProperties.SelfAliasAlwaysFails | internal/namespace/aliasing.go:58-77 | In any namespace, a permission aliasing itself makes the result an error whose list contains that permission. |
| AliasingProperties.MutualAliasAlwaysFails | internal/namespace/aliasing.go:58-77 | In any namespace, two permissions aliasing each other make the result an error whose list contains both. |
| AliasingProperties.UndeclaredTargetAlwaysFails | internal/namespace/aliasing.go:58-77 | In any namespace, an alias of a permission that the namespace does not declare makes the result an error whose list contains that alias. |
| AliasingProperties.UndeclaredTargetIsReported | internal/namespace/aliasing.go:58-77 | In a namespace holding only an alias of an undeclared permission, the only result is the error listing exactly the alias, not the undeclared target. |
| AliasingProperties.SelfAliasIsReported | internal/namespace/aliasing.go:58-77 | In a namespace holding only a permission that aliases itself, the only result is the error listing exactly that permission. |
| AliasingProperties.MutualAliasIsReported | internal/namespace/aliasing.go:58-77 | In a namespace holding only two permissions that alias each other, the only result is the error listing both, in ascending order. |
| AliasingProperties.CycleOfTwo | internal/namespace/aliasing.go:70-77 | Two permissions aliasing each other, and no other alias, form a cycle report. |
| AliasingProperties.ChainExample | internal/namespace/aliasing.go:43-65 | In a namespace holding only `a` aliasing permission `b`, `b` aliasing relation `c`, and `c`, the only result maps both `a` and `b` to `c`. |
| AliasingProperties.ChainOfTwo | internal/namespace/aliasing.go:43-65 | When the only aliases are `a` of permission `b` and `b` of non-permission `c`, the only result maps both to `c`. |

## Left out

- The namespace type system is an input. Relation names are required to be unique, which a validated namespace guarantees. `IsPermission` is a function parameter `isPermission`.
- The protobuf accessors (`GetUsersetRewrite`, `GetUnion`, `GetComputedUserset`) become the datatypes in `namespace.dfy`. A nil accessor result is a `None` or a different constructor.
- The error message text is not modelled. The error is `CycleError(keys)`, holding the sorted key list that the message prints.
- StringOrder.SortStrings: `sort.Strings` is modelled by its result (ascending, a permutation) as an insertion sort, not by Go's algorithm. Go compares strings byte by byte. For valid UTF-8, as relation names are, that is the same order as comparing code points, and the model compares code points; strings holding invalid UTF-8 are not modelled.
- The model splits the Go function into `ComputePermissionAliases`, `ClassifyRelations`, `ResolvePass` and `VisitEntry`. The state and the order of updates are unchanged. `depth` is a ghost map that the proofs use to record how far each alias's chain reaches.
- AliasingProperties.ValuesAreNotKeys: stated without conditions, the property does not hold of the code. If a non-permission is itself an alias, an alias of it keeps it as a value while it is also a key. The model proves the property for namespaces where every alias is a permission, which `AliasesArePermissions` derives from "permissions are exactly the relations with a rewrite".
- An alias whose permission target the namespace does not declare never finishes. The alias, not the undeclared target, is listed in the cycle error, because the code does the same (aliasing.go:58, 70-76). `UndeclaredTargetIsReported` states this for a namespace holding only such an alias.
