/**
 * Permission alias resolution: every permission whose expression is nothing but a
 * reference to another relation or permission is mapped to the name that reference
 * finally lands on, following chains of aliases.
 */
module Aliasing {
  import opened Wrappers
  import opened StringOrder
  import opened Namespace

  /** The resolver's error: the names left in the working set, in sorted order. */
  datatype CycleError = CycleError(keys: seq<string>)

  /**
   * What resolution depends on: each pure alias's direct target, the names the
   * namespace declares, and the type system's IsPermission.
   */
  datatype AliasGraph = AliasGraph(direct: map<string, string>, names: set<string>, isPermission: string -> bool)

  ghost predicate WellFormed(g: AliasGraph)
  {
    g.direct.Keys <= g.names
  }

  function GraphOf(relations: seq<Relation>, isPermission: string -> bool): (g: AliasGraph)
    requires UniqueNames(relations)
    ensures WellFormed(g)
  {
    AliasGraph(DirectAliases(relations), Names(relations), isPermission)
  }

  /**
   * The name alias `n` resolves to by following at most `fuel` further aliases,
   * or None if that is not enough. A target that is not a permission ends the
   * chain; so does a permission that is not itself an alias. A permission the
   * namespace does not declare never resolves.
   */
  function Follow(g: AliasGraph, n: string, fuel: nat): Option<string>
    requires n in g.direct
    decreases fuel
  {
    var target := g.direct[n];
    if !g.isPermission(target) then Some(target)
    else if target !in g.names then None
    else if target !in g.direct then Some(target)
    else if fuel == 0 then None
    else Follow(g, target, fuel - 1)
  }

  ghost predicate ResolvesTo(g: AliasGraph, n: string, v: string)
  {
    n in g.direct && exists fuel: nat :: Follow(g, n, fuel) == Some(v)
  }

  ghost predicate NeverResolves(g: AliasGraph, n: string)
  {
    n in g.direct && forall fuel: nat :: Follow(g, n, fuel) == None
  }

  /** A successful result: exactly the pure aliases, each mapped to where its chain ends. */
  ghost predicate ResolvesAll(g: AliasGraph, aliases: map<string, string>)
  {
    && aliases.Keys == g.direct.Keys
    && forall n :: n in aliases ==> ResolvesTo(g, n, aliases[n])
  }

  /**
   * A cycle report: a non-empty, strictly ascending list of aliases onto permissions,
   * each waiting on another listed alias or on a permission the namespace does not
   * declare, while every alias not listed resolves.
   */
  ghost predicate IsCycleReport(g: AliasGraph, keys: seq<string>)
  {
    && keys != []
    && StrictlySorted(keys)
    && (forall k :: k in keys ==>
          k in g.direct && g.isPermission(g.direct[k]) && (g.direct[k] in keys || g.direct[k] !in g.names))
    && (forall n :: n in g.direct && n !in keys ==> exists fuel: nat :: Follow(g, n, fuel).Some?)
  }

  /** What holds of the three maps between any two steps of the resolver. */
  ghost predicate Consistent(
    g: AliasGraph, aliases: map<string, string>, done: set<string>,
    workingSet: map<string, string>, depth: map<string, nat>)
  {
    && done <= g.names
    && done !! workingSet.Keys
    && (forall n :: n in workingSet ==>
          n in g.direct && g.isPermission(g.direct[n]) && workingSet[n] == g.direct[n])
    && aliases.Keys <= done
    && (forall n :: n in done ==> (n in aliases <==> n in g.direct))
    // Triggered on depth[n] only: unfolding Follow must not start another instance.
    && aliases.Keys <= depth.Keys
    && (forall n {:trigger depth[n]} :: n in aliases && n in depth ==> Follow(g, n, depth[n]) == Some(aliases[n]))
  }

  lemma NamesOfPrefix(relations: seq<Relation>, i: nat)
    requires UniqueNames(relations) && i < |relations|
    ensures Names(relations[..i + 1]) == Names(relations[..i]) + {relations[i].name}
    ensures relations[i].name !in Names(relations[..i])
  {
    assert relations[..i + 1] == relations[..i] + [relations[i]];
  }

  /** Finishing a name that is not an alias keeps the resolver consistent. */
  lemma FinishWithoutAlias(
    g: AliasGraph, aliases: map<string, string>, done: set<string>,
    workingSet: map<string, string>, depth: map<string, nat>, name: string)
    requires Consistent(g, aliases, done, workingSet, depth)
    requires name in g.names && name !in workingSet && name !in g.direct
    ensures Consistent(g, aliases, done + {name}, workingSet, depth)
  {
  }

  /** Finishing an alias of a non-permission, mapped to that target, keeps the resolver consistent. */
  lemma FinishDirect(
    g: AliasGraph, aliases: map<string, string>, done: set<string>,
    workingSet: map<string, string>, depth: map<string, nat>, name: string)
    requires Consistent(g, aliases, done, workingSet, depth)
    requires name !in done && name !in workingSet && name in g.direct && !g.isPermission(g.direct[name])
    requires WellFormed(g)
    ensures Consistent(g, aliases[name := g.direct[name]], done + {name}, workingSet, depth[name := 0])
  {
  }

  /** Parking an alias of a permission in the working set keeps the resolver consistent. */
  lemma Park(
    g: AliasGraph, aliases: map<string, string>, done: set<string>,
    workingSet: map<string, string>, depth: map<string, nat>, name: string)
    requires Consistent(g, aliases, done, workingSet, depth)
    requires name !in done && name in g.direct && g.isPermission(g.direct[name])
    ensures Consistent(g, aliases, done, workingSet[name := g.direct[name]], depth)
  {
  }

  /** Resolving a working-set entry whose finished target has an alias: the entry inherits it. */
  lemma ResolveThroughAlias(
    g: AliasGraph, aliases: map<string, string>, done: set<string>,
    workingSet: map<string, string>, depth: map<string, nat>, name: string)
    requires WellFormed(g) && Consistent(g, aliases, done, workingSet, depth)
    requires name in workingSet && workingSet[name] in done && workingSet[name] in aliases
    ensures Consistent(g, aliases[name := aliases[workingSet[name]]], done + {name}, workingSet - {name},
                       depth[name := depth[workingSet[name]] + 1])
  {
    var target := workingSet[name];
    assert Follow(g, name, depth[target] + 1) == Follow(g, target, depth[target]);
  }

  /** Resolving a working-set entry whose finished target has no alias: the entry maps to the target. */
  lemma ResolveToTarget(
    g: AliasGraph, aliases: map<string, string>, done: set<string>,
    workingSet: map<string, string>, depth: map<string, nat>, name: string)
    requires WellFormed(g) && Consistent(g, aliases, done, workingSet, depth)
    requires name in workingSet && workingSet[name] in done && workingSet[name] !in aliases
    ensures Consistent(g, aliases[name := workingSet[name]], done + {name}, workingSet - {name}, depth[name := 0])
  {
    assert Follow(g, name, 0) == Some(workingSet[name]);
  }

  /** What the resolver promises about its result. */
  ghost predicate Outcome(g: AliasGraph, result: Result<map<string, string>, CycleError>)
  {
    && (result.Ok? ==> ResolvesAll(g, result.value))
    && (result.Err? ==> IsCycleReport(g, result.error.keys))
  }

  /**
   * Computes the alias map of a namespace, or reports the permissions whose
   * alias chains never end in a relation or a non-alias permission.
   */
  method ComputePermissionAliases(relations: seq<Relation>, isPermission: string -> bool)
    returns (result: Result<map<string, string>, CycleError>)
    requires UniqueNames(relations)
    ensures Outcome(GraphOf(relations, isPermission), result)
  {
    ghost var g := GraphOf(relations, isPermission);
    var aliases, done, workingSet, depth := ClassifyRelations(relations, isPermission);

    // Fixpoint: resolve every entry whose target is finished, until none is left
    // or a whole pass finishes nothing.
    while |workingSet| > 0
      invariant done + workingSet.Keys == g.names
      invariant Consistent(g, aliases, done, workingSet, depth)
      decreases |workingSet|
    {
      var startingCount := |workingSet|;
      ghost var workingSet0 := workingSet;
      aliases, done, workingSet, depth := ResolvePass(g, aliases, done, workingSet, depth);
      if |workingSet| == startingCount {
        SubsetOfSameSize(workingSet.Keys, workingSet0.Keys);
        var keys := CollectKeys(workingSet);
        keys := SortStrings(keys);
        StuckIsCycleReport(g, aliases, done, workingSet, depth, keys);
        return Err(CycleError(keys));
      }
      SubsetIsSmaller(workingSet.Keys, workingSet0.Keys);
    }
    FinishedResolvesAll(g, aliases, done, workingSet, depth);
    return Ok(aliases);
  }

  /** With every name finished, the aliases are exactly the pure aliases, each resolved. */
  lemma FinishedResolvesAll(
    g: AliasGraph, aliases: map<string, string>, done: set<string>,
    workingSet: map<string, string>, depth: map<string, nat>)
    requires WellFormed(g) && Consistent(g, aliases, done, workingSet, depth)
    requires done + workingSet.Keys == g.names && |workingSet| == 0
    ensures ResolvesAll(g, aliases)
  {
    forall n | n in aliases
      ensures ResolvesTo(g, n, aliases[n])
    {
      assert Follow(g, n, depth[n]) == Some(aliases[n]);
    }
  }

  /** A pass that finishes nothing leaves a working set whose sorted keys form a cycle report. */
  lemma StuckIsCycleReport(
    g: AliasGraph, aliases: map<string, string>, done: set<string>,
    workingSet: map<string, string>, depth: map<string, nat>, keys: seq<string>)
    requires WellFormed(g) && Consistent(g, aliases, done, workingSet, depth)
    requires done + workingSet.Keys == g.names && |workingSet| > 0
    requires forall n :: n in workingSet ==> workingSet[n] !in done
    requires Sorted(keys) && multiset(keys) == multiset(workingSet.Keys)
    ensures IsCycleReport(g, keys)
  {
    SortedListingIsStrict(keys, workingSet.Keys);
    assert forall k :: k in keys <==> k in workingSet by {
      forall k ensures k in keys <==> k in workingSet {
        assert k in keys <==> k in multiset(keys);
      }
    }
    var some :| some in workingSet;
    assert some in keys;
    forall n | n in g.direct && n !in keys
      ensures exists fuel: nat :: Follow(g, n, fuel).Some?
    {
      assert Follow(g, n, depth[n]).Some?;
    }
  }

  /**
   * The classification loop's invariant after the first `i` relations: every one of
   * them is finished or parked, every alias of a permission among them is parked,
   * and the resolver is consistent.
   */
  ghost predicate Classified(
    relations: seq<Relation>, isPermission: string -> bool, i: nat,
    aliases: map<string, string>, done: set<string>,
    workingSet: map<string, string>, depth: map<string, nat>)
  {
    && UniqueNames(relations)
    && i <= |relations|
    && done + workingSet.Keys == Names(relations[..i])
    && (forall j :: 0 <= j < i && AliasTarget(relations[j]).Some? && isPermission(AliasTarget(relations[j]).value) ==>
          relations[j].name in workingSet)
    && Consistent(GraphOf(relations, isPermission), aliases, done, workingSet, depth)
  }

  /** Classifying a relation that is not a single computed-userset union: it is finished with no alias. */
  lemma ClassifyNotAlias(
    relations: seq<Relation>, isPermission: string -> bool, i: nat,
    aliases: map<string, string>, done: set<string>,
    workingSet: map<string, string>, depth: map<string, nat>)
    requires Classified(relations, isPermission, i, aliases, done, workingSet, depth)
    requires i < |relations| && AliasTarget(relations[i]).None?
    ensures Classified(relations, isPermission, i + 1, aliases, done + {relations[i].name}, workingSet, depth)
  {
    NamesOfPrefix(relations, i);
    FinishWithoutAlias(GraphOf(relations, isPermission), aliases, done, workingSet, depth, relations[i].name);
  }

  /** Classifying an alias of a non-permission: it is finished, mapped to its target. */
  lemma ClassifyDirect(
    relations: seq<Relation>, isPermission: string -> bool, i: nat,
    aliases: map<string, string>, done: set<string>,
    workingSet: map<string, string>, depth: map<string, nat>, target: string)
    requires Classified(relations, isPermission, i, aliases, done, workingSet, depth)
    requires i < |relations| && AliasTarget(relations[i]) == Some(target) && !isPermission(target)
    ensures Classified(relations, isPermission, i + 1, aliases[relations[i].name := target],
                       done + {relations[i].name}, workingSet, depth[relations[i].name := 0])
  {
    NamesOfPrefix(relations, i);
    FinishDirect(GraphOf(relations, isPermission), aliases, done, workingSet, depth, relations[i].name);
  }

  /** Classifying an alias of a permission: it is parked in the working set. */
  lemma ClassifyPark(
    relations: seq<Relation>, isPermission: string -> bool, i: nat,
    aliases: map<string, string>, done: set<string>,
    workingSet: map<string, string>, depth: map<string, nat>, target: string)
    requires Classified(relations, isPermission, i, aliases, done, workingSet, depth)
    requires i < |relations| && AliasTarget(relations[i]) == Some(target) && isPermission(target)
    ensures Classified(relations, isPermission, i + 1, aliases, done,
                       workingSet[relations[i].name := target], depth)
  {
    NamesOfPrefix(relations, i);
    Park(GraphOf(relations, isPermission), aliases, done, workingSet, depth, relations[i].name);
    var workingSet' := workingSet[relations[i].name := target];
    forall j | 0 <= j < i + 1 && AliasTarget(relations[j]).Some? && isPermission(AliasTarget(relations[j]).value)
      ensures relations[j].name in workingSet'
    {
      if j < i {
        assert relations[j].name in workingSet;
      }
    }
  }

  /**
   * The classification pass: relations that are not a union of exactly one computed
   * userset are finished with no alias, aliases of a non-permission are finished
   * with their target, and aliases of a permission are parked in the working set.
   */
  method ClassifyRelations(relations: seq<Relation>, isPermission: string -> bool)
    returns (aliases: map<string, string>, done: set<string>,
             workingSet: map<string, string>, ghost depth: map<string, nat>)
    requires UniqueNames(relations)
    ensures done + workingSet.Keys == Names(relations)
    ensures forall n :: n in DirectAliases(relations) && isPermission(DirectAliases(relations)[n]) ==> n in workingSet
    ensures Consistent(GraphOf(relations, isPermission), aliases, done, workingSet, depth)
  {
    aliases, done, workingSet, depth := map[], {}, map[], map[];

    for i := 0 to |relations|
      invariant Classified(relations, isPermission, i, aliases, done, workingSet, depth)
    {
      var rel := relations[i];
      if rel.rewrite.None? {
        ClassifyNotAlias(relations, isPermission, i, aliases, done, workingSet, depth);
        done := done + {rel.name};
        continue;
      }
      var rewrite := rel.rewrite.value;
      if !rewrite.Union? {
        ClassifyNotAlias(relations, isPermission, i, aliases, done, workingSet, depth);
        done := done + {rel.name};
        continue;
      }
      if |rewrite.children| != 1 {
        ClassifyNotAlias(relations, isPermission, i, aliases, done, workingSet, depth);
        done := done + {rel.name};
        continue;
      }
      var child := rewrite.children[0];
      if !child.ComputedUserset? {
        ClassifyNotAlias(relations, isPermission, i, aliases, done, workingSet, depth);
        done := done + {rel.name};
        continue;
      }
      var aliasedPermOrRel := child.relation;
      if !isPermission(aliasedPermOrRel) {
        ClassifyDirect(relations, isPermission, i, aliases, done, workingSet, depth, aliasedPermOrRel);
        done := done + {rel.name};
        aliases := aliases[rel.name := aliasedPermOrRel];
        depth := depth[rel.name := 0];
        continue;
      }
      ClassifyPark(relations, isPermission, i, aliases, done, workingSet, depth, aliasedPermOrRel);
      workingSet := workingSet[rel.name := aliasedPermOrRel];
    }
    assert relations[..|relations|] == relations;
    ParkedAllPermissionAliases(relations, isPermission, workingSet);
  }

  /** Once every relation is classified, every alias of a permission is parked. */
  lemma ParkedAllPermissionAliases(relations: seq<Relation>, isPermission: string -> bool, workingSet: map<string, string>)
    requires UniqueNames(relations)
    requires forall j ::
      0 <= j < |relations| && AliasTarget(relations[j]).Some? && isPermission(AliasTarget(relations[j]).value) ==>
        relations[j].name in workingSet
    ensures forall n :: n in DirectAliases(relations) && isPermission(DirectAliases(relations)[n]) ==> n in workingSet
  {
    var direct := DirectAliases(relations);
    forall n | n in direct && isPermission(direct[n])
      ensures n in workingSet
    {
      var j :| 0 <= j < |relations| && relations[j].name == n;
      assert AliasTarget(relations[j]).Some?;
    }
  }

  /**
   * The invariant of one pass over the working set. `pending` holds the entries not
   * yet visited; until some entry is finished (`progressed`), nothing has changed and
   * every visited entry waits on an unfinished name; afterwards `resolvedOne` is an
   * entry that left the working set. A visited entry whose target was finished
   * before the pass has left.
   */
  ghost predicate PassInvariant(
    g: AliasGraph, aliases0: map<string, string>, done0: set<string>, workingSet0: map<string, string>,
    aliases: map<string, string>, done: set<string>, workingSet: map<string, string>,
    depth: map<string, nat>, pending: set<string>, progressed: bool, resolvedOne: string)
  {
    && WellFormed(g)
    && pending <= workingSet.Keys <= workingSet0.Keys
    && done + workingSet.Keys == g.names
    && Consistent(g, aliases, done, workingSet, depth)
    && (forall n :: n in workingSet0 ==> n in g.direct && workingSet0[n] == g.direct[n])
    && (forall n :: n in workingSet0 && n !in pending && workingSet0[n] in done0 ==> n !in workingSet)
    && (forall n :: n in workingSet0 && n !in workingSet ==> workingSet0[n] in done)
    && done0 <= done
    && (forall n :: n in aliases0 ==> n in aliases && aliases[n] == aliases0[n])
    && (progressed ==> resolvedOne in workingSet0 && resolvedOne !in workingSet)
    && (!progressed ==> workingSet == workingSet0 && done == done0)
    && (!progressed ==> forall n :: n in workingSet0 && n !in pending ==> workingSet0[n] !in done0)
  }

  /** Visiting an entry whose target is finished and has an alias: the entry inherits it. */
  lemma PassThroughAlias(
    g: AliasGraph, aliases0: map<string, string>, done0: set<string>, workingSet0: map<string, string>,
    aliases: map<string, string>, done: set<string>, workingSet: map<string, string>,
    depth: map<string, nat>, pending: set<string>, progressed: bool, resolvedOne: string, name: string)
    requires PassInvariant(g, aliases0, done0, workingSet0, aliases, done, workingSet, depth, pending, progressed, resolvedOne)
    requires name in pending && workingSet[name] in done && workingSet[name] in aliases
    ensures PassInvariant(g, aliases0, done0, workingSet0,
                          aliases[name := aliases[workingSet[name]]], done + {name}, workingSet - {name},
                          depth[name := depth[workingSet[name]] + 1], pending - {name}, true, name)
  {
    ResolveThroughAlias(g, aliases, done, workingSet, depth, name);
  }

  /** Visiting an entry whose target is finished and has no alias: the entry maps to the target. */
  lemma PassToTarget(
    g: AliasGraph, aliases0: map<string, string>, done0: set<string>, workingSet0: map<string, string>,
    aliases: map<string, string>, done: set<string>, workingSet: map<string, string>,
    depth: map<string, nat>, pending: set<string>, progressed: bool, resolvedOne: string, name: string)
    requires PassInvariant(g, aliases0, done0, workingSet0, aliases, done, workingSet, depth, pending, progressed, resolvedOne)
    requires name in pending && workingSet[name] in done && workingSet[name] !in aliases
    ensures PassInvariant(g, aliases0, done0, workingSet0,
                          aliases[name := workingSet[name]], done + {name}, workingSet - {name},
                          depth[name := 0], pending - {name}, true, name)
  {
    ResolveToTarget(g, aliases, done, workingSet, depth, name);
  }

  /** Visiting an entry whose target is not finished: the entry stays. */
  lemma PassWaits(
    g: AliasGraph, aliases0: map<string, string>, done0: set<string>, workingSet0: map<string, string>,
    aliases: map<string, string>, done: set<string>, workingSet: map<string, string>,
    depth: map<string, nat>, pending: set<string>, progressed: bool, resolvedOne: string, name: string)
    requires PassInvariant(g, aliases0, done0, workingSet0, aliases, done, workingSet, depth, pending, progressed, resolvedOne)
    requires name in pending && workingSet[name] !in done
    ensures PassInvariant(g, aliases0, done0, workingSet0, aliases, done, workingSet,
                          depth, pending - {name}, progressed, resolvedOne)
  {
  }

  /**
   * One pass over the working set, in the map's arbitrary order: every entry whose
   * target is already finished is finished too, and leaves the working set. If
   * nothing leaves, every entry waits on a name that is not finished.
   */
  method ResolvePass(
    ghost g: AliasGraph, aliases0: map<string, string>, done0: set<string>,
    workingSet0: map<string, string>, ghost depth0: map<string, nat>)
    returns (aliases: map<string, string>, done: set<string>,
             workingSet: map<string, string>, ghost depth: map<string, nat>)
    requires WellFormed(g)
    requires done0 + workingSet0.Keys == g.names
    requires Consistent(g, aliases0, done0, workingSet0, depth0)
    ensures done + workingSet.Keys == g.names
    ensures Consistent(g, aliases, done, workingSet, depth)
    ensures workingSet.Keys <= workingSet0.Keys
    ensures done0 <= done
    ensures forall n :: n in aliases0 ==> n in aliases && aliases[n] == aliases0[n]
    ensures forall n :: n in done0 && n !in aliases0 ==> n !in aliases
    ensures forall n :: n in workingSet0 && workingSet0[n] in done0 ==> n !in workingSet
    ensures forall n :: n in workingSet0 && n !in workingSet ==> workingSet0[n] in done
    ensures workingSet.Keys == workingSet0.Keys ==>
      done == done0 && forall n :: n in workingSet0 ==> workingSet0[n] !in done0
  {
    aliases, done, workingSet, depth := aliases0, done0, workingSet0, depth0;
    ghost var progressed := false;
    ghost var resolvedOne := "";
    var pending := workingSet.Keys;
    while pending != {}
      invariant PassInvariant(g, aliases0, done0, workingSet0, aliases, done, workingSet, depth,
                              pending, progressed, resolvedOne)
      decreases pending
    {
      var relName :| relName in pending;
      aliases, done, workingSet, depth, progressed, resolvedOne :=
        VisitEntry(g, aliases0, done0, workingSet0, aliases, done, workingSet, depth,
                   pending, progressed, resolvedOne, relName);
      pending := pending - {relName};
    }
  }

  /** The loop body of one pass: finish the entry `name` if its target is finished. */
  method VisitEntry(
    ghost g: AliasGraph, ghost aliases0: map<string, string>, ghost done0: set<string>,
    ghost workingSet0: map<string, string>,
    aliases: map<string, string>, done: set<string>, workingSet: map<string, string>,
    ghost depth: map<string, nat>, ghost pending: set<string>, ghost progressed: bool,
    ghost resolvedOne: string, name: string)
    returns (aliases': map<string, string>, done': set<string>, workingSet': map<string, string>,
             ghost depth': map<string, nat>, ghost progressed': bool, ghost resolvedOne': string)
    requires PassInvariant(g, aliases0, done0, workingSet0, aliases, done, workingSet, depth,
                           pending, progressed, resolvedOne)
    requires name in pending
    ensures PassInvariant(g, aliases0, done0, workingSet0, aliases', done', workingSet', depth',
                          pending - {name}, progressed', resolvedOne')
    ensures workingSet[name] in done ==>
      && aliases' == aliases[name := if workingSet[name] in aliases then aliases[workingSet[name]] else workingSet[name]]
      && done' == done + {name}
      && workingSet' == workingSet - {name}
    ensures workingSet[name] !in done ==> aliases' == aliases && done' == done && workingSet' == workingSet
  {
    var aliasedPermission := workingSet[name];
    if aliasedPermission in done {
      if aliasedPermission in aliases {
        PassThroughAlias(g, aliases0, done0, workingSet0, aliases, done, workingSet, depth,
                         pending, progressed, resolvedOne, name);
        aliases' := aliases[name := aliases[aliasedPermission]];
        depth' := depth[name := depth[aliasedPermission] + 1];
      } else {
        PassToTarget(g, aliases0, done0, workingSet0, aliases, done, workingSet, depth,
                     pending, progressed, resolvedOne, name);
        aliases' := aliases[name := aliasedPermission];
        depth' := depth[name := 0];
      }
      done', workingSet' := done + {name}, workingSet - {name};
      progressed', resolvedOne' := true, name;
    } else {
      PassWaits(g, aliases0, done0, workingSet0, aliases, done, workingSet, depth,
                pending, progressed, resolvedOne, name);
      aliases', done', workingSet', depth', progressed', resolvedOne' :=
        aliases, done, workingSet, depth, progressed, resolvedOne;
    }
  }

  lemma {:induction false} SubsetIsSmaller(a: set<string>, b: set<string>)
    requires a <= b
    ensures |a| <= |b|
    ensures a != b ==> |a| < |b|
  {
    if a != {} {
      var x :| x in a;
      SubsetIsSmaller(a - {x}, b - {x});
    } else if b != {} {
      var x :| x in b;
    }
  }

  lemma SubsetOfSameSize(a: set<string>, b: set<string>)
    requires a <= b && |a| == |b|
    ensures a == b
  {
    SubsetIsSmaller(a, b);
  }

  /** The working set's keys, in the order the map hands them out. */
  method CollectKeys(workingSet: map<string, string>) returns (keys: seq<string>)
    ensures multiset(keys) == multiset(workingSet.Keys)
  {
    keys := [];
    var rest := workingSet.Keys;
    while rest != {}
      invariant rest <= workingSet.Keys
      invariant multiset(keys) + multiset(rest) == multiset(workingSet.Keys)
      decreases rest
    {
      var key :| key in rest;
      assert multiset(rest) == multiset(rest - {key}) + multiset{key};
      keys := keys + [key];
      rest := rest - {key};
    }
  }
}
