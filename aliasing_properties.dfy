/**
 * What the resolver's two outcomes mean, and why they do not depend on the order
 * in which the working set is visited.
 */
module AliasingProperties {
  import opened Wrappers
  import opened StringOrder
  import opened Namespace
  import opened Aliasing

  /** More fuel never changes a chain that has already ended. */
  lemma {:induction false} FollowMonotone(g: AliasGraph, n: string, k: nat, k': nat)
    requires n in g.direct && k <= k' && Follow(g, n, k).Some?
    ensures Follow(g, n, k') == Follow(g, n, k)
    decreases k
  {
    var target := g.direct[n];
    if g.isPermission(target) && target in g.names && target in g.direct {
      FollowMonotone(g, target, k - 1, k' - 1);
    }
  }

  /** A chain ends in at most one name. */
  lemma ResolvesToUnique(g: AliasGraph, n: string, v: string, w: string)
    requires ResolvesTo(g, n, v) && ResolvesTo(g, n, w)
    ensures v == w
  {
    var k :| Follow(g, n, k) == Some(v);
    var k' :| Follow(g, n, k') == Some(w);
    if k <= k' {
      FollowMonotone(g, n, k, k');
    } else {
      FollowMonotone(g, n, k', k);
    }
  }

  /**
   * A chain ends in a name that is not a permission, or in a declared permission
   * that is not itself an alias.
   */
  lemma {:induction false} FollowEndsTerminal(g: AliasGraph, n: string, fuel: nat, v: string)
    requires n in g.direct && Follow(g, n, fuel) == Some(v)
    ensures !g.isPermission(v) || (v in g.names && v !in g.direct)
    decreases fuel
  {
    var target := g.direct[n];
    if g.isPermission(target) && target in g.names && target in g.direct {
      FollowEndsTerminal(g, target, fuel - 1, v);
    }
  }

  /** Every value of a successful result is such a terminal name. */
  lemma ResolvedValuesAreTerminal(g: AliasGraph, aliases: map<string, string>, n: string)
    requires ResolvesAll(g, aliases) && n in aliases
    ensures !g.isPermission(aliases[n]) || (aliases[n] in g.names && aliases[n] !in g.direct)
  {
    var fuel :| Follow(g, n, fuel) == Some(aliases[n]);
    FollowEndsTerminal(g, n, fuel, aliases[n]);
  }

  /**
   * No value of a successful result is itself a key, provided every alias is a
   * permission (as it is in a validated namespace, where exactly the relations with
   * a rewrite are permissions).
   */
  lemma ValuesAreNotKeys(g: AliasGraph, aliases: map<string, string>)
    requires ResolvesAll(g, aliases)
    requires forall n :: n in g.direct ==> g.isPermission(n)
    ensures forall n :: n in aliases ==> aliases[n] !in aliases
  {
    forall n | n in aliases
      ensures aliases[n] !in aliases
    {
      ResolvedValuesAreTerminal(g, aliases, n);
    }
  }

  /** In a namespace whose permissions are exactly its relations with a rewrite, every alias is a permission. */
  lemma AliasesArePermissions(relations: seq<Relation>, isPermission: string -> bool)
    requires UniqueNames(relations)
    requires forall i :: 0 <= i < |relations| ==> (relations[i].rewrite.Some? <==> isPermission(relations[i].name))
    ensures forall n :: n in GraphOf(relations, isPermission).direct ==> isPermission(n)
  {
    var direct := DirectAliases(relations);
    forall n | n in direct
      ensures isPermission(n)
    {
      var i :| 0 <= i < |relations| && relations[i].name == n;
      assert AliasTarget(relations[i]).Some?;
    }
  }

  /**
   * Chains collapse: an alias maps to its target's alias when the target is a
   * permission that has one, and to the target itself otherwise.
   */
  lemma ChainsCollapse(g: AliasGraph, aliases: map<string, string>, n: string)
    requires ResolvesAll(g, aliases) && n in aliases
    ensures var p := g.direct[n];
      aliases[n] == if g.isPermission(p) && p in aliases then aliases[p] else p
  {
    var p := g.direct[n];
    var fuel: nat :| Follow(g, n, fuel) == Some(aliases[n]);
    if g.isPermission(p) && p in aliases {
      assert fuel > 0;
      assert Follow(g, p, fuel - 1) == Some(aliases[n]);
      assert ResolvesTo(g, p, aliases[n]);
      ResolvesToUnique(g, p, aliases[n], aliases[p]);
    }
  }

  /** An alias of a name that is not a permission keeps that name. */
  lemma DirectTargetKept(g: AliasGraph, aliases: map<string, string>, n: string)
    requires ResolvesAll(g, aliases) && n in g.direct && !g.isPermission(g.direct[n])
    ensures n in aliases && aliases[n] == g.direct[n]
  {
    ChainsCollapse(g, aliases, n);
  }

  /** Two successful results for one namespace are equal. */
  lemma ResolutionUnique(g: AliasGraph, a: map<string, string>, b: map<string, string>)
    requires ResolvesAll(g, a) && ResolvesAll(g, b)
    ensures a == b
  {
    forall n | n in a
      ensures a[n] == b[n]
    {
      ResolvesToUnique(g, n, a[n], b[n]);
    }
  }

  /** An alias listed in a set of aliases that only wait on one another or on undeclared permissions never resolves. */
  lemma {:induction false} ClosedNeverResolves(g: AliasGraph, keys: seq<string>, n: string, fuel: nat)
    requires forall k :: k in keys ==>
      k in g.direct && g.isPermission(g.direct[k]) && (g.direct[k] in keys || g.direct[k] !in g.names)
    requires n in keys
    ensures Follow(g, n, fuel) == None
    decreases fuel
  {
    var target := g.direct[n];
    if target in keys && fuel > 0 {
      ClosedNeverResolves(g, keys, target, fuel - 1);
    }
  }

  /** A cycle report lists exactly the aliases that never resolve. */
  lemma CycleReportExact(g: AliasGraph, keys: seq<string>)
    requires IsCycleReport(g, keys)
    ensures forall n :: n in keys <==> NeverResolves(g, n)
  {
    forall n | n in keys
      ensures NeverResolves(g, n)
    {
      forall fuel: nat
        ensures Follow(g, n, fuel) == None
      {
        ClosedNeverResolves(g, keys, n, fuel);
      }
    }
    forall n | n !in keys
      ensures !NeverResolves(g, n)
    {
      if n in g.direct {
        var fuel: nat :| Follow(g, n, fuel).Some?;
      }
    }
  }

  /** Two cycle reports for one namespace are equal. */
  lemma CycleReportUnique(g: AliasGraph, keys: seq<string>, keys': seq<string>)
    requires IsCycleReport(g, keys) && IsCycleReport(g, keys')
    ensures keys == keys'
  {
    CycleReportExact(g, keys);
    CycleReportExact(g, keys');
    StrictlySortedUnique(keys, keys');
  }

  /** No namespace has both a successful result and a cycle report. */
  lemma OutcomesExclusive(g: AliasGraph, aliases: map<string, string>, keys: seq<string>)
    requires IsCycleReport(g, keys)
    ensures !ResolvesAll(g, aliases)
  {
    CycleReportExact(g, keys);
    var k := keys[0];
    assert NeverResolves(g, k);
    assert k !in aliases || !ResolvesTo(g, k, aliases[k]);
  }

  /**
   * The result does not depend on the order in which Go's map iteration visits
   * the working set: any two results that keep the promise are equal.
   */
  lemma OutcomeDeterministic(
    g: AliasGraph, r: Result<map<string, string>, CycleError>, r': Result<map<string, string>, CycleError>)
    requires Outcome(g, r) && Outcome(g, r')
    ensures r == r'
  {
    match r {
      case Ok(a) =>
        match r' {
          case Ok(b) => ResolutionUnique(g, a, b);
          case Err(e) => OutcomesExclusive(g, a, e.keys);
        }
      case Err(e) =>
        match r' {
          case Ok(b) => OutcomesExclusive(g, b, e.keys);
          case Err(e') => CycleReportUnique(g, e.keys, e'.keys);
        }
    }
  }

  /** The result fails exactly when some alias never resolves. */
  lemma FailsIffSomeNeverResolves(g: AliasGraph, r: Result<map<string, string>, CycleError>)
    requires Outcome(g, r)
    ensures r.Err? <==> exists n :: NeverResolves(g, n)
  {
    if r.Err? {
      CycleReportExact(g, r.error.keys);
      assert NeverResolves(g, r.error.keys[0]);
    } else {
      forall n
        ensures !NeverResolves(g, n)
      {
        if n in g.direct {
          var fuel: nat :| Follow(g, n, fuel) == Some(r.value[n]);
        }
      }
    }
  }

  /**
   * The keys of a successful result are exactly the relations whose rewrite is a
   * union of one computed userset, and no name outside the namespace.
   */
  lemma AliasKeys(relations: seq<Relation>, isPermission: string -> bool, aliases: map<string, string>)
    requires UniqueNames(relations)
    requires ResolvesAll(GraphOf(relations, isPermission), aliases)
    ensures aliases.Keys <= Names(relations)
    ensures forall i :: 0 <= i < |relations| ==>
      (relations[i].name in aliases <==> exists x :: relations[i].rewrite == Some(Union([ComputedUserset(x)])))
  {
    forall i | 0 <= i < |relations|
      ensures relations[i].name in aliases <==> exists x :: relations[i].rewrite == Some(Union([ComputedUserset(x)]))
    {
      var t := AliasTarget(relations[i]);
      if t.Some? {
        assert relations[i].rewrite == Some(Union([ComputedUserset(t.value)]));
      }
    }
  }

  /** The only result for a namespace whose one cycle report is `keys`. */
  lemma OnlyOutcomeIsReport(g: AliasGraph, keys: seq<string>)
    requires IsCycleReport(g, keys)
    ensures forall r :: Outcome(g, r) ==> r == Err(CycleError(keys))
  {
    forall r | Outcome(g, r)
      ensures r == Err(CycleError(keys))
    {
      OutcomeDeterministic(g, r, Err(CycleError(keys)));
    }
  }

  /** In any namespace, a permission that aliases itself makes the result an error that lists it. */
  lemma SelfAliasAlwaysFails(g: AliasGraph, p: string, r: Result<map<string, string>, CycleError>)
    requires p in g.direct && g.direct[p] == p && g.isPermission(p)
    requires Outcome(g, r)
    ensures r.Err? && p in r.error.keys
  {
    forall fuel: nat
      ensures Follow(g, p, fuel) == None
    {
      ClosedNeverResolves(g, [p], p, fuel);
    }
    assert NeverResolves(g, p);
    FailsIffSomeNeverResolves(g, r);
    CycleReportExact(g, r.error.keys);
  }

  /** In any namespace, two permissions that alias each other make the result an error that lists both. */
  lemma MutualAliasAlwaysFails(g: AliasGraph, a: string, b: string, r: Result<map<string, string>, CycleError>)
    requires a in g.direct && g.direct[a] == b && g.isPermission(b)
    requires b in g.direct && g.direct[b] == a && g.isPermission(a)
    requires Outcome(g, r)
    ensures r.Err? && a in r.error.keys && b in r.error.keys
  {
    forall fuel: nat
      ensures Follow(g, a, fuel) == None && Follow(g, b, fuel) == None
    {
      ClosedNeverResolves(g, [a, b], a, fuel);
      ClosedNeverResolves(g, [a, b], b, fuel);
    }
    assert NeverResolves(g, a) && NeverResolves(g, b);
    FailsIffSomeNeverResolves(g, r);
    CycleReportExact(g, r.error.keys);
  }

  /**
   * In any namespace, an alias of a permission the namespace does not declare makes
   * the result an error that lists the alias.
   */
  lemma UndeclaredTargetAlwaysFails(g: AliasGraph, a: string, r: Result<map<string, string>, CycleError>)
    requires a in g.direct && g.isPermission(g.direct[a]) && g.direct[a] !in g.names
    requires Outcome(g, r)
    ensures r.Err? && a in r.error.keys
  {
    forall fuel: nat
      ensures Follow(g, a, fuel) == None
    {
      ClosedNeverResolves(g, [a], a, fuel);
    }
    assert NeverResolves(g, a);
    FailsIffSomeNeverResolves(g, r);
    CycleReportExact(g, r.error.keys);
  }

  /**
   * A namespace holding only `a`, an alias of permission `x` that the namespace does
   * not declare: the only result is the error listing `a` alone, not `x`.
   */
  lemma UndeclaredTargetIsReported(a: string, x: string, isPermission: string -> bool)
    requires a != x && isPermission(x)
    ensures var g := GraphOf([Relation(a, Some(Union([ComputedUserset(x)])))], isPermission);
      IsCycleReport(g, [a]) && forall r :: Outcome(g, r) ==> r == Err(CycleError([a]))
  {
    var relations := [Relation(a, Some(Union([ComputedUserset(x)])))];
    var g := GraphOf(relations, isPermission);
    assert AliasTarget(relations[0]) == Some(x);
    assert g.direct.Keys == {a} && x !in g.names by {
      assert Names(relations) == {a};
    }
    assert IsCycleReport(g, [a]);
    OnlyOutcomeIsReport(g, [a]);
  }

  /** A namespace holding only a permission that aliases itself: the only result is the error listing it. */
  lemma SelfAliasIsReported(p: string, isPermission: string -> bool)
    requires isPermission(p)
    ensures var g := GraphOf([Relation(p, Some(Union([ComputedUserset(p)])))], isPermission);
      IsCycleReport(g, [p]) && forall r :: Outcome(g, r) ==> r == Err(CycleError([p]))
  {
    var relations := [Relation(p, Some(Union([ComputedUserset(p)])))];
    var g := GraphOf(relations, isPermission);
    assert AliasTarget(relations[0]) == Some(p);
    assert g.direct.Keys == {p} by {
      assert Names(relations) == {p};
    }
    assert IsCycleReport(g, [p]);
    OnlyOutcomeIsReport(g, [p]);
  }

  /** A namespace holding only two permissions that alias each other: the only result is the error listing both, sorted. */
  lemma MutualAliasIsReported(a: string, b: string, isPermission: string -> bool)
    requires a != b && isPermission(a) && isPermission(b)
    ensures var g := GraphOf([Relation(a, Some(Union([ComputedUserset(b)]))),
                              Relation(b, Some(Union([ComputedUserset(a)])))], isPermission);
      var keys := if LessEq(a, b) then [a, b] else [b, a];
      IsCycleReport(g, keys) && forall r :: Outcome(g, r) ==> r == Err(CycleError(keys))
  {
    var relations := [Relation(a, Some(Union([ComputedUserset(b)]))),
                      Relation(b, Some(Union([ComputedUserset(a)])))];
    var g := GraphOf(relations, isPermission);
    assert AliasTarget(relations[0]) == Some(b) && AliasTarget(relations[1]) == Some(a);
    assert g.direct.Keys <= {a, b} by {
      assert Names(relations) == {a, b};
    }
    LessEqTotal(a, b);
    var keys := if LessEq(a, b) then [a, b] else [b, a];
    CycleOfTwo(g, a, b, keys);
    OnlyOutcomeIsReport(g, keys);
  }

  /** Two permissions aliasing each other, and nothing else, form a cycle report. */
  lemma CycleOfTwo(g: AliasGraph, a: string, b: string, keys: seq<string>)
    requires a != b && g.isPermission(a) && g.isPermission(b)
    requires a in g.direct && g.direct[a] == b && b in g.direct && g.direct[b] == a && g.direct.Keys <= {a, b}
    requires keys == if LessEq(a, b) then [a, b] else [b, a]
    ensures IsCycleReport(g, keys)
  {
    LessEqTotal(a, b);
    assert forall k :: k in keys <==> k == a || k == b;
  }

  /**
   * A namespace holding only a chain of two aliases ending in a relation: with
   * `a` aliasing `b` and `b` aliasing relation `c`, the only result maps both to `c`.
   */
  lemma ChainExample(a: string, b: string, c: string, isPermission: string -> bool)
    requires a != b && b != c && a != c
    requires isPermission(b) && !isPermission(c)
    ensures var g := GraphOf([Relation(a, Some(Union([ComputedUserset(b)]))),
                              Relation(b, Some(Union([ComputedUserset(c)]))),
                              Relation(c, None)], isPermission);
      forall r :: Outcome(g, r) ==> r == Ok(map[a := c, b := c])
  {
    var relations := [Relation(a, Some(Union([ComputedUserset(b)]))),
                      Relation(b, Some(Union([ComputedUserset(c)]))),
                      Relation(c, None)];
    var g := GraphOf(relations, isPermission);
    assert AliasTarget(relations[0]) == Some(b) && AliasTarget(relations[1]) == Some(c);
    assert AliasTarget(relations[2]) == None;
    assert g.direct.Keys <= {a, b, c} by {
      assert Names(relations) == {a, b, c};
    }
    ChainOfTwo(g, a, b, c);
  }

  /**
   * When the only aliases are `a` of permission `b` and `b` of non-permission `c`,
   * the only result maps both to `c`.
   */
  lemma ChainOfTwo(g: AliasGraph, a: string, b: string, c: string)
    requires a != b && g.isPermission(b) && !g.isPermission(c) && b in g.names
    requires a in g.direct && g.direct[a] == b && b in g.direct && g.direct[b] == c
    requires c !in g.direct && g.direct.Keys <= {a, b, c}
    ensures forall r :: Outcome(g, r) ==> r == Ok(map[a := c, b := c])
  {
    var expected := map[a := c, b := c];
    assert Follow(g, b, 0) == Some(c);
    assert Follow(g, a, 1) == Some(c);
    assert ResolvesAll(g, expected);
    forall r | Outcome(g, r)
      ensures r == Ok(expected)
    {
      OutcomeDeterministic(g, r, Ok(expected));
    }
  }
}
