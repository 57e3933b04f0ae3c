/**
 * The part of a validated namespace definition that alias resolution reads:
 * each relation or permission, with its name and its optional userset rewrite.
 */
module Namespace {
  import opened Wrappers

  /** A child of a set operation. */
  datatype SetOperationChild =
    | This
    | ComputedUserset(relation: string)
    | TupleToUserset(tupleset: string, computedRelation: string)
    | NestedRewrite(rewrite: UsersetRewrite)

  /** The set operation at the top of a permission's expression. */
  datatype UsersetRewrite =
    | Union(children: seq<SetOperationChild>)
    | Intersection(children: seq<SetOperationChild>)
    | Exclusion(children: seq<SetOperationChild>)

  /** A relation (no rewrite) or a permission (with a rewrite). */
  datatype Relation = Relation(name: string, rewrite: Option<UsersetRewrite>)

  /** A validated namespace never declares two relations with one name. */
  predicate UniqueNames(relations: seq<Relation>)
  {
    forall i, j :: 0 <= i < j < |relations| ==> relations[i].name != relations[j].name
  }

  function Names(relations: seq<Relation>): set<string>
  {
    set r | r in relations :: r.name
  }

  /**
   * The name `r` is a pure alias of, if any: its rewrite is a union with exactly
   * one child, and that child is a computed userset.
   */
  function AliasTarget(r: Relation): (target: Option<string>)
    ensures forall x :: target == Some(x) <==> r.rewrite == Some(Union([ComputedUserset(x)]))
  {
    match r.rewrite
    case None => None
    case Some(rewrite) =>
      if rewrite.Union? && |rewrite.children| == 1 && rewrite.children[0].ComputedUserset? then
        assert rewrite.children == [rewrite.children[0]];
        Some(rewrite.children[0].relation)
      else
        None
  }

  /** Each pure alias of the namespace, mapped to the name it directly refers to. */
  function DirectAliases(relations: seq<Relation>): (direct: map<string, string>)
    requires UniqueNames(relations)
    ensures direct.Keys <= Names(relations)
    ensures forall i :: 0 <= i < |relations| ==>
      (relations[i].name in direct <==> AliasTarget(relations[i]).Some?) &&
      (relations[i].name in direct ==> direct[relations[i].name] == AliasTarget(relations[i]).value)
  {
    map i | 0 <= i < |relations| && AliasTarget(relations[i]).Some? :: relations[i].name := AliasTarget(relations[i]).value
  }
}
