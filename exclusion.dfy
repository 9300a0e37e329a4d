/**
 * The substring filter both traversals apply to every neighbour name: with
 * a non-empty exclusion string, a name that contains it is dropped.
 */
module Exclusion {
  import opened Text
  import opened Levels

  /**
   * `exclude_substr and exclude_substr in nb`: the exclusion string is not
   * empty and occurs somewhere in the name.
   */
  function Excluded(name: Node, exclude: string): (r: bool)
    ensures r <==> exclude != [] && exists k :: 0 <= k <= |name| - |exclude| && exclude <= name[k..]
  {
    exclude != [] && Contains(name, exclude)
  }

  /** The names of `names` that survive the filter, as a set. */
  function Kept(names: seq<Node>, exclude: string): set<Node>
  {
    set x | x in names && !Excluded(x, exclude)
  }

  /**
   * A listed name is kept exactly when the exclusion string is empty or
   * occurs nowhere in it; so an empty exclusion string keeps every name.
   */
  lemma KeptByOccurrence(names: seq<Node>, exclude: string)
    ensures forall x :: x in Kept(names, exclude) <==>
      x in names && (exclude == [] || forall k :: 0 <= k <= |x| - |exclude| ==> !(exclude <= x[k..]))
    ensures exclude == [] ==> Kept(names, exclude) == set x | x in names
  {
  }

  /** Looking at one more name keeps it exactly when the filter lets it through. */
  lemma KeptSnoc(names: seq<Node>, i: nat, exclude: string)
    requires i < |names|
    ensures Kept(names[..i + 1], exclude)
         == Kept(names[..i], exclude) + (if Excluded(names[i], exclude) then {} else {names[i]})
  {
    assert names[..i + 1] == names[..i] + [names[i]];
  }

  lemma KeptAll(names: seq<Node>, exclude: string)
    ensures Kept(names[..|names|], exclude) == Kept(names, exclude)
  {
    assert names[..|names|] == names;
  }
}
