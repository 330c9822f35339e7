/** Queries over an in-memory document collection. A collection is a map from store-minted
    ids to records; every id in it is below the collection's next id, so a query scans the
    ids below that bound. */
module Stores {
  import opened Models

  /** The ids below `bound` whose records satisfy `p`, in ascending order, each once. */
  function MatchingIds<T>(m: map<DocId, T>, bound: nat, p: T -> bool): (ids: seq<DocId>)
    ensures forall i :: 0 <= i < |ids| ==> ids[i] in m && ids[i] < bound && p(m[ids[i]])
    ensures forall i, j :: 0 <= i < j < |ids| ==> ids[i] < ids[j]
    ensures forall k :: k in m && k < bound && p(m[k]) ==> k in ids
    decreases bound
  {
    if bound == 0 then []
    else
      var rest := MatchingIds(m, bound - 1, p);
      if bound - 1 in m && p(m[bound - 1]) then rest + [bound - 1] else rest
  }

  /** The records with an id below `bound` that satisfy `p`, in ascending id order: an
      equality-filter query. */
  function Select<T(==)>(m: map<DocId, T>, bound: nat, p: T -> bool): (r: seq<T>)
    ensures |r| == |MatchingIds(m, bound, p)|
    ensures forall i :: 0 <= i < |r| ==> r[i] == m[MatchingIds(m, bound, p)[i]]
    ensures forall i :: 0 <= i < |r| ==> p(r[i])
    ensures forall x :: x in r ==> exists k :: k in m && k < bound && m[k] == x
    ensures forall k :: k in m && k < bound && p(m[k]) ==> m[k] in r
    decreases bound
  {
    if bound == 0 then []
    else
      var rest := Select(m, bound - 1, p);
      if bound - 1 in m && p(m[bound - 1]) then
        var r := rest + [m[bound - 1]];
        assert r[|rest|] == m[bound - 1];
        r
      else rest
  }

  /** The sequence of `f`'s images of the elements of `s`, in the same order. */
  function Project<T, U>(s: seq<T>, f: T -> U): (r: seq<U>)
    ensures |r| == |s|
    ensures forall i :: 0 <= i < |s| ==> r[i] == f(s[i])
    ensures forall x :: x in s ==> f(x) in r
  {
    if s == [] then []
    else
      var r := [f(s[0])] + Project(s[1..], f);
      assert forall x :: x in s[1..] ==> x in s;
      assert forall x :: x in s ==> x == s[0] || x in s[1..];
      r
  }

  /** The lowest id below `bound` whose record satisfies `p`, if any: a lookup that returns
      one match out of possibly several. */
  function FirstMatch<T>(m: map<DocId, T>, bound: nat, p: T -> bool): (r: Option<DocId>)
    ensures r.Some? ==> r.value in m && r.value < bound && p(m[r.value])
    ensures r.Some? ==> forall k :: k in m && k < r.value ==> !p(m[k])
    ensures r.None? ==> forall k :: k in m && k < bound ==> !p(m[k])
    decreases bound
  {
    if bound == 0 then None
    else
      var earlier := FirstMatch(m, bound - 1, p);
      if earlier.Some? then earlier
      else if bound - 1 in m && p(m[bound - 1]) then Some(bound - 1)
      else None
  }
}
