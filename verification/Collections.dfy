/** Finite sets and their sizes. */
module Collections {

  lemma SubsetSize<T>(small: set<T>, large: set<T>)
    requires small <= large
    ensures |small| <= |large|
  {
    if x :| x in small {
      SubsetSize(small - {x}, large - {x});
    }
  }

  /** The numbers below `n`. */
  function Below(n: nat): (s: set<nat>)
    ensures forall i: nat :: i in s <==> i < n
    ensures |s| == n
  {
    if n == 0 then {} else Below(n - 1) + {n - 1}
  }

  /** How many elements the parts have together. */
  function TotalLength<T>(parts: seq<seq<T>>): nat {
    if parts == [] then 0 else TotalLength(parts[..|parts| - 1]) + |parts[|parts| - 1]|
  }

  /** `whole` consists of the parts, one after another: each stands behind as many elements as those before it have. */
  ghost predicate Concatenates<T>(whole: seq<T>, parts: seq<seq<T>>) {
    && |whole| == TotalLength(parts)
    && forall i | 0 <= i < |parts| :: StandsAt(whole, TotalLength(parts[..i]), parts[i])
  }

  ghost predicate StandsAt<T>(whole: seq<T>, at: nat, part: seq<T>) {
    at + |part| <= |whole| && forall k | 0 <= k < |part| :: whole[at + k] == part[k]
  }

  lemma ConcatenatesNext<T>(whole: seq<T>, parts: seq<seq<T>>, part: seq<T>)
    requires Concatenates(whole, parts)
    ensures Concatenates(whole + part, parts + [part])
  {
    var longer := parts + [part];
    assert longer[..|parts|] == parts;
    forall i | 0 <= i < |longer| ensures StandsAt(whole + part, TotalLength(longer[..i]), longer[i]) {
      if i < |parts| {
        assert longer[..i] == parts[..i] && StandsAt(whole, TotalLength(parts[..i]), parts[i]);
      }
    }
  }
}
