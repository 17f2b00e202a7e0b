/**
 * The exhaustive search for the ordering of the day's recursers with the
 * most compatible pairs. Every branch extends its own copy of a path; the
 * only shared state is the best complete path found so far.
 */
module BestPath {
  import opened Config
  import opened Matching

  /** A partial or complete ordering and its running count of compatible pairs. */
  datatype Path = Path(order: seq<Recurser>, validPairs: nat)

  /** The ids of the recursers on a path: the engine's seen-set. */
  function Ids(s: seq<Recurser>): set<string> {
    set r | r in s :: r.id
  }

  /** A duplicate-free ordering drawn from `rs` that is as long as `rs`. */
  ghost predicate IsOrdering(c: seq<Recurser>, rs: seq<Recurser>) {
    |c| == |rs| && (forall r :: r in c ==> r in rs) && DistinctIds(c)
  }

  /**
   * What the shared slot may hold: the initial empty path, or a complete
   * ordering carrying its own true score, which is positive because only a
   * strictly better path is ever published.
   */
  ghost predicate BestInv(rs: seq<Recurser>, best: Path) {
    best == Path([], 0) ||
    (IsOrdering(best.order, rs) && best.validPairs == Score(best.order) && best.validPairs > 0)
  }

  /**
   * Every extension of `prefix` by one of the first `n` recursers whose id
   * is not in `seen` is covered by `bound`.
   */
  ghost predicate ChildrenCovered(rs: seq<Recurser>, prefix: seq<Recurser>, seen: set<string>,
                                  n: int, bound: int) {
    forall j :: 0 <= j < n && j < |rs| && rs[j].id !in seen ==> Covered(rs, prefix + [rs[j]], bound)
  }

  /** The best slot changes only to a path with a strictly higher score. */
  predicate ReplacedOnlyByBetter(before: Path, after: Path) {
    after == before || after.validPairs > before.validPairs
  }

  /** No complete ordering that starts with `prefix` scores more than `bound`. */
  ghost predicate Covered(rs: seq<Recurser>, prefix: seq<Recurser>, bound: int) {
    forall c {:trigger Completes(rs, prefix, c)} :: Completes(rs, prefix, c) ==> Score(c) <= bound
  }

  /** `c` is a complete ordering of `rs` that starts with `prefix`. */
  ghost predicate Completes(rs: seq<Recurser>, prefix: seq<Recurser>, c: seq<Recurser>) {
    IsOrdering(c, rs) && prefix <= c
  }

  lemma CoveredMonotone(rs: seq<Recurser>, prefix: seq<Recurser>, bound: int, bound': int)
    requires Covered(rs, prefix, bound) && bound <= bound'
    ensures Covered(rs, prefix, bound')
  {
    forall c | Completes(rs, prefix, c) ensures Score(c) <= bound' {
    }
  }

  class Search {
    const recursers: seq<Recurser>
    const bestPossibleScore: nat
    var best: Path

    ghost predicate Valid()
      reads this
    {
      WellFormed(recursers) && bestPossibleScore == |recursers| / 2 &&
      BestInv(recursers, best)
    }

    constructor (recursers: seq<Recurser>)
      requires WellFormed(recursers)
      ensures Valid()
      ensures this.recursers == recursers && best == Path([], 0)
    {
      this.recursers := recursers;
      bestPossibleScore := |recursers| / 2;
      best := Path([], 0);
    }

    /**
     * Explores every complete ordering that extends `path`. On entry the
     * path's count covers every pair but the one its last recurser may
     * complete; `seen` holds the ids on the path.
     */
    method GetNext(path: Path, seen: set<string>)
      requires Valid()
      requires |path.order| > 0 && DistinctIds(path.order)
      requires forall r :: r in path.order ==> r in recursers
      requires seen == Ids(path.order)
      requires path.validPairs == Score(path.order[..|path.order| - 1])
      modifies this
      ensures Valid()
      ensures best.validPairs >= old(best.validPairs)
      ensures ReplacedOnlyByBetter(old(best), best)
      ensures old(best.validPairs) == bestPossibleScore ==> best == old(best)
      ensures Covered(recursers, path.order, best.validPairs)
      decreases Ids(recursers) - seen, 1
    {
      if best.validPairs == bestPossibleScore {
        CoveredAtMaximum(recursers, path.order);
        return;
      }

      var p := path;
      var n := |p.order|;
      ScoreStep(p.order);
      if n % 2 == 0 {
        if IsValidSoFar(p.order) {
          p := p.(validPairs := p.validPairs + 1);
        }
        assert p.validPairs == Score(p.order);
      } else {
        assert p.validPairs == Score(p.order);
      }

      if n == |recursers| && p.validPairs > best.validPairs {
        best := p;
        CoveredWhenComplete(recursers, p.order);
        return;
      }

      ExpandChildren(p, seen);

      if n == |recursers| {
        CoveredWhenComplete(recursers, p.order);
        CoveredMonotone(recursers, p.order, p.validPairs, best.validPairs);
      } else {
        CoveredByChildren(recursers, p.order, best.validPairs);
      }
    }

    /**
     * The branching loop of the search: one child per recurser whose id is
     * not yet seen, each explored in turn.
     */
    method ExpandChildren(p: Path, seen: set<string>)
      requires Valid()
      requires DistinctIds(p.order)
      requires forall r :: r in p.order ==> r in recursers
      requires seen == Ids(p.order)
      requires p.validPairs == Score(p.order)
      modifies this
      ensures Valid()
      ensures ReplacedOnlyByBetter(old(best), best)
      ensures ChildrenCovered(recursers, p.order, seen, |recursers|, best.validPairs)
      decreases Ids(recursers) - seen, 0
    {
      var i := 0;
      while i < |recursers|
        invariant 0 <= i <= |recursers|
        invariant Valid()
        invariant ReplacedOnlyByBetter(old(best), best)
        invariant ChildrenCovered(recursers, p.order, seen, i, best.validPairs)
      {
        var r := recursers[i];
        if r.id !in seen {
          var child := Path(p.order + [r], p.validPairs);
          ChildReady(recursers, p.order, r);
          ghost var low := best.validPairs;
          GetNext(child, seen + {r.id});
          ChildrenCoveredStep(recursers, p.order, seen, i, low, best.validPairs);
        }
        i := i + 1;
      }
    }
  }

  /**
   * Runs the search from one single-recurser path per input recurser and
   * returns the shared best slot. A complete ordering is returned only when
   * some ordering has a compatible pair; it then has the highest score of
   * all orderings. Otherwise, and so always for fewer than two recursers,
   * the initial empty path comes back.
   */
  method DetermineBestPath(recursers: seq<Recurser>) returns (best: Path)
    requires WellFormed(recursers)
    ensures forall c :: IsOrdering(c, recursers) ==> Score(c) <= best.validPairs
    ensures best.order != [] ==>
      IsOrdering(best.order, recursers) && multiset(best.order) == multiset(recursers) &&
      best.validPairs == Score(best.order)
    ensures best.order == [] <==> forall c :: IsOrdering(c, recursers) ==> Score(c) == 0
    ensures best.order == [] ==> best == Path([], 0)
    ensures |recursers| <= 1 ==> best == Path([], 0)
  {
    var stack: seq<Path> := [];
    for i := 0 to |recursers|
      invariant |stack| == i
      invariant forall j :: 0 <= j < i ==> stack[j] == Path([recursers[j]], 0)
    {
      stack := stack + [Path([recursers[i]], 0)];
    }

    var search := new Search(recursers);
    for i := 0 to |stack|
      invariant search.Valid()
      invariant forall j :: 0 <= j < i ==> Covered(recursers, [recursers[j]], search.best.validPairs)
    {
      var path := stack[i];
      assert Ids(path.order) == {path.order[0].id};
      ghost var low := search.best.validPairs;
      search.GetNext(path, {path.order[0].id});
      forall j | 0 <= j <= i
        ensures Covered(recursers, [recursers[j]], search.best.validPairs)
      {
        if j < i {
          CoveredMonotone(recursers, [recursers[j]], low, search.best.validPairs);
        }
      }
    }
    best := search.best;
    SeedsCover(recursers, best.validPairs);
    if best.order != [] {
      OrderingIsPermutation(best.order, recursers);
    }
    IsOrderingOfItself(recursers);
  }

  /** The input, in its own order, is one of the orderings searched. */
  lemma IsOrderingOfItself(rs: seq<Recurser>)
    requires DistinctIds(rs)
    ensures IsOrdering(rs, rs)
  {
  }

  /**
   * A duplicate-free ordering as long as an input with distinct ids holds
   * every input recurser exactly once.
   */
  lemma {:induction false} OrderingIsPermutation(c: seq<Recurser>, rs: seq<Recurser>)
    requires IsOrdering(c, rs) && DistinctIds(rs)
    ensures multiset(c) == multiset(rs)
  {
    if c != [] {
      var x, tail := c[0], c[1..];
      assert x in c;
      var k :| 0 <= k < |rs| && rs[k] == x;
      var rest := RemoveAt(rs, k);
      TailIsOrdering(c, rs, k);
      OrderingIsPermutation(tail, rest);
      assert c == [x] + tail;
      assert multiset(c) == multiset{x} + multiset(tail);
    }
  }

  /** Taking the first recurser off an ordering leaves an ordering of the others. */
  lemma TailIsOrdering(c: seq<Recurser>, rs: seq<Recurser>, k: nat)
    requires IsOrdering(c, rs) && DistinctIds(rs) && c != [] && k < |rs| && rs[k] == c[0]
    ensures IsOrdering(c[1..], RemoveAt(rs, k))
  {
    var tail, rest := c[1..], RemoveAt(rs, k);
    forall m | 0 <= m < |tail| ensures tail[m] in rest {
      assert tail[m] == c[m + 1] && c[m + 1] in c;
      assert c[0].id != c[m + 1].id;
    }
    forall i, j | 0 <= i < j < |tail| ensures tail[i].id != tail[j].id {
      assert tail[i] == c[i + 1] && tail[j] == c[j + 1];
    }
  }

  /** The input without its k-th recurser, whose id is then absent from it. */
  function RemoveAt(rs: seq<Recurser>, k: nat): (rest: seq<Recurser>)
    requires DistinctIds(rs) && k < |rs|
    ensures |rest| == |rs| - 1 && DistinctIds(rest)
    ensures multiset(rs) == multiset(rest) + multiset{rs[k]}
    ensures forall y :: y in rs && y.id != rs[k].id ==> y in rest
  {
    var rest := rs[..k] + rs[k + 1..];
    assert rs == rs[..k] + [rs[k]] + rs[k + 1..];
    forall i, j | 0 <= i < j < |rest| ensures rest[i].id != rest[j].id {
      var i', j' := if i < k then i else i + 1, if j < k then j else j + 1;
      assert rest[i] == rs[i'] && rest[j] == rs[j'];
    }
    forall y | y in rs && y.id != rs[k].id ensures y in rest {
      var m :| 0 <= m < |rs| && rs[m] == y;
      if m < k {
        assert rest[m] == y;
      } else {
        assert rest[m - 1] == y;
      }
    }
    rest
  }

  /** Raising the bound keeps the children already explored covered. */
  lemma ChildrenCoveredStep(rs: seq<Recurser>, prefix: seq<Recurser>, seen: set<string>,
                            i: nat, low: int, high: int)
    requires i < |rs| && low <= high
    requires ChildrenCovered(rs, prefix, seen, i, low)
    requires Covered(rs, prefix + [rs[i]], high)
    ensures ChildrenCovered(rs, prefix, seen, i + 1, high)
  {
    forall j | 0 <= j < i && rs[j].id !in seen
      ensures Covered(rs, prefix + [rs[j]], high)
    {
      CoveredMonotone(rs, prefix + [rs[j]], low, high);
    }
  }

  /** Every ordering scores at most half its length, which is what pruning relies on. */
  lemma CoveredAtMaximum(rs: seq<Recurser>, prefix: seq<Recurser>)
    ensures Covered(rs, prefix, |rs| / 2)
  {
    forall c | Completes(rs, prefix, c) ensures Score(c) <= |rs| / 2 {
    }
  }

  /** A complete path is the only ordering that extends it. */
  lemma CoveredWhenComplete(rs: seq<Recurser>, prefix: seq<Recurser>)
    requires |prefix| == |rs|
    ensures Covered(rs, prefix, Score(prefix))
  {
    forall c | Completes(rs, prefix, c)
      ensures Score(c) <= Score(prefix)
    {
      assert c == prefix;
    }
  }

  /** Every complete ordering starts with one of the single-recurser paths. */
  lemma SeedsCover(rs: seq<Recurser>, bound: nat)
    requires forall j :: 0 <= j < |rs| ==> Covered(rs, [rs[j]], bound)
    ensures forall c :: IsOrdering(c, rs) ==> Score(c) <= bound
  {
    if rs != [] {
      forall j | 0 <= j < |rs| ensures Covered(rs, [] + [rs[j]], bound) {
        assert [] + [rs[j]] == [rs[j]];
      }
      CoveredByChildren(rs, [], bound);
    }
    forall c | IsOrdering(c, rs) ensures Score(c) <= bound {
      if rs == [] {
        assert c == [];
      } else {
        assert Completes(rs, [], c);
      }
    }
  }

  /**
   * An ordering that extends a shorter prefix continues with a recurser not
   * yet on the prefix, so covering every unseen extension covers the prefix.
   */
  lemma CoveredByChildren(rs: seq<Recurser>, prefix: seq<Recurser>, bound: int)
    requires |prefix| != |rs|
    requires ChildrenCovered(rs, prefix, Ids(prefix), |rs|, bound)
    ensures Covered(rs, prefix, bound)
  {
    var n := |prefix|;
    forall c | Completes(rs, prefix, c)
      ensures Score(c) <= bound
    {
      var next := c[n];
      assert next in c;
      var j :| 0 <= j < |rs| && rs[j] == next;
      assert c[..n + 1] == prefix + [next];
      assert Completes(rs, prefix + [rs[j]], c);
    }
  }

  /**
   * The count a path carries on entry misses at most the pair its last
   * recurser completes; adding that pair, when the length is even and the
   * pair is compatible, gives the path's score.
   */
  lemma ScoreStep(order: seq<Recurser>)
    requires |order| > 0
    ensures |order| % 2 == 0 ==> |order| >= 2
    ensures Score(order) == Score(order[..|order| - 1]) +
      (if |order| % 2 == 0 && Compatible(order[|order| - 2], order[|order| - 1]) then 1 else 0)
  {
    var n := |order|;
    var front := order[..n - 1];
    assert front + [order[n - 1]] == order;
    ScoreExtend(front, order[n - 1]);
    ParityPrevious(n);
    if n % 2 == 0 {
      assert front[|front| - 1] == order[n - 2];
    }
  }

  /**
   * A child path is its parent's order with one unseen recurser appended: it
   * is still drawn from the input without repeated ids, its seen-set grows by
   * exactly that id, and the parent's count is the child's count on entry.
   */
  lemma ChildReady(rs: seq<Recurser>, order: seq<Recurser>, r: Recurser)
    requires DistinctIds(order) && r.id !in Ids(order)
    requires forall x :: x in order ==> x in rs
    requires r in rs
    ensures var child := order + [r];
      && |child| > 0 && child[..|child| - 1] == order
      && DistinctIds(child) && Ids(child) == Ids(order) + {r.id}
      && forall x :: x in child ==> x in rs
  {
    ChildDistinct(order, r);
    assert (order + [r])[..|order|] == order;
  }

  /**
   * Kept as a lemma of its own: stated inline, this remainder fact drowns in
   * the sequence facts around it.
   */
  lemma ParityPrevious(n: nat)
    requires n >= 1
    ensures (n - 1) % 2 == 1 <==> n % 2 == 0
  {
  }

  /** Appending a recurser whose id is unseen keeps the ids distinct. */
  lemma ChildDistinct(order: seq<Recurser>, r: Recurser)
    requires DistinctIds(order) && r.id !in Ids(order)
    ensures DistinctIds(order + [r]) && Ids(order + [r]) == Ids(order) + {r.id}
  {
    var whole := order + [r];
    forall i, j | 0 <= i < j < |whole|
      ensures whole[i].id != whole[j].id
    {
      if j == |order| {
        assert whole[i] in order;
      }
    }
  }
}
