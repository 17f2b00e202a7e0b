/**
 * Turning the winning ordering into the day's matches: an odd recurser at
 * the end is left out, and the rest is cut into consecutive pairs, whether
 * or not each pair is compatible.
 */
module Pairing {
  import opened Config
  import opened Matching
  import opened BestPath

  datatype Option<T> = None | Some(value: T)

  /** Two recursers sent one message together. */
  type Pair = (Recurser, Recurser)

  /** The recursers of a list of pairs, in order. */
  function Flatten(pairs: seq<Pair>): seq<Recurser> {
    if pairs == [] then []
    else Flatten(pairs[..|pairs| - 1]) + [pairs[|pairs| - 1].0, pairs[|pairs| - 1].1]
  }

  /** The odd-one-out as a list of zero or one recursers. */
  function Leftover(oddOneOut: Option<Recurser>): seq<Recurser> {
    match oddOneOut
    case None => []
    case Some(r) => [r]
  }

  /** How many of the pairs are compatible. */
  function CompatibleCount(pairs: seq<Pair>): nat {
    if pairs == [] then 0
    else
      var last := pairs[|pairs| - 1];
      CompatibleCount(pairs[..|pairs| - 1]) + (if Compatible(last.0, last.1) then 1 else 0)
  }

  /**
   * Splits an ordering into the odd-one-out, if its length is odd, and the
   * consecutive pairs of what remains. Nothing is lost or repeated: the pairs
   * followed by the odd-one-out give back the ordering, and the compatible
   * pairs delivered are exactly the ones the ordering's score counts.
   */
  method Partition(order: seq<Recurser>) returns (pairs: seq<Pair>, oddOneOut: Option<Recurser>)
    ensures oddOneOut.Some? <==> |order| % 2 == 1
    ensures oddOneOut.Some? ==> oddOneOut.value == order[|order| - 1]
    ensures |pairs| == |order| / 2
    ensures forall k :: 0 <= k < |pairs| ==> pairs[k] == (order[2 * k], order[2 * k + 1])
    ensures Flatten(pairs) + Leftover(oddOneOut) == order
    ensures CompatibleCount(pairs) == Score(order)
  {
    var list := order;
    assert |order| % 2 == 0 ==> |order| == 2 * (|order| / 2);
    assert |order| % 2 == 1 ==> |order| - 1 == 2 * (|order| / 2);
    oddOneOut := None;
    if |list| % 2 != 0 {
      oddOneOut := Some(list[|list| - 1]);
      list := list[..|list| - 1];
    }
    assert list + Leftover(oddOneOut) == order;

    ghost var half := |order| / 2;
    assert |list| == 2 * half;
    pairs := [];
    var i := 0;
    while i < |list|
      invariant |list| == 2 * half
      invariant 0 <= i <= |list| && i == 2 * |pairs|
      invariant forall k :: 0 <= k < |pairs| ==> pairs[k] == (list[2 * k], list[2 * k + 1])
      invariant Flatten(pairs) == list[..i]
    {
      assert 2 * |pairs| + 2 <= 2 * half;
      ghost var before := pairs;
      pairs := pairs + [(list[i], list[i + 1])];
      FlattenStep(before, list, i);
      i := i + 2;
    }
    assert list[..i] == list;
    DeliveredScore(order, list, pairs);
  }

  /**
   * Counting compatible pairs among the consecutive pairs of an even-length
   * ordering gives that ordering's score.
   */
  lemma {:induction false} CountMatchesScore(pairs: seq<Pair>, list: seq<Recurser>)
    requires |list| == 2 * |pairs|
    requires forall k :: 0 <= k < |pairs| ==> pairs[k] == (list[2 * k], list[2 * k + 1])
    ensures CompatibleCount(pairs) == Score(list)
  {
    if pairs != [] {
      var m := |pairs| - 1;
      assert pairs[m] == (list[2 * m], list[2 * m + 1]);
      var shorter := list[..2 * m];
      CountMatchesScore(pairs[..m], shorter);
      PairScore(list, m);
      assert list[..2 * m + 2] == list;
    }
  }

  /**
   * The pairs cut from an ordering, with at most its last recurser left
   * out, hold as many compatible pairs as the ordering's score.
   */
  lemma DeliveredScore(order: seq<Recurser>, list: seq<Recurser>, pairs: seq<Pair>)
    requires list <= order && |order| <= |list| + 1
    requires |list| == 2 * |pairs|
    requires forall k :: 0 <= k < |pairs| ==> pairs[k] == (list[2 * k], list[2 * k + 1])
    ensures CompatibleCount(pairs) == Score(order)
  {
    CountMatchesScore(pairs, list);
    if |order| == |list| + 1 {
      assert list + [order[|list|]] == order;
      Parity(|pairs|);
      ScoreExtend(list, order[|list|]);
    } else {
      assert list == order;
    }
  }

  /**
   * Kept as a lemma of its own: stated inline, this remainder fact drowns in
   * the sequence facts around it.
   */
  lemma Parity(m: nat)
    ensures (2 * m) % 2 == 0 && (2 * m + 1) % 2 == 1
  {
  }

  /** Adding the pair at positions 2m and 2m+1 adds one to the score when it is compatible. */
  lemma PairScore(list: seq<Recurser>, m: nat)
    requires 2 * m + 2 <= |list|
    ensures Score(list[..2 * m + 2]) ==
      Score(list[..2 * m]) + (if Compatible(list[2 * m], list[2 * m + 1]) then 1 else 0)
  {
    var i := 2 * m;
    Parity(m);
    var one, two := list[..i], list[..i + 1];
    assert two == one + [list[i]];
    assert list[..i + 2] == two + [list[i + 1]];
    ScoreExtend(one, list[i]);
    ScoreExtend(two, list[i + 1]);
  }

  /** Appending the next pair extends the flattened pairs by those two recursers. */
  lemma FlattenStep(pairs: seq<Pair>, list: seq<Recurser>, i: nat)
    requires i + 2 <= |list| && Flatten(pairs) == list[..i]
    ensures Flatten(pairs + [(list[i], list[i + 1])]) == list[..i + 2]
  {
    var longer := pairs + [(list[i], list[i + 1])];
    assert longer[..|longer| - 1] == pairs;
    assert list[..i + 2] == list[..i] + [list[i], list[i + 1]];
  }

  /**
   * Two recursers who sign up but cannot pair, because one of them only
   * accepts hard problems and neither is experienced: every ordering of
   * them scores 0, so by `MatchPairs` neither of them receives a message.
   */
  lemma SignedUpButUnmatched()
    ensures var a := NewRecurser("a", "A", "a@example.org").(config :=
              DefaultUserConfig().(experience := "easy", pairingDifficulty := ["hard"]));
            var b := NewRecurser("b", "B", "b@example.org").(config :=
              DefaultUserConfig().(experience := "easy", pairingDifficulty := ["easy"]));
            WellFormed([a, b]) && forall c :: IsOrdering(c, [a, b]) ==> Score(c) == 0
  {
    var a := NewRecurser("a", "A", "a@example.org").(config :=
      DefaultUserConfig().(experience := "easy", pairingDifficulty := ["hard"]));
    var b := NewRecurser("b", "B", "b@example.org").(config :=
      DefaultUserConfig().(experience := "easy", pairingDifficulty := ["easy"]));
    BothDirectionsChecked();
    CompatibleSymmetric(a, b);
    forall c: seq<Recurser> | IsOrdering(c, [a, b]) ensures Score(c) == 0 {
      assert c[0] in [a, b] && c[1] in [a, b];
      assert c[0].id != c[1].id;
      assert Score(c) == (if Compatible(c[0], c[1]) then 1 else 0) + Score(c[2..]);
    }
  }

  /**
   * The pairing part of the daily run: search for the best ordering, then
   * partition it. When no ordering has a compatible pair the search returns
   * the empty path, so nobody is paired and nobody is told they are the
   * odd-one-out. Otherwise every recurser is delivered exactly once, and the
   * number of compatible pairs is the highest any ordering achieves.
   */
  method MatchPairs(recursers: seq<Recurser>) returns (pairs: seq<Pair>, oddOneOut: Option<Recurser>)
    requires WellFormed(recursers)
    ensures (forall c :: IsOrdering(c, recursers) ==> Score(c) == 0) ==>
      pairs == [] && oddOneOut == None
    ensures (exists c :: IsOrdering(c, recursers) && Score(c) > 0) ==>
      && multiset(Flatten(pairs) + Leftover(oddOneOut)) == multiset(recursers)
      && (oddOneOut.Some? <==> |recursers| % 2 == 1)
      && (forall c :: IsOrdering(c, recursers) ==> Score(c) <= CompatibleCount(pairs))
      && exists c :: IsOrdering(c, recursers) && Flatten(pairs) + Leftover(oddOneOut) == c &&
                     Score(c) == CompatibleCount(pairs)
  {
    var best := DetermineBestPath(recursers);
    pairs, oddOneOut := Partition(best.order);
  }
}
