/**
 * The compatibility rule of the matching engine and the score it maximises.
 * Difficulty levels are ordinals: easy = 0, medium = 1, hard = 2.
 */
module Matching {
  import opened Config

  /**
   * Looks a level up in the engine's difficulty table. A string that is not
   * one of the three levels is absent from the table and reads as the
   * table's zero value.
   */
  function Difficulty(level: string): (d: nat)
    ensures d <= 2
    ensures d == 1 <==> level == "medium"
    ensures d == 2 <==> level == "hard"
  {
    if level == "easy" then 0
    else if level == "medium" then 1
    else if level == "hard" then 2
    else 0
  }

  /** The lowest difficulty among a non-empty list of levels. */
  function MinDifficulty(levels: seq<string>): (m: nat)
    requires |levels| > 0
    ensures exists i :: 0 <= i < |levels| && Difficulty(levels[i]) == m
    ensures forall i :: 0 <= i < |levels| ==> m <= Difficulty(levels[i])
  {
    if |levels| == 1 then Difficulty(levels[0])
    else
      var rest := MinDifficulty(levels[1..]);
      if Difficulty(levels[0]) <= rest then Difficulty(levels[0]) else rest
  }

  /** The engine only sees recursers that name at least one pairing level. */
  predicate HasPreferences(r: Recurser) {
    |r.config.pairingDifficulty| > 0
  }

  predicate AllHavePreferences(s: seq<Recurser>) {
    forall r :: r in s ==> HasPreferences(r)
  }

  /** No two recursers share an id. */
  predicate DistinctIds(s: seq<Recurser>) {
    forall i, j :: 0 <= i < j < |s| ==> s[i].id != s[j].id
  }

  /** What the engine demands of its input. */
  predicate WellFormed(rs: seq<Recurser>) {
    AllHavePreferences(rs) && DistinctIds(rs)
  }

  /**
   * Reference reading of the rule, one direction at a time: `a` accepts
   * `b` when some level `a` is willing to pair at is no harder than `b`'s
   * experience.
   */
  ghost predicate AcceptsPartner(a: Recurser, b: Recurser) {
    exists i :: 0 <= i < |a.config.pairingDifficulty| &&
      Difficulty(a.config.pairingDifficulty[i]) <= Difficulty(b.config.experience)
  }

  /**
   * Both recursers' easiest preferred level is within the other's
   * experience. A recurser without preferences never reaches the engine and
   * is compatible with nobody.
   */
  predicate Compatible(a: Recurser, b: Recurser) {
    HasPreferences(a) && HasPreferences(b) &&
    MinDifficulty(a.config.pairingDifficulty) <= Difficulty(b.config.experience) &&
    MinDifficulty(b.config.pairingDifficulty) <= Difficulty(a.config.experience)
  }

  /**
   * The engine's check on a path: only its last two recursers matter, and
   * they are compatible exactly when each accepts the other.
   */
  function IsValidSoFar(path: seq<Recurser>): (ok: bool)
    requires |path| >= 2
    requires HasPreferences(path[|path| - 2]) && HasPreferences(path[|path| - 1])
    ensures ok <==> AcceptsPartner(path[|path| - 2], path[|path| - 1]) &&
                    AcceptsPartner(path[|path| - 1], path[|path| - 2])
    ensures ok == Compatible(path[|path| - 2], path[|path| - 1])
  {
    var one, two := path[|path| - 2], path[|path| - 1];
    assert AcceptsPartner(one, two) <==>
      MinDifficulty(one.config.pairingDifficulty) <= Difficulty(two.config.experience);
    assert AcceptsPartner(two, one) <==>
      MinDifficulty(two.config.pairingDifficulty) <= Difficulty(one.config.experience);
    Compatible(one, two)
  }

  /** Whatever precedes the last two recursers of a path is ignored. */
  lemma IsValidSoFarLastTwo(front: seq<Recurser>, path: seq<Recurser>)
    requires |path| >= 2
    requires HasPreferences(path[|path| - 2]) && HasPreferences(path[|path| - 1])
    ensures var whole := front + path;
            whole[|whole| - 2] == path[|path| - 2] && whole[|whole| - 1] == path[|path| - 1] &&
            IsValidSoFar(whole) == IsValidSoFar(path)
  {
  }

  /** Both directions are conjoined, so the order of the two does not matter. */
  lemma CompatibleSymmetric(a: Recurser, b: Recurser)
    ensures Compatible(a, b) == Compatible(b, a)
  {
  }

  /**
   * Both directions are checked: a recurser who wants hard problems
   * accepts nobody easier, even though the easy-going partner accepts them.
   */
  lemma BothDirectionsChecked()
    ensures var a := NewRecurser("a", "A", "a@example.org").(config :=
              DefaultUserConfig().(experience := "easy", pairingDifficulty := ["hard"]));
            var b := NewRecurser("b", "B", "b@example.org").(config :=
              DefaultUserConfig().(experience := "easy", pairingDifficulty := ["easy"]));
            AcceptsPartner(b, a) && !AcceptsPartner(a, b) && !Compatible(a, b)
  {
    var a := NewRecurser("a", "A", "a@example.org").(config :=
      DefaultUserConfig().(experience := "easy", pairingDifficulty := ["hard"]));
    var b := NewRecurser("b", "B", "b@example.org").(config :=
      DefaultUserConfig().(experience := "easy", pairingDifficulty := ["easy"]));
    assert Difficulty(b.config.pairingDifficulty[0]) <= Difficulty(a.config.experience);
  }

  /** Two recursers still on the default configuration can always pair. */
  lemma DefaultsCompatible(a: Recurser, b: Recurser)
    requires a.config == DefaultUserConfig() && b.config == DefaultUserConfig()
    ensures HasPreferences(a) && HasPreferences(b) && Compatible(a, b)
  {
  }

  /**
   * The number of compatible pairs at positions (2i, 2i+1) of an ordering;
   * a trailing odd recurser is in no pair.
   */
  function Score(order: seq<Recurser>): (n: nat)
    ensures n <= |order| / 2
  {
    if |order| < 2 then 0
    else (if Compatible(order[0], order[1]) then 1 else 0) + Score(order[2..])
  }

  /**
   * Appending one recurser adds a pair only when it completes one, and
   * then it adds one exactly when the new pair is compatible: this is how
   * the engine keeps its running count.
   */
  lemma {:induction false} ScoreExtend(order: seq<Recurser>, r: Recurser)
    ensures Score(order + [r]) ==
      Score(order) + (if |order| % 2 == 1 && Compatible(order[|order| - 1], r) then 1 else 0)
  {
    if |order| == 1 {
      assert order + [r] == [order[0], r];
    } else if |order| >= 2 {
      var whole := order + [r];
      assert whole[2..] == order[2..] + [r];
      ScoreExtend(order[2..], r);
      var tail := order[2..];
      ParityStep(|order|);
      assert |tail| > 0 ==> tail[|tail| - 1] == order[|order| - 1];
      assert Score(whole) == (if Compatible(order[0], order[1]) then 1 else 0) + Score(whole[2..]);
      assert Score(order) == (if Compatible(order[0], order[1]) then 1 else 0) + Score(tail);
    }
  }

  /**
   * Kept as a lemma of its own: stated inline, this remainder fact drowns in
   * the sequence facts around it.
   */
  lemma ParityStep(n: nat)
    requires n >= 2
    ensures (n - 2) % 2 == n % 2
  {
  }
}
