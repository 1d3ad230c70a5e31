/** The companion's evolution table (pokemonEvolutions) and the HP logic of
    a correct answer: each correct answer costs the current stage one HP, and
    a stage that runs out of HP evolves into the next one. */
module Stages {
  import opened Optional

  datatype Stage = Stage(name: string, image: string, maxHp: int)

  /** The nine stages, in evolution order. */
  const Evolutions: seq<Stage> := [
    Stage("EEVEE", "/images/eevee.png", 2),
    Stage("VAPOREON", "/images/vaporeon.png", 3),
    Stage("JOLTEON", "/images/jolteon.png", 5),
    Stage("FLAREON", "/images/flareon.png", 5),
    Stage("ESPEON", "/images/espeon.png", 5),
    Stage("UMBREON", "/images/umbreon.png", 5),
    Stage("LEAFEON", "/images/leafeon.png", 5),
    Stage("GLACEON", "/images/glaceon.png", 5),
    Stage("SYLVEON", "/images/sylveon.png", 5)
  ]

  /** pokemonEvolutions.length - 1 */
  const LastStage: nat := |Evolutions| - 1

  /** Every stage starts with between 2 and 5 HP. */
  function MaxHp(index: nat): (hp: int)
    requires index <= LastStage
    ensures 2 <= hp <= 5
  {
    Evolutions[index].maxHp
  }

  /** What the HP updater of a correct answer produces: the new HP and, when
      it schedules one, the stage the deferred evolution moves to. */
  datatype HpOutcome = HpOutcome(hp: int, evolveTo: Option<nat>)

  /** The HP updater of a correct answer, given the previous HP and the stage
      index the answer handler saw. The evolution is scheduled iff the HP would
      drop to 0 or below while a further stage exists; at the last stage the HP
      simply keeps dropping, below 0 too. */
  function LoseHp(prevHP: int, index: nat): (o: HpOutcome)
    ensures o.evolveTo.Some? <==> prevHP - 1 <= 0 && index < LastStage
    ensures o.evolveTo.Some? ==> o.hp == 0 && o.evolveTo.value == index + 1 <= LastStage
    ensures o.evolveTo.None? ==> o.hp == prevHP - 1
  {
    var newHP := prevHP - 1;
    if newHP <= 0 && index < |Evolutions| - 1 then HpOutcome(0, Some(index + 1))
    else HpOutcome(newHP, None)
  }

  /** The companion as the player sees it: stage index and current HP. */
  datatype Companion = Companion(index: nat, hp: int)

  const Hatchling := Companion(0, MaxHp(0))

  /** A correct answer followed by the evolution it schedules, if any: the
      controller's CheckAnswer applying LoseHp, then FireEvolve of the Evolve it
      schedules. Within a run the evolution (83 ms) always fires before the
      answer lock is released (300 ms), so this is what the next answer sees. */
  function AfterCorrect(c: Companion): Companion
    requires c.index <= LastStage
  {
    var o := LoseHp(c.hp, c.index);
    match o.evolveTo
    case Some(next) => Companion(next, MaxHp(next))
    case None => Companion(c.index, o.hp)
  }

  /** The companion after n correct answers of one run. Its stage never
      passes the last one; before the last stage its HP stays within
      1 .. maxHp, and at the last stage it never exceeds maxHp. */
  function Progress(n: nat): (c: Companion)
    ensures c.index <= LastStage
    ensures c.hp <= MaxHp(c.index)
    ensures c.index < LastStage ==> 1 <= c.hp
  {
    if n == 0 then Hatchling else AfterCorrect(Progress(n - 1))
  }

  /** Number of correct answers needed to reach stage k: the sum of maxHp
      over the stages before it. */
  function Threshold(k: nat): nat
    requires k <= LastStage
  {
    if k == 0 then 0 else Threshold(k - 1) + MaxHp(k - 1)
  }

  /** Once stage k is entered at full HP, each correct answer within it costs
      one HP; at the last stage this goes on below 0. */
  lemma {:induction false} DrainWithin(k: nat, j: nat)
    requires k <= LastStage
    requires Progress(Threshold(k)) == Companion(k, MaxHp(k))
    requires j < MaxHp(k) || k == LastStage
    ensures Progress(Threshold(k) + j) == Companion(k, MaxHp(k) - j)
    decreases j
  {
    if j > 0 {
      DrainWithin(k, j - 1);
      AfterCorrectDrains(k, MaxHp(k) - (j - 1));
    }
  }

  /** Stage k is entered, at full HP, after exactly Threshold(k) correct answers. */
  lemma {:induction false} StageEntered(k: nat)
    requires k <= LastStage
    ensures Progress(Threshold(k)) == Companion(k, MaxHp(k))
  {
    if k > 0 {
      StageEntered(k - 1);
      DrainWithin(k - 1, MaxHp(k - 1) - 1);
      AfterCorrectEvolves(k - 1, 1);
    }
  }

  /** Stage k (before the last) is held for exactly maxHp(k) correct answers,
      losing one HP each, and the answer that empties it evolves the companion
      into stage k + 1 with full HP. */
  lemma EvolutionSchedule(k: nat, j: nat)
    requires k < LastStage
    requires j <= MaxHp(k)
    ensures j < MaxHp(k) ==> Progress(Threshold(k) + j) == Companion(k, MaxHp(k) - j)
    ensures j == MaxHp(k) ==> Progress(Threshold(k) + j) == Companion(k + 1, MaxHp(k + 1))
  {
    StageEntered(k);
    if j < MaxHp(k) {
      DrainWithin(k, j);
    } else {
      StageEntered(k + 1);
    }
  }

  /** A correct answer that leaves HP, or one at the last stage, costs one HP. */
  lemma AfterCorrectDrains(k: nat, hp: int)
    requires k <= LastStage
    requires hp >= 2 || k == LastStage
    ensures AfterCorrect(Companion(k, hp)) == Companion(k, hp - 1)
  {
    assert LoseHp(hp, k).evolveTo.None?;
  }

  /** A correct answer that empties a stage before the last evolves it, at full HP. */
  lemma AfterCorrectEvolves(k: nat, hp: int)
    requires k < LastStage
    requires hp <= 1
    ensures AfterCorrect(Companion(k, hp)) == Companion(k + 1, MaxHp(k + 1))
  {
    assert LoseHp(hp, k).evolveTo == Some(k + 1);
  }

  lemma LastThreshold()
    ensures Threshold(LastStage) == 35
  {
    assert Threshold(1) == 2;
    assert Threshold(2) == 5;
    assert Threshold(3) == 10;
    assert Threshold(4) == 15;
    assert Threshold(5) == 20;
    assert Threshold(6) == 25;
    assert Threshold(7) == 30;
  }

  /** The last stage is reached after 35 correct answers; from then on each
      correct answer takes one HP and nothing floors it, so the 41st correct
      answer leaves the companion at -1 HP. */
  lemma LastStageDrains(j: nat)
    ensures Threshold(LastStage) == 35
    ensures Progress(Threshold(LastStage) + j) == Companion(LastStage, MaxHp(LastStage) - j)
  {
    LastThreshold();
    StageEntered(LastStage);
    DrainWithin(LastStage, j);
  }

  /** The stage index never goes back: more correct answers, a later stage. */
  lemma {:induction false} ProgressMonotone(a: nat, b: nat)
    requires a <= b
    ensures Progress(a).index <= Progress(b).index
    decreases b - a
  {
    if a < b {
      ProgressMonotone(a, b - 1);
    }
  }
}
