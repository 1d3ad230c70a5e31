/** The game controller of the MentalMinute component: its state, startGame,
    checkAnswer with the two continuations it schedules, the one-second
    interval tick, and the high-score bookkeeping run when a game ends.
    Continuations scheduled with setTimeout are kept in `pending` until the
    environment runs them; any pending continuation may run next. */
module Controller {
  import opened Optional
  import opened Stages
  import opened Problems
  import opened HighScores
  import opened Dates

  /** Length of a run in seconds. */
  const RoundSeconds: int := 60

  /** A setTimeout continuation that has been scheduled and has not run yet. */
  datatype Deferred =
    | Evolve(nextIndex: nat)  // 83 ms after a correct answer that emptied the HP
    | NextProblem             // 300 ms after a correct answer, 500 ms after a wrong one

  predicate ValidDeferred(d: Deferred) {
    d.Evolve? ==> 1 <= d.nextIndex <= LastStage
  }

  /** What a correct answer schedules besides its score and HP change. */
  function Scheduled(o: HpOutcome): seq<Deferred> {
    (if o.evolveTo.Some? then [Evolve(o.evolveTo.value)] else []) + [NextProblem]
  }

  /** The interval's timeLeft updater: one second less, and 0 once at most one
      second was left (which is also when the game is deactivated). */
  function Countdown(prev: int): (next: int)
    ensures next >= 0
    ensures next == 0 <==> prev <= 1
    ensures prev >= 1 ==> next == prev - 1
  {
    if prev <= 1 then 0 else prev - 1
  }

  /** timeLeft after n ticks from t. */
  function AfterTicks(t: int, n: nat): int {
    if n == 0 then t else Countdown(AfterTicks(t, n - 1))
  }

  lemma {:induction false} ClockFrom(t: int, n: nat)
    requires n <= t
    ensures AfterTicks(t, n) == t - n
  {
    if n > 0 {
      ClockFrom(t, n - 1);
    }
  }

  /** A run is exactly sixty ticks long: after n < 60 ticks there are 60 - n
      seconds left, the tick that deactivates the game (the one that finds at
      most one second left) is the sixtieth, and it leaves timeLeft at 0. */
  lemma SixtySecondRun(n: nat)
    requires n < RoundSeconds
    ensures AfterTicks(RoundSeconds, n) == RoundSeconds - n
    ensures AfterTicks(RoundSeconds, n) <= 1 <==> n == RoundSeconds - 1
    ensures AfterTicks(RoundSeconds, RoundSeconds) == 0
  {
    ClockFrom(RoundSeconds, n);
    ClockFrom(RoundSeconds, RoundSeconds);
  }

  /** The controller's state as one value, for stating what a step changes. */
  datatype View = View(
    currentPokemon: Stage, currentHP: int, pokemonIndex: nat, timeLeft: int, score: int,
    problem: Problem, gameActive: bool, selectedAnswer: Option<int>, isProcessingAnswer: bool,
    highScores: seq<Entry>, isNewHighScore: bool, pending: seq<Deferred>)

  class MentalMinute {
    var currentPokemon: Stage
    var currentHP: int
    var pokemonIndex: nat
    var timeLeft: int
    var score: int
    var problem: Problem
    var gameActive: bool
    var selectedAnswer: Option<int>
    var isProcessingAnswer: bool
    var highScores: seq<Entry>
    var isNewHighScore: bool
    /** Continuations scheduled with setTimeout that have not run yet. */
    var pending: seq<Deferred>

    ghost function Snapshot(): View
      reads this
    {
      View(currentPokemon, currentHP, pokemonIndex, timeLeft, score, problem, gameActive,
        selectedAnswer, isProcessingAnswer, highScores, isNewHighScore, pending)
    }

    /** The stage index is a real stage and the shown companion is that stage;
        HP never exceeds the stage's maxHp and is negative only at the last stage;
        the clock stays within 0 .. 60; the answer lock is held only while a
        continuation that releases it is pending; while a game runs the problem
        shown is well formed (six distinct choices, the answer exactly once); a
        pending evolution targets a real stage after the first. */
    ghost predicate Valid()
      reads this
    {
      pokemonIndex <= LastStage
      && currentPokemon == Evolutions[pokemonIndex]
      && currentHP <= MaxHp(pokemonIndex)
      && (pokemonIndex < LastStage ==> currentHP >= 0)
      && 0 <= timeLeft <= RoundSeconds
      && score >= 0
      && (isProcessingAnswer ==> NextProblem in pending)
      && (gameActive ==> WellFormed(problem))
      && forall d :: d in pending ==> ValidDeferred(d)
    }

    /** The component as mounted: the first stage, a full clock, no problem yet,
        and the high-score table read from storage, or the seed table when
        storage holds none. */
    constructor (stored: Option<seq<Entry>>, today: Day, yesterday: Day, twoDaysAgo: Day)
      requires ValidDay(today) && ValidDay(yesterday) && ValidDay(twoDaysAgo)
      ensures Valid()
      ensures Snapshot() == View(
        Evolutions[0], MaxHp(0), 0, RoundSeconds, 0, Placeholder, false, None, false,
        if stored.Some? then stored.value else Seed(today, yesterday, twoDaysAgo), false, [])
    {
      currentPokemon := Evolutions[0];
      currentHP := MaxHp(0);
      pokemonIndex := 0;
      timeLeft := RoundSeconds;
      score := 0;
      problem := Placeholder;
      gameActive := false;
      selectedAnswer := None;
      isProcessingAnswer := false;
      isNewHighScore := false;
      pending := [];
      match stored
      case Some(saved) => highScores := saved;
      case None => highScores := Seed(today, yesterday, twoDaysAgo);
    }

    /** generateProblem: a new well-formed problem; the selection is cleared
        and the answer lock released. Nothing else changes. */
    method GenerateProblem(d: Draws, ghost horizon: nat)
      requires Valid()
      requires Admissible(d, horizon)
      modifies this
      ensures Valid()
      ensures WellFormed(problem)
      ensures QuestionOf(problem) == Pose(d.isMultiplication, d.tableIndex, d.pick)
      ensures Snapshot() == old(Snapshot()).(problem := problem, selectedAnswer := None, isProcessingAnswer := false)
    {
      var p := MakeProblem(d, horizon);
      problem := p;
      selectedAnswer := None;
      isProcessingAnswer := false;
    }

    /** startGame: a fresh run at the first stage with full HP, a full clock,
        score 0 and a new problem. Continuations still pending from an earlier
        run are not cancelled. */
    method StartGame(d: Draws, ghost horizon: nat)
      requires Valid()
      requires Admissible(d, horizon)
      modifies this
      ensures Valid()
      ensures WellFormed(problem)
      ensures QuestionOf(problem) == Pose(d.isMultiplication, d.tableIndex, d.pick)
      ensures Snapshot() == old(Snapshot()).(
        gameActive := true, timeLeft := RoundSeconds, score := 0, isNewHighScore := false,
        pokemonIndex := 0, currentPokemon := Evolutions[0], currentHP := MaxHp(0),
        problem := problem, selectedAnswer := None, isProcessingAnswer := false)
    {
      GenerateProblem(d, horizon);
      gameActive := true;
      timeLeft := RoundSeconds;
      score := 0;
      isNewHighScore := false;
      pokemonIndex := 0;
      currentPokemon := Evolutions[0];
      currentHP := MaxHp(0);
    }

    /** checkAnswer: ignored while the game is inactive or an answer is being
        processed. Otherwise it takes the lock and records the selection. A
        correct answer adds one to the score and applies the HP updater, which
        may schedule an evolution; either way the next problem is scheduled.
        A wrong answer changes neither score nor HP. */
    method CheckAnswer(selectedNumber: int)
      requires Valid()
      modifies this
      ensures Valid()
      ensures !old(gameActive) || old(isProcessingAnswer) ==> Snapshot() == old(Snapshot())
      ensures old(gameActive) && !old(isProcessingAnswer) && selectedNumber != old(problem.answer) ==>
        Snapshot() == old(Snapshot()).(
          isProcessingAnswer := true, selectedAnswer := Some(selectedNumber),
          pending := old(pending) + [NextProblem])
      ensures old(gameActive) && !old(isProcessingAnswer) && selectedNumber == old(problem.answer) ==>
        var o := LoseHp(old(currentHP), old(pokemonIndex));
        Snapshot() == old(Snapshot()).(
          isProcessingAnswer := true, selectedAnswer := Some(selectedNumber),
          score := old(score) + 1, currentHP := o.hp, pending := old(pending) + Scheduled(o))
    {
      if !gameActive || isProcessingAnswer {
        return;
      }
      isProcessingAnswer := true;
      selectedAnswer := Some(selectedNumber);
      var isCorrect := selectedNumber == problem.answer;
      if isCorrect {
        score := score + 1;
        var outcome := LoseHp(currentHP, pokemonIndex);
        currentHP := outcome.hp;
        pending := pending + Scheduled(outcome);
      } else {
        pending := pending + [NextProblem];
      }
    }

    /** Runs the pending evolution at position k: the companion becomes the
        scheduled stage with that stage's full HP. */
    method FireEvolve(k: nat)
      requires Valid()
      requires k < |pending| && pending[k].Evolve?
      modifies this
      ensures Valid()
      ensures var next := old(pending[k].nextIndex);
        next <= LastStage && Snapshot() == old(Snapshot()).(
          pokemonIndex := next, currentPokemon := Evolutions[next], currentHP := MaxHp(next),
          pending := old(pending[..k] + pending[k + 1..]))
    {
      var nextIndex := pending[k].nextIndex;
      assert pending[k] in pending;
      ghost var before := pending;
      pending := pending[..k] + pending[k + 1..];
      assert forall d :: d in pending ==> d in before;
      if isProcessingAnswer {
        ghost var j :| 0 <= j < |before| && before[j] == NextProblem;
        assert j != k;
        assert NextProblem in pending by {
          if j < k {
            assert pending[j] == before[j];
          } else {
            assert pending[j - 1] == before[j];
          }
        }
      }
      pokemonIndex := nextIndex;
      currentPokemon := Evolutions[nextIndex];
      currentHP := MaxHp(nextIndex);
    }

    /** A correct answer as the browser runs it: checkAnswer with the selected
        answer equal to the problem's, then, when the HP updater scheduled an
        evolution, that continuation (83 ms, before the 300 ms lock release).
        The companion ends as AfterCorrect describes, the step Progress
        iterates; only the next problem is left pending. */
    method CorrectThenEvolve()
      requires Valid()
      requires gameActive && !isProcessingAnswer
      modifies this
      ensures Valid()
      ensures Companion(pokemonIndex, currentHP) == AfterCorrect(old(Companion(pokemonIndex, currentHP)))
      ensures currentPokemon == Evolutions[pokemonIndex]
      ensures Snapshot() == old(Snapshot()).(
        isProcessingAnswer := true, selectedAnswer := Some(old(problem.answer)),
        score := old(score) + 1, pokemonIndex := pokemonIndex, currentPokemon := currentPokemon,
        currentHP := currentHP, pending := old(pending) + [NextProblem])
    {
      var n := |pending|;
      CheckAnswer(problem.answer);
      if pending[n].Evolve? {
        FireEvolve(n);
        assert pending == old(pending) + [NextProblem];
      }
    }

    /** Runs the pending next-problem continuation at position k: generateProblem. */
    method FireNextProblem(k: nat, d: Draws, ghost horizon: nat)
      requires Valid()
      requires k < |pending| && pending[k] == NextProblem
      requires Admissible(d, horizon)
      modifies this
      ensures Valid()
      ensures WellFormed(problem)
      ensures QuestionOf(problem) == Pose(d.isMultiplication, d.tableIndex, d.pick)
      ensures Snapshot() == old(Snapshot()).(
        problem := problem, selectedAnswer := None, isProcessingAnswer := false,
        pending := old(pending[..k] + pending[k + 1..]))
    {
      GenerateProblem(d, horizon);
      ghost var before := pending;
      pending := pending[..k] + pending[k + 1..];
      assert forall d :: d in pending ==> d in before;
    }

    /** One run of the one-second interval, which exists only while the game
        is active: the clock counts down, and the tick that finds at most one
        second left sets it to 0 and deactivates the game. */
    method Tick()
      requires Valid()
      requires gameActive
      modifies this
      ensures Valid()
      ensures Snapshot() == old(Snapshot()).(timeLeft := Countdown(old(timeLeft)), gameActive := old(timeLeft) > 1)
    {
      if timeLeft <= 1 {
        gameActive := false;
      }
      timeLeft := Countdown(timeLeft);
    }

    /** saveHighScore: the run's score, dated today, saved into the table. */
    method SaveHighScore(today: Day)
      requires Valid()
      requires ValidDay(today)
      modifies this
      ensures Valid()
      ensures Snapshot() == old(Snapshot()).(highScores := Save(old(highScores), Entry(old(score), FormatDate(today))))
    {
      var newEntry := Entry(score, FormatDate(today));
      highScores := Save(highScores, newEntry);
    }

    /** checkHighScore, one call: when the score qualifies it is flagged as a
        new high score and saved; otherwise nothing changes. */
    method CheckHighScore(today: Day)
      requires Valid()
      requires ValidDay(today)
      modifies this
      ensures Valid()
      ensures var entry := Entry(old(score), FormatDate(today));
        Snapshot() == if Qualifies(old(highScores), old(score))
          then old(Snapshot()).(isNewHighScore := true, highScores := Save(old(highScores), entry))
          else old(Snapshot())
    {
      if Qualifies(highScores, score) {
        isNewHighScore := true;
        SaveHighScore(today);
      }
    }

    /** The end-of-game effect as React runs it. It calls checkHighScore once
        the game is inactive with the clock at 0 and a positive score; every
        save changes the table, which re-creates checkHighScore and runs the
        effect again, until the score no longer qualifies. The table ends as
        Settle describes, and `saves` counts the insertions. */
    method SettleHighScores(today: Day) returns (saves: nat)
      requires Valid()
      requires ValidDay(today)
      modifies this
      ensures Valid()
      ensures var entry := Entry(score, FormatDate(today));
        var due := !gameActive && timeLeft == 0 && score > 0;
        Snapshot() == old(Snapshot()).(
          highScores := if due then Settle(old(highScores), entry) else old(highScores),
          isNewHighScore := old(isNewHighScore) || (due && Qualifies(old(highScores), score)))
      ensures saves > 0 <==> !gameActive && timeLeft == 0 && score > 0 && Qualifies(old(highScores), score)
    {
      var entry := Entry(score, FormatDate(today));
      saves := 0;
      while !gameActive && timeLeft == 0 && score > 0 && Qualifies(highScores, score)
        invariant Valid()
        invariant Snapshot() == old(Snapshot()).(highScores := highScores, isNewHighScore := isNewHighScore)
        invariant Settle(highScores, entry) == Settle(old(highScores), entry)
        invariant saves == 0 ==> highScores == old(highScores) && isNewHighScore == old(isNewHighScore)
        invariant saves > 0 ==> !gameActive && timeLeft == 0 && score > 0
        invariant saves > 0 ==> isNewHighScore && Qualifies(old(highScores), score)
        decreases Room(highScores, score)
      {
        SaveShrinksRoom(highScores, entry);
        CheckHighScore(today);
        saves := saves + 1;
      }
      if !gameActive && timeLeft == 0 && score > 0 {
        assert !Qualifies(highScores, entry.score);
        assert Settle(highScores, entry) == highScores;
      }
    }
  }
}
