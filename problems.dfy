/** generateProblem: a times-table multiplication or an exact division, with
    its answer and six answer choices. Every Math.random draw is an input:
    the coin that picks the operation, the index into the table, the operand
    1 .. 10 minus one, the distractor draws and the order of the shuffle. */
module Problems {
  import opened Options

  /** "+" only in the placeholder shown before the first problem; "×" and "÷" afterwards. */
  datatype Operator = Plus | Times | Divide

  datatype Problem = Problem(num1: int, num2: int, operator: Operator, answer: int, options: seq<int>)

  /** The problem state holds before any problem is generated. */
  const Placeholder := Problem(0, 0, Plus, 0, [0, 0, 0, 0, 0, 0])

  const Multipliers: seq<int> := [2, 3, 4, 5, 10]
  const Divisors: seq<int> := [2, 3, 5, 10]

  /** The draws of one generateProblem call: Math.random() > 0.5, the table
      index Math.floor(Math.random() * length), the operand Math.floor(Math.random() * 10),
      the distractor draws and the order the shuffling sort leaves the choices in. */
  datatype Draws = Draws(isMultiplication: bool, tableIndex: nat, pick: nat, wrong: nat -> nat, order: seq<nat>)

  /** The question part of a problem, before its choices are generated. */
  datatype Question = Question(num1: int, num2: int, operator: Operator, answer: int)

  predicate DrawsInRange(isMultiplication: bool, tableIndex: nat, pick: nat) {
    pick < 10 && tableIndex < (if isMultiplication then |Multipliers| else |Divisors|)
  }

  /** The arithmetic of generateProblem. Multiplication: a factor 1 .. 10 times a
      multiplier from {2, 3, 4, 5, 10}. Division: a multiple of a divisor from
      {2, 3, 5, 10} divided by it, with quotient 1 .. 10. The answer is always at least 1. */
  function Pose(isMultiplication: bool, tableIndex: nat, pick: nat): (q: Question)
    requires DrawsInRange(isMultiplication, tableIndex, pick)
    ensures q.answer >= 1
    ensures isMultiplication ==>
      q.operator == Times && q.num2 in {2, 3, 4, 5, 10} && 1 <= q.num1 <= 10 && q.answer == q.num1 * q.num2
    ensures !isMultiplication ==>
      q.operator == Divide && q.num2 in {2, 3, 5, 10} && 1 <= q.answer <= 10 && q.num1 == q.answer * q.num2
  {
    if isMultiplication then
      var multiplier := Multipliers[tableIndex];
      var num1 := pick + 1;
      Question(num1, multiplier, Times, num1 * multiplier)
    else
      var divisor := Divisors[tableIndex];
      var quotient := pick + 1;
      Question(quotient * divisor, divisor, Divide, quotient)
  }

  /** Every problem of the tables is posed by some draw: the multiplications
      n × m for n in 1 .. 10 and m in {2, 3, 4, 5, 10}, and the divisions
      (q × d) ÷ d for q in 1 .. 10 and d in {2, 3, 5, 10}. */
  lemma PoseReachesEveryProblem(n: int, m: int, isMultiplication: bool)
    requires 1 <= n <= 10
    requires if isMultiplication then m in {2, 3, 4, 5, 10} else m in {2, 3, 5, 10}
    ensures exists i: nat, p: nat ::
      DrawsInRange(isMultiplication, i, p) &&
      Pose(isMultiplication, i, p) ==
      (if isMultiplication then Question(n, m, Times, n * m) else Question(n * m, m, Divide, n))
  {
    var i: nat;
    if isMultiplication {
      i := if m == 2 then 0 else if m == 3 then 1 else if m == 4 then 2 else if m == 5 then 3 else 4;
    } else {
      i := if m == 2 then 0 else if m == 3 then 1 else if m == 5 then 2 else 3;
    }
    assert DrawsInRange(isMultiplication, i, n - 1);
  }

  /** The answer is the value of the expression shown: a product, or the
      quotient of a division that leaves no remainder. */
  lemma PoseIsExact(isMultiplication: bool, tableIndex: nat, pick: nat)
    requires DrawsInRange(isMultiplication, tableIndex, pick)
    ensures var q := Pose(isMultiplication, tableIndex, pick);
      q.num2 > 0 &&
      (q.operator == Times ==> q.answer == q.num1 * q.num2) &&
      (q.operator == Divide ==> q.num1 % q.num2 == 0 && q.num1 / q.num2 == q.answer)
  {
    var q := Pose(isMultiplication, tableIndex, pick);
    if !isMultiplication {
      assert q.num1 == q.answer * q.num2;
    }
  }

  /** The draws are ones that Math.random can produce, and the distractor
      stream is fair (every window value shows up before `horizon`). */
  ghost predicate Admissible(d: Draws, horizon: nat) {
    DrawsInRange(d.isMultiplication, d.tableIndex, d.pick)
    && var answer := Pose(d.isMultiplication, d.tableIndex, d.pick).answer;
       Bounded(answer, d.wrong) && Covers(answer, d.wrong, horizon) && IsPermutation(d.order, ChoiceCount)
  }

  /** A problem as generateProblem leaves it. */
  predicate WellFormed(p: Problem) {
    p.answer >= 1
    && (p.operator == Times ==> p.num2 in {2, 3, 4, 5, 10} && 1 <= p.num1 <= 10 && p.answer == p.num1 * p.num2)
    && (p.operator == Divide ==> p.num2 in {2, 3, 5, 10} && 1 <= p.answer <= 10 && p.num1 == p.answer * p.num2)
    && p.operator != Plus
    && WellFormedOptions(p.answer, p.options)
  }

  function QuestionOf(p: Problem): Question {
    Question(p.num1, p.num2, p.operator, p.answer)
  }

  /** The value-producing part of generateProblem: pose the question and
      generate its choices around the answer. */
  method MakeProblem(d: Draws, ghost horizon: nat) returns (p: Problem)
    requires Admissible(d, horizon)
    ensures QuestionOf(p) == Pose(d.isMultiplication, d.tableIndex, d.pick)
    ensures WellFormed(p)
  {
    var q := Pose(d.isMultiplication, d.tableIndex, d.pick);
    var options, _ := GenerateOptions(q.answer, d.wrong, horizon, d.order);
    p := Problem(q.num1, q.num2, q.operator, q.answer, options);
  }
}
