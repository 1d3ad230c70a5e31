/** The distractor generator of the quiz (generateOptions): starting from the
    correct answer, a rejection-sampling loop collects six distinct integers
    from a window around it, and the collected list is then put in a random
    order. The draws of Math.random are inputs: `draw(k)` is the integer
    Math.floor(Math.random() * (max - min + 1)) yields at the k-th draw, and
    the final order is an index permutation. */
module Options {

  /** Number of choices shown for every problem. */
  const ChoiceCount: nat := 6

  /** Lower end of the draw window, Math.max(1, correct - 10). */
  function Lo(correct: int): int {
    if correct - 10 > 1 then correct - 10 else 1
  }

  /** Upper end of the draw window, correct + 10. */
  function Hi(correct: int): int {
    correct + 10
  }

  /** Number of integers in the window, max - min + 1. */
  function Width(correct: int): int {
    Hi(correct) - Lo(correct) + 1
  }

  /** Membership in [lo, hi), named so that the comprehension below has a term to trigger on. */
  predicate InRange(lo: int, hi: int, x: int) {
    lo <= x < hi
  }

  /** The integers lo, lo + 1, ..., hi - 1. */
  ghost function Range(lo: int, hi: int): set<int> {
    set x | lo <= x < hi && InRange(lo, hi, x)
  }

  /** The window the distractors are drawn from. */
  ghost function Window(correct: int): set<int> {
    Range(Lo(correct), Hi(correct) + 1)
  }

  predicate Distinct(s: seq<int>) {
    forall i, j :: 0 <= i < j < |s| ==> s[i] != s[j]
  }

  /** What every produced choice list satisfies: six pairwise-distinct values,
      the correct answer exactly once, every other value a distractor from the window. */
  predicate WellFormedOptions(correct: int, options: seq<int>) {
    |options| == ChoiceCount
    && Distinct(options)
    && multiset(options)[correct] == 1
    && forall i :: 0 <= i < |options| && options[i] != correct ==> Lo(correct) <= options[i] <= Hi(correct)
  }

  /** Every draw lies in [0, max - min + 1), as Math.floor(Math.random() * width) does. */
  ghost predicate Bounded(correct: int, draw: nat -> nat) {
    forall k :: draw(k) < Width(correct)
  }

  /** Offset v is drawn at some draw before `horizon`. */
  ghost predicate Drawn(draw: nat -> nat, horizon: nat, v: int) {
    exists k :: 0 <= k < horizon && draw(k) == v
  }

  /** Fairness of the random source: every offset of the window is drawn before `horizon`. */
  ghost predicate Covers(correct: int, draw: nat -> nat, horizon: nat) {
    forall v :: 0 <= v < Width(correct) ==> Drawn(draw, horizon, v)
  }

  /** One pass of the loop body: the drawn value is pushed unless it is the
      correct answer or already collected. */
  function Accept(correct: int, options: seq<int>, wrong: int): seq<int> {
    if wrong != correct && wrong !in options then options + [wrong] else options
  }

  /** The list collected after n draws, as if the loop never stopped. */
  function Gather(correct: int, draw: nat -> nat, n: nat): seq<int> {
    if n == 0 then [correct]
    else Accept(correct, Gather(correct, draw, n - 1), Lo(correct) + draw(n - 1))
  }

  function Shuffle(xs: seq<int>, perm: seq<nat>): seq<int>
    requires IsPermutation(perm, |xs|)
  {
    seq(|perm|, i requires 0 <= i < |perm| => xs[perm[i]])
  }

  /** perm lists each index 0 .. n - 1 exactly once. */
  predicate IsPermutation(perm: seq<nat>, n: nat) {
    |perm| == n
    && (forall i :: 0 <= i < n ==> perm[i] < n)
    && (forall i, j :: 0 <= i < j < n ==> perm[i] != perm[j])
  }

  lemma {:induction false} RangeSize(lo: int, hi: int)
    requires lo <= hi
    ensures |Range(lo, hi)| == hi - lo
    decreases hi - lo
  {
    if lo == hi {
      assert Range(lo, hi) == {};
    } else {
      RangeSize(lo, hi - 1);
      assert Range(lo, hi) == Range(lo, hi - 1) + {hi - 1};
    }
  }

  /** For every correct answer of at least 1 the window holds at least ten
      values other than it, so five distractors can always be found. */
  lemma WindowHasRoom(correct: int)
    requires correct >= 1
    ensures correct in Window(correct)
    ensures |Window(correct) - {correct}| >= 10
  {
    RangeSize(Lo(correct), Hi(correct) + 1);
  }

  lemma {:induction false} SeqSetSize(s: seq<int>)
    ensures |(set x | x in s)| <= |s|
  {
    if s != [] {
      var init := s[..|s| - 1];
      SeqSetSize(init);
      assert (set x | x in s) == (set x | x in init) + {s[|s| - 1]};
    }
  }

  lemma SubsetSize(a: set<int>, b: set<int>)
    requires a <= b
    ensures |a| <= |b|
  {
    assert b == a + (b - a);
  }

  /** The collected list starts with the correct answer, never repeats a value
      and adds only window values other than the correct answer; each draw adds
      at most one value. */
  lemma {:induction false} GatherShape(correct: int, draw: nat -> nat, n: nat)
    requires Bounded(correct, draw)
    ensures var g := Gather(correct, draw, n);
      1 <= |g| <= n + 1 && g[0] == correct && Distinct(g)
      && forall i :: 1 <= i < |g| ==> g[i] != correct && g[i] in Window(correct)
    ensures n > 0 ==> |Gather(correct, draw, n)| <= |Gather(correct, draw, n - 1)| + 1
  {
    if n > 0 {
      GatherShape(correct, draw, n - 1);
    }
  }

  /** Values once collected stay collected. */
  lemma {:induction false} GatherGrows(correct: int, draw: nat -> nat, m: nat, n: nat, x: int)
    requires m <= n
    requires x in Gather(correct, draw, m)
    ensures x in Gather(correct, draw, n)
    decreases n - m
  {
    if m < n {
      GatherGrows(correct, draw, m + 1, n, x);
    }
  }

  /** Under the fairness hypothesis, by `horizon` the whole window has been collected. */
  lemma GatherCovers(correct: int, draw: nat -> nat, horizon: nat)
    requires correct >= 1
    requires Bounded(correct, draw)
    requires Covers(correct, draw, horizon)
    ensures Window(correct) <= (set x | x in Gather(correct, draw, horizon))
    ensures |Gather(correct, draw, horizon)| >= Width(correct)
  {
    var g := Gather(correct, draw, horizon);
    forall x | x in Window(correct)
      ensures x in g
    {
      var v := x - Lo(correct);
      assert Drawn(draw, horizon, v);
      var k :| 0 <= k < horizon && draw(k) == v;
      GatherShape(correct, draw, k);
      assert x in Gather(correct, draw, k + 1);
      GatherGrows(correct, draw, k + 1, horizon, x);
    }
    assert Window(correct) <= (set x | x in g);
    SubsetSize(Window(correct), set x | x in g);
    SeqSetSize(g);
    RangeSize(Lo(correct), Hi(correct) + 1);
  }

  /** The rejection-sampling loop of generateOptions. It returns the collected
      list and the number of draws it used; it stops at the first draw after
      which six values are collected, and under the fairness hypothesis it
      always stops. */
  method CollectOptions(correct: int, draw: nat -> nat, ghost horizon: nat)
      returns (options: seq<int>, draws: nat)
    requires correct >= 1
    requires Bounded(correct, draw)
    requires Covers(correct, draw, horizon)
    ensures options == Gather(correct, draw, draws)
    ensures |options| == ChoiceCount
    ensures forall n :: 0 <= n < draws ==> |Gather(correct, draw, n)| < ChoiceCount
    ensures draws <= horizon
  {
    GatherCovers(correct, draw, horizon);
    options := [correct];
    draws := 0;
    while |options| < ChoiceCount
      invariant options == Gather(correct, draw, draws)
      invariant forall n :: 0 <= n < draws ==> |Gather(correct, draw, n)| < ChoiceCount
      invariant draws <= horizon
      decreases horizon - draws
    {
      var min := Lo(correct);
      var wrongAnswer := draw(draws) + min;
      if wrongAnswer != correct && wrongAnswer !in options {
        options := options + [wrongAnswer];
      }
      draws := draws + 1;
    }
  }

  /** Placing xs in the order perm is a permutation of xs. */
  lemma {:induction false} ShufflePermutes(xs: seq<int>, perm: seq<nat>)
    requires IsPermutation(perm, |xs|)
    ensures multiset(Shuffle(xs, perm)) == multiset(xs)
    decreases |xs|
  {
    var n := |xs|;
    if n == 0 {
      assert Shuffle(xs, perm) == [];
    } else {
      var j := perm[n - 1];
      var rest := xs[..j] + xs[j + 1..];
      var perm' := seq(n - 1, i requires 0 <= i < n - 1 => if perm[i] > j then perm[i] - 1 else perm[i]);
      forall i | 0 <= i < n - 1
        ensures perm'[i] < n - 1 && rest[perm'[i]] == xs[perm[i]]
      {
        assert perm[i] != j;
      }
      forall i, i' | 0 <= i < i' < n - 1
        ensures perm'[i] != perm'[i']
      {
        assert perm[i] != j && perm[i'] != j && perm[i] != perm[i'];
      }
      ShufflePermutes(rest, perm');
      assert Shuffle(xs, perm) == Shuffle(rest, perm') + [xs[j]];
      assert xs == xs[..j] + [xs[j]] + xs[j + 1..];
    }
  }

  lemma ShuffleDistinct(xs: seq<int>, perm: seq<nat>)
    requires IsPermutation(perm, |xs|)
    requires Distinct(xs)
    ensures Distinct(Shuffle(xs, perm))
  {
    var r := Shuffle(xs, perm);
    forall i, j | 0 <= i < j < |r|
      ensures r[i] != r[j]
    {
      if perm[i] < perm[j] {
        assert xs[perm[i]] != xs[perm[j]];
      } else {
        assert xs[perm[j]] != xs[perm[i]];
      }
    }
  }

  /** generateOptions: the collected list in the order the shuffle chose.
      The result holds six distinct values, the correct answer exactly once,
      distractors only from the window, and is a permutation of what the loop
      collected. */
  method GenerateOptions(correct: int, draw: nat -> nat, ghost horizon: nat, perm: seq<nat>)
      returns (options: seq<int>, draws: nat)
    requires correct >= 1
    requires Bounded(correct, draw)
    requires Covers(correct, draw, horizon)
    requires IsPermutation(perm, ChoiceCount)
    ensures WellFormedOptions(correct, options)
    ensures multiset(options) == multiset(Gather(correct, draw, draws))
    ensures |Gather(correct, draw, draws)| == ChoiceCount
    ensures forall n :: 0 <= n < draws ==> |Gather(correct, draw, n)| < ChoiceCount
  {
    var collected;
    collected, draws := CollectOptions(correct, draw, horizon);
    GatherShape(correct, draw, draws);
    assert collected == [correct] + collected[1..];
    assert correct !in collected[1..];
    ShufflePermutes(collected, perm);
    ShuffleDistinct(collected, perm);
    options := Shuffle(collected, perm);
    forall i | 0 <= i < |options| && options[i] != correct
      ensures Lo(correct) <= options[i] <= Hi(correct)
    {
      assert options[i] == collected[perm[i]];
      assert perm[i] != 0;
    }
  }
}
