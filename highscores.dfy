/** The top-5 high-score table: the seed table, the qualification test of
    checkHighScore, the list computation of saveHighScore (append, stable sort
    by descending score, keep the first five) and what the end-of-game effect
    does when it re-runs after every save. */
module HighScores {
  import opened Dates

  datatype Entry = Entry(score: int, date: string)

  /** Number of entries the table keeps. */
  const TableSize: nat := 5

  function Min(a: int, b: int): int {
    if a <= b then a else b
  }

  predicate SortedDesc(t: seq<Entry>) {
    forall i, j :: 0 <= i < j < |t| ==> t[i].score >= t[j].score
  }

  /** The shape every saved table has. */
  predicate ValidTable(t: seq<Entry>) {
    |t| <= TableSize && SortedDesc(t)
  }

  /** The table written when storage holds none: 15 today, 12 yesterday, 10
      two days ago. It is already a valid table. */
  function Seed(today: Day, yesterday: Day, twoDaysAgo: Day): (t: seq<Entry>)
    requires ValidDay(today) && ValidDay(yesterday) && ValidDay(twoDaysAgo)
    ensures ValidTable(t) && |t| == 3
  {
    [Entry(15, FormatDate(today)), Entry(12, FormatDate(yesterday)), Entry(10, FormatDate(twoDaysAgo))]
  }

  /** Math.min over the scores of a non-empty table: a score of the table, and no larger than any. */
  function MinScore(t: seq<Entry>): (m: int)
    requires |t| > 0
    ensures exists i :: 0 <= i < |t| && t[i].score == m
    ensures forall i :: 0 <= i < |t| ==> m <= t[i].score
  {
    if |t| == 1 then t[0].score
    else
      var rest := MinScore(t[1..]);
      assert forall i :: 1 <= i < |t| ==> t[i] == t[1..][i - 1];
      if t[0].score <= rest then t[0].score else rest
  }

  /** checkHighScore's test: a score qualifies iff the table has room or the
      score beats at least one stored score. */
  function Qualifies(t: seq<Entry>, score: int): (q: bool)
    ensures q <==> |t| < TableSize || exists i :: 0 <= i < |t| && score > t[i].score
  {
    var lowestHighScore := if |t| < TableSize then 0 else MinScore(t);
    score > lowestHighScore || |t| < TableSize
  }

  /** Places e after every entry scoring at least as much and before the first
      one scoring less. */
  function InsertDesc(t: seq<Entry>, e: Entry): seq<Entry> {
    if t == [] then [e]
    else if t[0].score >= e.score then [t[0]] + InsertDesc(t[1..], e)
    else [e] + t
  }

  /** Stable sort by descending score, as Array.prototype.sort with the
      comparator (a, b) => b.score - a.score: insertion sort that places each
      entry after the equal ones seen before it. */
  function SortDesc(t: seq<Entry>): seq<Entry>
    decreases |t|
  {
    if t == [] then [] else InsertDesc(SortDesc(t[..|t| - 1]), t[|t| - 1])
  }

  /** saveHighScore's list: [...table, entry], sorted, sliced to the first five. */
  function Save(t: seq<Entry>, e: Entry): seq<Entry> {
    var sorted := SortDesc(t + [e]);
    sorted[..Min(|sorted|, TableSize)]
  }

  /** The entries of t scoring exactly k, in order. */
  function Tied(t: seq<Entry>, k: int): seq<Entry> {
    if t == [] then [] else (if t[0].score == k then [t[0]] else []) + Tied(t[1..], k)
  }

  lemma {:induction false} TiedConcat(a: seq<Entry>, b: seq<Entry>, k: int)
    ensures Tied(a + b, k) == Tied(a, k) + Tied(b, k)
  {
    if a != [] {
      assert (a + b)[0] == a[0];
      assert (a + b)[1..] == a[1..] + b;
      TiedConcat(a[1..], b, k);
    } else {
      assert a + b == b;
    }
  }

  /** In a table sorted by descending score whose first entry scores below k, no entry scores k. */
  lemma {:induction false} TiedNone(t: seq<Entry>, k: int)
    requires SortedDesc(t)
    requires t != [] ==> t[0].score < k
    ensures Tied(t, k) == []
  {
    if t != [] {
      TiedNone(t[1..], k);
    }
  }

  /** Where InsertDesc puts e: the number of leading entries scoring at least e's score. */
  function InsertPos(t: seq<Entry>, e: Entry): nat {
    if t != [] && t[0].score >= e.score then 1 + InsertPos(t[1..], e) else 0
  }

  /** InsertDesc splits t at InsertPos. */
  lemma {:induction false} InsertPosSplits(t: seq<Entry>, e: Entry)
    ensures InsertPos(t, e) <= |t|
    ensures InsertDesc(t, e) == t[..InsertPos(t, e)] + [e] + t[InsertPos(t, e)..]
  {
    if t != [] && t[0].score >= e.score {
      var rest := t[1..];
      var q := InsertPos(rest, e);
      InsertPosSplits(rest, e);
      assert InsertDesc(t, e) == [t[0]] + (rest[..q] + [e] + rest[q..]);
      assert t[..q + 1] == [t[0]] + rest[..q];
      assert t[q + 1..] == rest[q..];
    } else {
      assert t[..0] == [] && t[0..] == t;
    }
  }

  /** The entries before InsertPos score at least e's score, the one at it scores less. */
  lemma {:induction false} InsertPosBounds(t: seq<Entry>, e: Entry)
    ensures InsertPos(t, e) <= |t|
    ensures forall i :: 0 <= i < InsertPos(t, e) ==> t[i].score >= e.score
    ensures InsertPos(t, e) < |t| ==> t[InsertPos(t, e)].score < e.score
  {
    if t != [] && t[0].score >= e.score {
      var rest := t[1..];
      var q := InsertPos(rest, e);
      InsertPosBounds(rest, e);
      forall i | 0 <= i < q + 1
        ensures t[i].score >= e.score
      {
        if i > 0 {
          assert t[i] == rest[i - 1];
        }
      }
      if q + 1 < |t| {
        assert t[q + 1] == rest[q];
      }
    }
  }

  /** Inserting keeps every entry and adds e once. */
  lemma {:induction false} InsertDescPermutes(t: seq<Entry>, e: Entry)
    ensures |InsertDesc(t, e)| == |t| + 1
    ensures multiset(InsertDesc(t, e)) == multiset(t) + multiset{e}
  {
    if t != [] && t[0].score >= e.score {
      InsertDescPermutes(t[1..], e);
      assert t == [t[0]] + t[1..];
    }
  }

  /** A list is descending iff its tail is and its head is at least the tail's head. */
  lemma ConsSorted(x: Entry, r: seq<Entry>)
    requires SortedDesc(r)
    requires r != [] ==> x.score >= r[0].score
    ensures SortedDesc([x] + r)
  {
    var l := [x] + r;
    forall i, j | 0 <= i < j < |l|
      ensures l[i].score >= l[j].score
    {
      if i == 0 {
        assert l[j] == r[j - 1];
        assert r[0].score >= r[j - 1].score;
      } else {
        assert l[i] == r[i - 1] && l[j] == r[j - 1];
      }
    }
  }

  /** Inserting into a sorted table keeps it sorted. */
  lemma {:induction false} InsertDescSorted(t: seq<Entry>, e: Entry)
    requires SortedDesc(t)
    ensures SortedDesc(InsertDesc(t, e))
  {
    if t == [] {
    } else if t[0].score >= e.score {
      var rest := t[1..];
      assert SortedDesc(rest);
      InsertDescSorted(rest, e);
      if rest != [] {
        assert t[0].score >= rest[0].score;
      }
      ConsSorted(t[0], InsertDesc(rest, e));
    } else {
      ConsSorted(e, t);
    }
  }

  /** Inserting into a sorted table puts e after the entries tied with it. */
  lemma {:induction false} InsertDescStable(t: seq<Entry>, e: Entry, k: int)
    requires SortedDesc(t)
    ensures Tied(InsertDesc(t, e), k) == Tied(t + [e], k)
  {
    if t == [] {
      assert t + [e] == [e];
    } else if t[0].score >= e.score {
      var rest := t[1..];
      assert SortedDesc(rest);
      InsertDescStable(rest, e, k);
      TiedConcat([t[0]], InsertDesc(rest, e), k);
      TiedConcat([t[0]], rest + [e], k);
      assert t + [e] == [t[0]] + (rest + [e]);
    } else {
      TiedConcat([e], t, k);
      TiedConcat(t, [e], k);
      if e.score == k {
        TiedNone(t, k);
      }
    }
  }

  /** The sort is a sort: ordered by descending score, a permutation of its
      input, and stable (entries with equal scores keep their relative order). */
  lemma {:induction false} SortDescIsStableSort(t: seq<Entry>, k: int)
    ensures SortedDesc(SortDesc(t))
    ensures multiset(SortDesc(t)) == multiset(t)
    ensures |SortDesc(t)| == |t|
    ensures Tied(SortDesc(t), k) == Tied(t, k)
    decreases |t|
  {
    if t != [] {
      var init, last := t[..|t| - 1], t[|t| - 1];
      SortDescIsStableSort(init, k);
      InsertDescPermutes(SortDesc(init), last);
      InsertDescSorted(SortDesc(init), last);
      InsertDescStable(SortDesc(init), last, k);
      assert t == init + [last];
      TiedConcat(SortDesc(init), [last], k);
      TiedConcat(init, [last], k);
    }
  }

  /** saveHighScore yields a valid table of min(5, |table| + 1) entries, every
      one taken from the old table or the new entry. */
  lemma SaveKeepsTable(t: seq<Entry>, e: Entry)
    ensures ValidTable(Save(t, e))
    ensures |Save(t, e)| == Min(|t| + 1, TableSize)
    ensures multiset(Save(t, e)) <= multiset(t + [e])
  {
    var sorted := SortDesc(t + [e]);
    var r := Save(t, e);
    SortDescIsStableSort(t + [e], 0);
    assert sorted == r + sorted[|r|..];
  }

  /** Ties keep the order in which they were recorded: the saved entries
      scoring k are the first ones that scored k. */
  lemma SaveIsStable(t: seq<Entry>, e: Entry, k: int)
    ensures Tied(Save(t, e), k) <= Tied(t + [e], k)
  {
    var sorted := SortDesc(t + [e]);
    var r := Save(t, e);
    SortDescIsStableSort(t + [e], k);
    assert sorted == r + sorted[|r|..];
    TiedConcat(r, sorted[|r|..], k);
  }

  /** Only the lowest entries are dropped: none scores more than any kept entry. */
  lemma SaveDropsLowest(t: seq<Entry>, e: Entry, x: Entry)
    requires x in multiset(t + [e]) - multiset(Save(t, e))
    ensures forall i :: 0 <= i < |Save(t, e)| ==> x.score <= Save(t, e)[i].score
  {
    var sorted := SortDesc(t + [e]);
    SortDescIsStableSort(t + [e], 0);
    PrefixHoldsHighest(sorted, |Save(t, e)|, x);
  }

  lemma PrefixHoldsHighest(sorted: seq<Entry>, n: nat, x: Entry)
    requires SortedDesc(sorted)
    requires n <= |sorted|
    requires x in multiset(sorted) - multiset(sorted[..n])
    ensures forall i :: 0 <= i < n ==> x.score <= sorted[i].score
  {
    var tail := sorted[n..];
    assert sorted == sorted[..n] + tail;
    assert multiset(sorted) == multiset(sorted[..n]) + multiset(tail);
    assert x in multiset(tail);
    var j :| 0 <= j < |tail| && tail[j] == x;
    assert sorted[n + j] == x;
  }

  lemma {:induction false} SortedIsFixed(t: seq<Entry>)
    requires SortedDesc(t)
    ensures SortDesc(t) == t
  {
    if t != [] {
      var init, last := t[..|t| - 1], t[|t| - 1];
      SortedIsFixed(init);
      var p := InsertPos(init, last);
      InsertPosSplits(init, last);
      InsertPosBounds(init, last);
      assert forall i :: 0 <= i < |init| ==> init[i].score >= last.score;
      assert p == |init|;
      assert init[..p] + [last] + init[p..] == t;
    }
  }

  /** Sorting a sorted table with one entry appended is inserting that entry. */
  lemma SortAppendSorted(t: seq<Entry>, e: Entry)
    requires SortedDesc(t)
    ensures SortDesc(t + [e]) == InsertDesc(t, e)
  {
    SortedIsFixed(t);
    assert (t + [e])[..|t|] == t;
  }

  /** Saving into a valid table inserts the new entry once, at its place by
      score, and keeps every old entry but the lowest when the table is full. */
  lemma SaveInsertsOnce(t: seq<Entry>, e: Entry)
    requires ValidTable(t)
    requires Qualifies(t, e.score)
    ensures var keep := Min(|t|, TableSize - 1);
      exists p :: 0 <= p <= keep && Save(t, e) == t[..p] + [e] + t[p..keep]
  {
    SortAppendSorted(t, e);
    var p := InsertPos(t, e);
    InsertPosSplits(t, e);
    InsertPosBounds(t, e);
    var keep := Min(|t|, TableSize - 1);
    var grown := t[..p] + [e] + t[p..];
    assert SortDesc(t + [e]) == grown;
    if |t| == TableSize {
      var i :| 0 <= i < |t| && e.score > t[i].score;
      assert p <= i;
      SliceOfInsert(t, p, e, keep);
      assert Save(t, e) == grown[..keep + 1];
    } else {
      assert t[p..keep] == t[p..];
      assert Save(t, e) == grown[..|grown|];
    }
    assert 0 <= p <= keep && Save(t, e) == t[..p] + [e] + t[p..keep];
  }

  /** Cutting an insertion result after n + 1 entries cuts the original after n. */
  lemma SliceOfInsert(t: seq<Entry>, p: nat, e: Entry, n: nat)
    requires p <= n <= |t|
    ensures (t[..p] + [e] + t[p..])[..n + 1] == t[..p] + [e] + t[p..n]
  {
    var g := t[..p] + [e] + t[p..];
    assert g[..n + 1] == t[..p] + [e] + t[p..][..n - p];
    assert t[p..][..n - p] == t[p..n];
  }

  /** Entries of t scoring below s. */
  function CountBelow(t: seq<Entry>, s: int): nat {
    if t == [] then 0 else (if t[0].score < s then 1 else 0) + CountBelow(t[1..], s)
  }

  lemma {:induction false} CountBelowConcat(a: seq<Entry>, b: seq<Entry>, s: int)
    ensures CountBelow(a + b, s) == CountBelow(a, s) + CountBelow(b, s)
  {
    if a != [] {
      assert (a + b)[0] == a[0];
      assert (a + b)[1..] == a[1..] + b;
      CountBelowConcat(a[1..], b, s);
    } else {
      assert a + b == b;
    }
  }

  lemma {:induction false} CountBelowPositive(t: seq<Entry>, s: int)
    ensures CountBelow(t, s) > 0 <==> exists i :: 0 <= i < |t| && t[i].score < s
  {
    if t != [] {
      CountBelowPositive(t[1..], s);
      if CountBelow(t[1..], s) > 0 {
        var i :| 0 <= i < |t[1..]| && t[1..][i].score < s;
        assert t[i + 1].score < s;
      }
      assert forall i :: 1 <= i < |t| ==> t[i] == t[1..][i - 1];
    }
  }

  lemma {:induction false} CountBelowInsert(t: seq<Entry>, e: Entry, s: int)
    ensures CountBelow(InsertDesc(t, e), s) == CountBelow(t + [e], s)
  {
    if t != [] {
      assert (t + [e])[1..] == t[1..] + [e];
      CountBelowInsert(t[1..], e, s);
      if t[0].score < e.score {
        CountBelowConcat([e], t, s);
        CountBelowConcat(t, [e], s);
      }
    }
  }

  lemma {:induction false} CountBelowSort(t: seq<Entry>, s: int)
    ensures CountBelow(SortDesc(t), s) == CountBelow(t, s)
    decreases |t|
  {
    if t != [] {
      var init, last := t[..|t| - 1], t[|t| - 1];
      CountBelowSort(init, s);
      CountBelowInsert(SortDesc(init), last, s);
      CountBelowConcat(SortDesc(init), [last], s);
      CountBelowConcat(init, [last], s);
      assert t == init + [last];
    }
  }

  /** How many more times the same score can still be saved: free slots plus
      entries it beats. */
  function Room(t: seq<Entry>, s: int): nat {
    (if |t| < TableSize then TableSize - |t| else 0) + CountBelow(t, s)
  }

  /** Cutting a descending list that holds an entry below s keeps one below s
      among the entries cut, since the last entry is the lowest. */
  lemma CutHoldsBelow(sorted: seq<Entry>, n: nat, s: int)
    requires SortedDesc(sorted)
    requires n < |sorted|
    requires CountBelow(sorted, s) > 0
    ensures CountBelow(sorted[n..], s) > 0
  {
    CountBelowPositive(sorted, s);
    var j :| 0 <= j < |sorted| && sorted[j].score < s;
    var tail := sorted[n..];
    assert tail[|tail| - 1] == sorted[|sorted| - 1];
    CountBelowPositive(tail, s);
  }

  /** Each qualifying save uses up room: so the re-running check stops. */
  lemma SaveShrinksRoom(t: seq<Entry>, e: Entry)
    requires Qualifies(t, e.score)
    ensures Room(Save(t, e), e.score) < Room(t, e.score)
  {
    var s := e.score;
    var sorted := SortDesc(t + [e]);
    var r := Save(t, e);
    var tail := sorted[|r|..];
    SortDescIsStableSort(t + [e], s);
    assert |r| == Min(|t| + 1, TableSize);
    CountBelowSort(t + [e], s);
    CountBelowConcat(t, [e], s);
    assert CountBelow([e], s) == 0;
    assert sorted == r + tail;
    CountBelowConcat(r, tail, s);
    assert CountBelow(r, s) + CountBelow(tail, s) == CountBelow(t, s);
    if |t| >= TableSize {
      CountBelowPositive(t, s);
      CutHoldsBelow(sorted, |r|, s);
      assert CountBelow(r, s) < CountBelow(t, s);
    } else {
      assert CountBelow(r, s) <= CountBelow(t, s);
    }
  }

  /** The end-of-game effect as it runs: after every save the table changed, so
      the check runs again with the same score, until the score no longer
      qualifies. */
  function Settle(t: seq<Entry>, e: Entry): (r: seq<Entry>)
    ensures !Qualifies(r, e.score)
    decreases Room(t, e.score)
  {
    if Qualifies(t, e.score) then
      SaveShrinksRoom(t, e);
      Settle(Save(t, e), e)
    else t
  }

  function Copies(e: Entry, k: nat): seq<Entry> {
    seq(k, _ => e)
  }

  lemma {:induction false} InsertAfterCopies(e: Entry, k: nat, u: seq<Entry>)
    requires u != [] ==> u[0].score < e.score
    ensures InsertDesc(Copies(e, k) + u, e) == Copies(e, k + 1) + u
  {
    if k > 0 {
      assert (Copies(e, k) + u)[1..] == Copies(e, k - 1) + u;
      InsertAfterCopies(e, k - 1, u);
      assert Copies(e, k + 1) == [e] + Copies(e, k);
    }
  }

  /** k copies of e followed by a descending list of lower entries is descending. */
  lemma CopiesThenLowerSorted(e: Entry, k: nat, u: seq<Entry>)
    requires SortedDesc(u)
    requires forall i :: 0 <= i < |u| ==> u[i].score < e.score
    ensures SortedDesc(Copies(e, k) + u)
  {
    var t := Copies(e, k) + u;
    forall i, j | 0 <= i < j < |t|
      ensures t[i].score >= t[j].score
    {
      if j >= k {
        assert t[j] == u[j - k];
        if i >= k {
          assert t[i] == u[i - k];
        }
      }
    }
  }

  /** One save into k copies of e followed by lower entries u: one more copy,
      and the lowest entry drops out once the table is full. */
  lemma SaveOfCopies(e: Entry, k: nat, u: seq<Entry>)
    requires k < TableSize && k + |u| <= TableSize
    requires SortedDesc(u)
    requires forall i :: 0 <= i < |u| ==> u[i].score < e.score
    ensures Qualifies(Copies(e, k) + u, e.score)
    ensures Save(Copies(e, k) + u, e) == Copies(e, k + 1) + u[..Min(|u|, TableSize - k - 1)]
  {
    var t := Copies(e, k) + u;
    if |t| == TableSize {
      assert t[k] == u[0];
    }
    CopiesThenLowerSorted(e, k, u);
    SortAppendSorted(t, e);
    InsertAfterCopies(e, k, u);
    var grown := Copies(e, k + 1) + u;
    assert SortDesc(t + [e]) == grown;
    if |grown| > TableSize {
      assert Min(|u|, TableSize - k - 1) == |u| - 1;
      assert grown[..TableSize] == Copies(e, k + 1) + u[..|u| - 1];
    } else {
      assert Min(|u|, TableSize - k - 1) == |u|;
      assert u[..|u|] == u;
    }
  }

  lemma {:induction false} FillFrom(e: Entry, k: nat, u: seq<Entry>)
    requires k + |u| <= TableSize
    requires SortedDesc(u)
    requires forall i :: 0 <= i < |u| ==> u[i].score < e.score
    ensures Settle(Copies(e, k) + u, e) == Copies(e, TableSize)
    decreases TableSize - k
  {
    var t := Copies(e, k) + u;
    if k == TableSize {
      assert t == Copies(e, TableSize);
      assert !Qualifies(t, e.score);
    } else {
      SaveOfCopies(e, k, u);
      var kept := u[..Min(|u|, TableSize - k - 1)];
      assert forall i :: 0 <= i < |kept| ==> kept[i] == u[i];
      FillFrom(e, k + 1, kept);
      assert Settle(t, e) == Settle(Copies(e, k + 1) + kept, e);
    }
  }

  /** As written, a run whose score beats every stored score leaves five
      copies of itself in the table, not one. */
  lemma ReentryFillsTable(t: seq<Entry>, e: Entry)
    requires ValidTable(t)
    requires forall i :: 0 <= i < |t| ==> t[i].score < e.score
    ensures Settle(t, e) == Copies(e, TableSize)
  {
    assert Copies(e, 0) + t == t;
    FillFrom(e, 0, t);
  }

  /** The qualification example of a full table: 25 qualifies against
      [50, 40, 30, 20, 10], and 10 is dropped. */
  lemma FullTableExample(d: string)
    ensures var t := [Entry(50, d), Entry(40, d), Entry(30, d), Entry(20, d), Entry(10, d)];
      Qualifies(t, 25) &&
      Save(t, Entry(25, d)) == [Entry(50, d), Entry(40, d), Entry(30, d), Entry(25, d), Entry(20, d)]
  {
    var t := [Entry(50, d), Entry(40, d), Entry(30, d), Entry(20, d), Entry(10, d)];
    var e := Entry(25, d);
    assert t[4].score < 25;
    SortAppendSorted(t, e);
    var p := InsertPos(t, e);
    InsertPosSplits(t, e);
    InsertPosBounds(t, e);
    assert t[2].score >= 25 && t[3].score < 25;
    assert p == 3;
  }

  /** The empty-table example: any score qualifies and becomes the only entry. */
  lemma EmptyTableExample(e: Entry)
    ensures Qualifies([], e.score) && Save([], e) == [e]
  {
    assert [] + [e] == [e];
    assert [e][..0] == [];
    assert SortDesc([e]) == [e];
  }

  /** The seed table and a run scoring 20: one save would give [20, 15, 12, 10],
      but the re-running effect leaves five entries of 20. */
  lemma SeedReentryExample(today: Day, yesterday: Day, twoDaysAgo: Day, date: string)
    requires ValidDay(today) && ValidDay(yesterday) && ValidDay(twoDaysAgo)
    ensures var t := Seed(today, yesterday, twoDaysAgo);
      var e := Entry(20, date);
      Save(t, e) == [e] + t && Settle(t, e) == Copies(e, TableSize)
  {
    var t := Seed(today, yesterday, twoDaysAgo);
    var e := Entry(20, date);
    SortAppendSorted(t, e);
    assert InsertDesc(t, e) == [e] + t;
    ReentryFillsTable(t, e);
  }
}
