/** The streak computation of lib/storage.ts (`calculateStreak`): keep the
    days that score at least 0.7, sort them newest first, then count the
    run of consecutive days that starts today or yesterday (`current`) and
    the longest run anywhere (`longest`). */
module Streaks {
  import opened Types
  import opened Utils
  import opened EntryOrder

  /** The score a day needs to count towards a streak. */
  const StreakThreshold: real := 0.7

  predicate Qualifies(e: DailyEntry, t: Template) {
    DailyScore(e, t) >= StreakThreshold
  }

  /** `entries.filter(e => calculateDailyScore(e, template) >= 0.7)`. */
  function Qualifying(entries: seq<DailyEntry>, t: Template): (r: seq<DailyEntry>)
    ensures forall x :: multiset(r)[x] == if Qualifies(x, t) then multiset(entries)[x] else 0
    ensures forall x :: x in r <==> x in entries && Qualifies(x, t)
  {
    if entries == [] then []
    else
      assert entries == [entries[0]] + entries[1..];
      var rest := Qualifying(entries[1..], t);
      if Qualifies(entries[0], t) then [entries[0]] + rest else rest
  }

  /** `completedEntries`: the qualifying days, newest first. */
  function Completed(entries: seq<DailyEntry>, t: Template): seq<DailyEntry> {
    SortByDate(Qualifying(entries, t))
  }

  /** The dates of the qualifying days, newest first. */
  function QualifyingDates(entries: seq<DailyEntry>, t: Template): (ds: seq<int>)
    ensures Descending(ds)
  {
    Dates(Completed(entries, t))
  }

  ghost predicate Descending(ds: seq<int>) {
    forall i, j :: 0 <= i < j < |ds| ==> ds[i] >= ds[j]
  }

  /** Reference definition: `len` dates from index `k` on, each one day
      before the previous. */
  ghost predicate ConsecutiveRun(ds: seq<int>, k: int, len: int) {
    1 <= len && 0 <= k && k + len <= |ds|
    && forall j :: k < j < k + len ==> ds[j - 1] - ds[j] == 1
  }

  /** The value `tempStreak` holds after the longest-run loop has looked at
      index `i`: the length of the run that ends there. */
  function RunEndingAt(ds: seq<int>, i: int): (n: nat)
    requires 0 <= i < |ds|
    ensures 1 <= n <= i + 1
  {
    if i == 0 then 1
    else if ds[i - 1] - ds[i] == 1 then RunEndingAt(ds, i - 1) + 1
    else 1
  }

  function Max(a: int, b: int): int {
    if a >= b then a else b
  }

  /** The longest run ending before index `k`. */
  function LongestBelow(ds: seq<int>, k: int): (n: nat)
    requires 0 <= k <= |ds|
  {
    if k == 0 then 0 else Max(LongestBelow(ds, k - 1), RunEndingAt(ds, k - 1))
  }

  function LongestRun(ds: seq<int>): nat {
    LongestBelow(ds, |ds|)
  }

  /** The length of the run that starts at index `i`, counted forwards
      (towards older dates). */
  function RunFrom(ds: seq<int>, i: int): (n: nat)
    requires 0 <= i < |ds|
    decreases |ds| - i
  {
    if i + 1 < |ds| && ds[i] - ds[i + 1] == 1 then 1 + RunFrom(ds, i + 1) else 1
  }

  /** A run counts as current only when its newest day is today or yesterday. */
  function CurrentRun(ds: seq<int>, today: int): nat {
    if |ds| > 0 && (ds[0] == today || ds[0] == today - 1) then RunFrom(ds, 0) else 0
  }

  function StreakOfDates(ds: seq<int>, today: int): Streak {
    Streak(CurrentRun(ds, today), LongestRun(ds))
  }

  /** What `calculateStreak(entries)` returns on day `today` under `t`. */
  function StreakOf(entries: seq<DailyEntry>, t: Template, today: int): (s: Streak)
    ensures s.current <= s.longest
  {
    var ds := QualifyingDates(entries, t);
    LongestAtLeastCurrent(ds, today);
    StreakOfDates(ds, today)
  }

  // ----- The two loops of calculateStreak -----

  method CalculateStreak(entries: seq<DailyEntry>, t: Template, today: int) returns (s: Streak)
    ensures s == StreakOf(entries, t, today)
  {
    if |entries| == 0 {
      assert Qualifying(entries, t) == [];
      return Streak(0, 0);
    }
    var completed := Completed(entries, t);
    if |completed| == 0 {
      return Streak(0, 0);
    }
    s := CountRuns(completed, today);
  }

  /** The two loops over `completedEntries`: the run from the newest day
      while it is current, then the longest run, with `current` folded in. */
  method CountRuns(completed: seq<DailyEntry>, today: int) returns (s: Streak)
    requires |completed| > 0
    ensures s == StreakOfDates(Dates(completed), today)
  {
    ghost var ds := Dates(completed);
    var current := 0;
    if completed[0].date == today || completed[0].date == today - 1 {
      current := 1;
      var i := 1;
      while i < |completed|
        invariant 1 <= i <= |completed|
        invariant current == i
        invariant RunFrom(ds, 0) == current - 1 + RunFrom(ds, i - 1)
      {
        assert completed[i - 1].date == ds[i - 1] && completed[i].date == ds[i];
        if completed[i - 1].date - completed[i].date == 1 {
          current := current + 1;
        } else {
          break;
        }
        i := i + 1;
      }
    }
    assert current == CurrentRun(ds, today);

    var longest := 0;
    var tempStreak := 1;
    var i := 1;
    while i < |completed|
      invariant 1 <= i <= |completed|
      invariant tempStreak == RunEndingAt(ds, i - 1)
      invariant Max(longest, tempStreak) == LongestBelow(ds, i)
    {
      assert completed[i - 1].date == ds[i - 1] && completed[i].date == ds[i];
      LongestStep(ds, i);
      if completed[i - 1].date - completed[i].date == 1 {
        tempStreak := tempStreak + 1;
      } else {
        longest := Max(longest, tempStreak);
        tempStreak := 1;
      }
      i := i + 1;
    }
    LongestAtLeastCurrent(ds, today);
    longest := Max(Max(longest, tempStreak), current);
    return Streak(current, longest);
  }

  // ----- What the runs mean -----

  /** One step of the longest-run loop. */
  lemma LongestStep(ds: seq<int>, i: int)
    requires 1 <= i < |ds|
    ensures RunEndingAt(ds, i) == if ds[i - 1] - ds[i] == 1 then RunEndingAt(ds, i - 1) + 1 else 1
    ensures LongestBelow(ds, i + 1) == Max(LongestBelow(ds, i), RunEndingAt(ds, i))
  {
  }

  lemma {:induction false} RunEndingAtIsRun(ds: seq<int>, i: int)
    requires 0 <= i < |ds|
    ensures ConsecutiveRun(ds, i + 1 - RunEndingAt(ds, i), RunEndingAt(ds, i))
  {
    if i > 0 && ds[i - 1] - ds[i] == 1 {
      RunEndingAtIsRun(ds, i - 1);
    }
  }

  lemma {:induction false} RunEndingAtIsLongest(ds: seq<int>, k: int, len: int)
    requires ConsecutiveRun(ds, k, len)
    ensures len <= RunEndingAt(ds, k + len - 1)
    decreases len
  {
    if len > 1 {
      assert ConsecutiveRun(ds, k, len - 1);
      RunEndingAtIsLongest(ds, k, len - 1);
    }
  }

  lemma {:induction false} LongestBelowIsMax(ds: seq<int>, n: int)
    requires 0 <= n <= |ds|
    ensures forall i :: 0 <= i < n ==> RunEndingAt(ds, i) <= LongestBelow(ds, n)
    ensures n > 0 ==> exists i :: 0 <= i < n && LongestBelow(ds, n) == RunEndingAt(ds, i)
  {
    if n > 0 {
      LongestBelowIsMax(ds, n - 1);
      assert LongestBelow(ds, 0) == 0;
      if LongestBelow(ds, n) != RunEndingAt(ds, n - 1) {
        var i :| 0 <= i < n - 1 && LongestBelow(ds, n - 1) == RunEndingAt(ds, i);
        assert LongestBelow(ds, n) == RunEndingAt(ds, i);
      }
    }
  }

  /** `longest` is the length of a run that occurs, and no run is longer. */
  lemma LongestRunIsMaximal(ds: seq<int>)
    ensures ds == [] <==> LongestRun(ds) == 0
    ensures ds != [] ==> exists k :: ConsecutiveRun(ds, k, LongestRun(ds))
    ensures forall k, len :: ConsecutiveRun(ds, k, len) ==> len <= LongestRun(ds)
  {
    LongestBelowIsMax(ds, |ds|);
    if ds != [] {
      var i :| 0 <= i < |ds| && LongestRun(ds) == RunEndingAt(ds, i);
      RunEndingAtIsRun(ds, i);
      assert RunEndingAt(ds, 0) <= LongestRun(ds);
    }
    forall k, len | ConsecutiveRun(ds, k, len) ensures len <= LongestRun(ds) {
      RunEndingAtIsLongest(ds, k, len);
    }
  }

  lemma {:induction false} RunFromIsMaximalRun(ds: seq<int>, i: int)
    requires 0 <= i < |ds|
    ensures ConsecutiveRun(ds, i, RunFrom(ds, i))
    ensures i + RunFrom(ds, i) == |ds| || ds[i + RunFrom(ds, i) - 1] - ds[i + RunFrom(ds, i)] != 1
    decreases |ds| - i
  {
    if i + 1 < |ds| && ds[i] - ds[i + 1] == 1 {
      RunFromIsMaximalRun(ds, i + 1);
    }
  }

  /** `current` is nonzero exactly when the newest day is today or yesterday,
      and then it is the run from the newest day up to the first gap. */
  lemma CurrentRunIsPrefixRun(ds: seq<int>, today: int)
    ensures CurrentRun(ds, today) > 0 <==> |ds| > 0 && (ds[0] == today || ds[0] == today - 1)
    ensures CurrentRun(ds, today) > 0 ==>
      var c := CurrentRun(ds, today);
      ConsecutiveRun(ds, 0, c) && (c == |ds| || ds[c - 1] - ds[c] != 1)
  {
    if |ds| > 0 {
      RunFromIsMaximalRun(ds, 0);
    }
  }

  lemma LongestAtLeastCurrent(ds: seq<int>, today: int)
    ensures CurrentRun(ds, today) <= LongestRun(ds)
  {
    if CurrentRun(ds, today) > 0 {
      CurrentRunIsPrefixRun(ds, today);
      LongestRunIsMaximal(ds);
    }
  }

  /** The streak is {0, 0} exactly when no day qualifies; otherwise the
      longest run is at least 1 and at least the current one. */
  lemma StreakBounds(entries: seq<DailyEntry>, t: Template, today: int)
    ensures StreakOf(entries, t, today) == Streak(0, 0)
        <==> forall e :: e in entries ==> !Qualifies(e, t)
    ensures StreakOf(entries, t, today).current <= StreakOf(entries, t, today).longest
  {
    var q := Qualifying(entries, t);
    var ds := QualifyingDates(entries, t);
    LongestRunIsMaximal(ds);
    LongestAtLeastCurrent(ds, today);
    if q != [] {
      assert q[0] in multiset(SortByDate(q));
    }
  }

  // ----- Order independence -----

  /** Removing one entry keeps a list newest first. */
  lemma RemoveKeepsSorted(b: seq<DailyEntry>, k: int)
    requires SortedDesc(b) && 0 <= k < |b|
    ensures SortedDesc(b[..k] + b[k + 1..])
  {
    var b' := b[..k] + b[k + 1..];
    forall i, j | 0 <= i < j < |b'| ensures b'[i].date >= b'[j].date {
      var i0 := if i < k then i else i + 1;
      var j0 := if j < k then j else j + 1;
      assert b'[i] == b[i0] && b'[j] == b[j0];
    }
  }

  /** In a newest-first list whose entry `k` is as new as the first, every
      entry up to `k` has that date. */
  lemma PrefixSameDate(b: seq<DailyEntry>, k: int)
    requires SortedDesc(b) && 0 <= k < |b| && b[k].date == b[0].date
    ensures forall i :: 0 <= i <= k ==> b[i].date == b[k].date
  {
    forall i | 0 <= i <= k ensures b[i].date == b[k].date {
      assert b[0].date >= b[i].date >= b[k].date;
    }
  }

  /** When the entries up to `k` share one date, taking entry `k` out and
      putting its date in front lists the same dates. */
  lemma {:induction false} DatesAfterRemoval(b: seq<DailyEntry>, k: int)
    requires 0 <= k < |b|
    requires forall i :: 0 <= i <= k ==> b[i].date == b[k].date
    ensures Dates(b) == [b[k].date] + Dates(b[..k] + b[k + 1..])
  {
    if k == 0 {
      assert b[..k] + b[k + 1..] == b[1..];
    } else {
      var rest := b[1..][..k - 1] + b[1..][k..];
      DatesAfterRemoval(b[1..], k - 1);
      assert b[..k] + b[k + 1..] == [b[0]] + rest;
      assert ([b[0]] + rest)[1..] == rest;
    }
  }

  /** Taking the first entry of `a` out of `a` and the same entry out of a
      permutation `b` of `a` leaves permutations of each other. */
  lemma RemoveFromBoth(a: seq<DailyEntry>, b: seq<DailyEntry>, k: int)
    requires multiset(a) == multiset(b)
    requires a != [] && 0 <= k < |b| && b[k] == a[0]
    ensures multiset(a[1..]) == multiset(b[..k] + b[k + 1..])
  {
    assert a == [a[0]] + a[1..];
    assert b == b[..k] + [b[k]] + b[k + 1..];
    assert multiset(a[1..]) == multiset(a) - multiset{a[0]};
    assert multiset(b[..k] + b[k + 1..]) == multiset(b) - multiset{b[k]};
  }

  /** Two newest-first orderings of the same entries list the same dates. */
  lemma {:induction false} SortedDatesUnique(a: seq<DailyEntry>, b: seq<DailyEntry>)
    requires SortedDesc(a) && SortedDesc(b)
    requires multiset(a) == multiset(b)
    ensures Dates(a) == Dates(b)
    decreases |a|
  {
    assert |a| == |multiset(a)| == |b|;
    if a != [] {
      assert a[0] in multiset(b);
      assert b[0] in multiset(a);
      var k :| 0 <= k < |b| && b[k] == a[0];
      var b' := b[..k] + b[k + 1..];
      assert Dates(a[1..]) == Dates(b') by {
        RemoveFromBoth(a, b, k);
        RemoveKeepsSorted(b, k);
        SortedDatesUnique(a[1..], b');
      }
      PrefixSameDate(b, k);
      DatesAfterRemoval(b, k);
    }
  }

  /** Only the qualifying days, not their order or the other days, decide
      the streak dates. */
  lemma SameQualifyingSameDates(a: seq<DailyEntry>, b: seq<DailyEntry>, t: Template)
    requires multiset(Qualifying(a, t)) == multiset(Qualifying(b, t))
    ensures QualifyingDates(a, t) == QualifyingDates(b, t)
  {
    SortedDatesUnique(Completed(a, t), Completed(b, t));
  }

  /** The streak does not depend on the order entries are stored in. */
  lemma StreakOrderIndependent(a: seq<DailyEntry>, b: seq<DailyEntry>, t: Template, today: int)
    requires multiset(a) == multiset(b)
    ensures StreakOf(a, t, today) == StreakOf(b, t, today)
  {
    assert multiset(Qualifying(a, t)) == multiset(Qualifying(b, t));
    SameQualifyingSameDates(a, b, t);
  }

  /** A day below the threshold changes nothing: it breaks a run exactly as
      a day with no entry does. */
  lemma BelowThresholdIgnored(entries: seq<DailyEntry>, e: DailyEntry, t: Template, today: int)
    requires !Qualifies(e, t)
    ensures StreakOf(entries + [e], t, today) == StreakOf(entries, t, today)
  {
    assert multiset(Qualifying(entries + [e], t)) == multiset(Qualifying(entries, t));
    SameQualifyingSameDates(entries + [e], entries, t);
  }

  // ----- The dated cases of lib/__tests__/storage.test.ts -----

  /** Tests 1-4 and 12: no day, and a single day today, yesterday or two days ago. */
  lemma StreakSingleDays(t: int)
    ensures StreakOfDates([], t) == Streak(0, 0)
    ensures StreakOfDates([t], t) == Streak(1, 1)
    ensures StreakOfDates([t - 1], t) == Streak(1, 1)
    ensures StreakOfDates([t - 2], t) == Streak(0, 1)
  {
    assert LongestBelow([t], 0) == 0 && LongestBelow([t - 1], 0) == 0 && LongestBelow([t - 2], 0) == 0;
  }

  /** Test 7: a gap two days back stops the current run. */
  lemma StreakStopsAtGap(t: int)
    ensures StreakOfDates([t, t - 1, t - 3, t - 4], t) == Streak(2, 2)
  {
    var ds := [t, t - 1, t - 3, t - 4];
    assert RunFrom(ds, 1) == 1;
    assert RunEndingAt(ds, 1) == 2 && RunEndingAt(ds, 2) == 1 && RunEndingAt(ds, 3) == 2;
    assert LongestBelow(ds, 0) == 0 && LongestBelow(ds, 1) == 1 && LongestBelow(ds, 2) == 2;
    assert LongestBelow(ds, 3) == 2;
  }

  /** Test 8: an older run of three outlasts the current run of one. */
  lemma StreakHistoricalLonger(t: int)
    ensures StreakOfDates([t, t - 5, t - 6, t - 7], t) == Streak(1, 3)
  {
    var ds := [t, t - 5, t - 6, t - 7];
    assert RunEndingAt(ds, 1) == 1 && RunEndingAt(ds, 2) == 2 && RunEndingAt(ds, 3) == 3;
    assert LongestBelow(ds, 0) == 0 && LongestBelow(ds, 1) == 1 && LongestBelow(ds, 2) == 1;
    assert LongestBelow(ds, 3) == 2;
  }

  /** Test 11: runs of 2, 4 and 2 days. */
  lemma StreakSeveralRuns(t: int)
    ensures StreakOfDates([t, t - 1, t - 5, t - 6, t - 7, t - 8, t - 12, t - 13], t) == Streak(2, 4)
  {
    var ds := [t, t - 1, t - 5, t - 6, t - 7, t - 8, t - 12, t - 13];
    assert RunFrom(ds, 1) == 1;
    assert RunEndingAt(ds, 1) == 2 && RunEndingAt(ds, 2) == 1 && RunEndingAt(ds, 3) == 2;
    assert RunEndingAt(ds, 4) == 3 && RunEndingAt(ds, 5) == 4 && RunEndingAt(ds, 6) == 1;
    assert RunEndingAt(ds, 7) == 2;
    assert LongestBelow(ds, 0) == 0 && LongestBelow(ds, 1) == 1 && LongestBelow(ds, 2) == 2;
    assert LongestBelow(ds, 3) == 2 && LongestBelow(ds, 4) == 2 && LongestBelow(ds, 5) == 3;
    assert LongestBelow(ds, 6) == 4 && LongestBelow(ds, 7) == 4;
  }

  /** The fixtures of lib/__tests__/storage.test.ts: two sections of two
      items, and a "completed" day with all four items checked and no
      fibre or water recorded. */
  const TestTemplate: Template := Template([
    TemplateSection("Activity", [TemplateItem("a1", "Test Activity 1", true), TemplateItem("a2", "Test Activity 2", true)], Some(2)),
    TemplateSection("Diet", [TemplateItem("d1", "Test Diet 1", true), TemplateItem("d2", "Test Diet 2", true)], Some(2))
  ])

  function TestCompletedEntry(date: int): DailyEntry {
    DailyEntry(date, [
      DailySection("Activity", [CheckedItem("a1", true, None), CheckedItem("a2", true, None)], true),
      DailySection("Diet", [CheckedItem("d1", true, None), CheckedItem("d2", true, None)], true)
    ], true, None, None, None)
  }

  /** The score always counts the fibre and water points, so that fixture
      earns 4 of 6 points, below the streak threshold: a list of such days has no
      streak at all. */
  lemma TestFixtureBelowThreshold(date: int, today: int)
    ensures DailyScore(TestCompletedEntry(date), TestTemplate) == 4.0 / 6.0
    ensures !Qualifies(TestCompletedEntry(date), TestTemplate)
    ensures StreakOf([TestCompletedEntry(date)], TestTemplate, today) == Streak(0, 0)
  {
    var e := TestCompletedEntry(date);
    assert e.sections[1..][1..] == [];
    assert CheckedCount(e) == 4;
    assert TestTemplate.sections[1..][1..] == [];
    assert MaxPoints(TestTemplate) == 6;
    StreakBounds([e], TestTemplate, today);
  }
}
