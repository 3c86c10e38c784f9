/** The badges of lib/achievements.ts: a fixed catalog of thirteen
    threshold conditions over five statistics, the statistics themselves,
    the choice of newly earned badges, and the streak emoji and milestone
    texts. */
module Achievements {
  import opened Types
  import opened Utils

  datatype Tier = Beginner | Intermediate | Advanced | Special

  /** Each catalog condition compares one statistic with a threshold. */
  datatype Condition =
    | TotalDaysAtLeast(n: int)
    | LongestStreakAtLeast(n: int)
    | PerfectDaysAtLeast(n: int)
    | DaysAbove80AtLeast(n: int)

  datatype Achievement = Achievement(
    id: string, name: string, description: string, emoji: string, tier: Tier, condition: Condition)

  datatype AchievementStats = AchievementStats(
    currentStreak: int, longestStreak: int, totalDays: int, perfectDays: int, daysAbove80: int)

  predicate Holds(c: Condition, s: AchievementStats) {
    match c
    case TotalDaysAtLeast(n) => s.totalDays >= n
    case LongestStreakAtLeast(n) => s.longestStreak >= n
    case PerfectDaysAtLeast(n) => s.perfectDays >= n
    case DaysAbove80AtLeast(n) => s.daysAbove80 >= n
  }

  const Catalog: seq<Achievement> := [
    Achievement("prima-zi", "Prima Zi", "Completează prima zi", "⭐", Beginner, TotalDaysAtLeast(1)),
    Achievement("inceput-bun", "Început Bun", "3 zile la rând", "🌱", Beginner, LongestStreakAtLeast(3)),
    Achievement("o-saptamana", "O Săptămână!", "7 zile la rând", "💪", Beginner, LongestStreakAtLeast(7)),
    Achievement("doua-saptamani", "Două Săptămâni", "14 zile la rând", "🔥", Intermediate, LongestStreakAtLeast(14)),
    Achievement("consistent", "Consistent", "21 zile la rând - formează un obicei", "🎯", Intermediate, LongestStreakAtLeast(21)),
    Achievement("o-luna", "O Lună Întreagă", "30 zile la rând", "🌟", Intermediate, LongestStreakAtLeast(30)),
    Achievement("dedicat", "Dedicat", "60 zile la rând", "💎", Advanced, LongestStreakAtLeast(60)),
    Achievement("expert", "Expert", "90 zile la rând", "👑", Advanced, LongestStreakAtLeast(90)),
    Achievement("campion", "Campion", "180 zile la rând", "🏆", Advanced, LongestStreakAtLeast(180)),
    Achievement("legenda", "Legendă", "365 zile la rând - un an complet!", "\U{1F396}\U{FE0F}", Advanced, LongestStreakAtLeast(365)),
    Achievement("perfectionist", "Perfectionist", "Prima zi cu 100% completare", "✨", Special, PerfectDaysAtLeast(1)),
    Achievement("artist", "Artist", "10 zile perfecte", "🎨", Special, PerfectDaysAtLeast(10)),
    Achievement("transformare", "Transformare", "30 zile cu 80%+ completare", "🚀", Special, DaysAbove80AtLeast(30))
  ]

  ghost predicate DistinctIds(cat: seq<Achievement>) {
    forall i, j :: 0 <= i < j < |cat| ==> cat[i].id != cat[j].id
  }

  /** Thirteen badges, no two with the same id: no two ids share both
      their length and their first letter. */
  lemma CatalogIdsDistinct()
    ensures |Catalog| == 13
    ensures DistinctIds(Catalog)
  {
    forall i, j | 0 <= i < j < 13
      ensures |Catalog[i].id| != |Catalog[j].id| || Catalog[i].id[0] != Catalog[j].id[0]
    {
    }
  }

  /** Badges 2 to 10 are the streak badges; they ask for 3, 7, 14, 21, 30,
      60, 90, 180 and 365 days, each more than the one before. */
  lemma CatalogStreakThresholds()
    ensures forall i :: 0 <= i < |Catalog| ==> (Catalog[i].condition.LongestStreakAtLeast? <==> 1 <= i <= 9)
    ensures seq(9, k requires 0 <= k < 9 => Catalog[k + 1].condition.n) == [3, 7, 14, 21, 30, 60, 90, 180, 365]
    ensures forall i, j :: 1 <= i < j <= 9 ==> Catalog[i].condition.n < Catalog[j].condition.n
  {
  }

  /** Every condition of the catalog asks for at least 1. */
  lemma CatalogThresholdsPositive()
    ensures forall i :: 0 <= i < |Catalog| ==> Catalog[i].condition.n >= 1
  {
  }

  // ----- calculateAchievementStats -----

  /** `entries.filter(e => calculateDailyScore(e, template) === 1).length`:
      the number of positions holding a day that scores exactly 1. */
  function CountPerfect(entries: seq<DailyEntry>, t: Template): (n: nat)
    ensures n == |set i | 0 <= i < |entries| && DailyScore(entries[i], t) == 1.0|
    ensures n <= |entries|
  {
    if entries == [] then 0
    else
      var k := |entries| - 1;
      var front := entries[..k];
      assert (set i | 0 <= i < |entries| && DailyScore(entries[i], t) == 1.0)
          == (set i | 0 <= i < |front| && DailyScore(front[i], t) == 1.0)
             + (if DailyScore(entries[k], t) == 1.0 then {k} else {});
      CountPerfect(front, t) + (if DailyScore(entries[k], t) == 1.0 then 1 else 0)
  }

  /** `entries.filter(e => calculateDailyScore(e, template) >= 0.8).length`:
      the number of positions holding a day that scores at least 0.8. */
  function CountAbove80(entries: seq<DailyEntry>, t: Template): (n: nat)
    ensures n == |set i | 0 <= i < |entries| && DailyScore(entries[i], t) >= 0.8|
    ensures n <= |entries|
  {
    if entries == [] then 0
    else
      var k := |entries| - 1;
      var front := entries[..k];
      assert (set i | 0 <= i < |entries| && DailyScore(entries[i], t) >= 0.8)
          == (set i | 0 <= i < |front| && DailyScore(front[i], t) >= 0.8)
             + (if DailyScore(entries[k], t) >= 0.8 then {k} else {});
      CountAbove80(front, t) + (if DailyScore(entries[k], t) >= 0.8 then 1 else 0)
  }

  /** A perfect day is also a day at 80% or more. */
  lemma {:induction false} PerfectAtMostAbove80(entries: seq<DailyEntry>, t: Template)
    ensures CountPerfect(entries, t) <= CountAbove80(entries, t)
  {
    if entries != [] {
      PerfectAtMostAbove80(entries[..|entries| - 1], t);
    }
  }

  /** The streak fields pass through; the total is the number of entries,
      the perfect days those scoring exactly 1 and the 80% days those
      scoring at least 0.8, so perfect <= at-least-80% <= all. */
  function CalculateAchievementStats(entries: seq<DailyEntry>, t: Template, currentStreak: int, longestStreak: int)
    : (r: AchievementStats)
    ensures r.currentStreak == currentStreak && r.longestStreak == longestStreak
    ensures r.totalDays == |entries|
    ensures r.perfectDays == |set i | 0 <= i < |entries| && DailyScore(entries[i], t) == 1.0|
    ensures r.daysAbove80 == |set i | 0 <= i < |entries| && DailyScore(entries[i], t) >= 0.8|
    ensures 0 <= r.perfectDays <= r.daysAbove80 <= r.totalDays
  {
    PerfectAtMostAbove80(entries, t);
    AchievementStats(currentStreak, longestStreak, |entries|, CountPerfect(entries, t), CountAbove80(entries, t))
  }

  // ----- checkNewAchievements -----

  /** The badges of `cat`, in order, that are not unlocked yet and whose
      condition holds. */
  function Unlockable(cat: seq<Achievement>, stats: AchievementStats, unlockedIds: seq<string>): (r: seq<Achievement>)
    ensures |r| <= |cat|
  {
    if cat == [] then []
    else
      var last := cat[|cat| - 1];
      Unlockable(cat[..|cat| - 1], stats, unlockedIds)
        + (if last.id !in unlockedIds && Holds(last.condition, stats) then [last] else [])
  }

  method CheckNewAchievements(stats: AchievementStats, unlockedIds: seq<string>) returns (r: seq<Achievement>)
    ensures r == Unlockable(Catalog, stats, unlockedIds)
  {
    r := [];
    for i := 0 to |Catalog|
      invariant r == Unlockable(Catalog[..i], stats, unlockedIds)
    {
      var achievement := Catalog[i];
      ghost var prefix := Catalog[..i + 1];
      assert prefix[..i] == Catalog[..i] && prefix[i] == achievement;
      if achievement.id !in unlockedIds && Holds(achievement.condition, stats) {
        r := r + [achievement];
      }
    }
    assert Catalog[..|Catalog|] == Catalog;
  }

  /** A badge is chosen exactly when it is in the catalog, not yet unlocked,
      and its condition holds. */
  lemma {:induction false} UnlockableMembers(cat: seq<Achievement>, stats: AchievementStats, unlockedIds: seq<string>)
    ensures forall a :: (a in Unlockable(cat, stats, unlockedIds)
      <==> a in cat && a.id !in unlockedIds && Holds(a.condition, stats))
  {
    if cat != [] {
      var init := cat[..|cat| - 1];
      UnlockableMembers(init, stats, unlockedIds);
      assert cat == init + [cat[|cat| - 1]];
    }
  }

  /** The first index of a badge with this id, or |cat|. */
  function IndexOfId(cat: seq<Achievement>, id: string): (k: nat)
    ensures k <= |cat|
    ensures k < |cat| ==> cat[k].id == id
    ensures forall j :: 0 <= j < k ==> cat[j].id != id
  {
    if cat == [] then 0
    else if cat[0].id == id then 0
    else 1 + IndexOfId(cat[1..], id)
  }

  /** The chosen badges keep the catalog's order. */
  lemma {:induction false} UnlockableInCatalogOrder(cat: seq<Achievement>, n: nat, stats: AchievementStats, unlockedIds: seq<string>)
    requires DistinctIds(cat) && n <= |cat|
    ensures forall i :: 0 <= i < |Unlockable(cat[..n], stats, unlockedIds)| ==>
      IndexOfId(cat, Unlockable(cat[..n], stats, unlockedIds)[i].id) < n
    ensures forall i, j :: 0 <= i < j < |Unlockable(cat[..n], stats, unlockedIds)| ==>
      IndexOfId(cat, Unlockable(cat[..n], stats, unlockedIds)[i].id)
        < IndexOfId(cat, Unlockable(cat[..n], stats, unlockedIds)[j].id)
  {
    if n > 0 {
      var r := Unlockable(cat[..n], stats, unlockedIds);
      assert cat[..n][..n - 1] == cat[..n - 1];
      var r0 := Unlockable(cat[..n - 1], stats, unlockedIds);
      var last := cat[n - 1];
      UnlockableInCatalogOrder(cat, n - 1, stats, unlockedIds);
      if last.id !in unlockedIds && Holds(last.condition, stats) {
        assert r == r0 + [last];
        assert IndexOfId(cat, last.id) == n - 1;
        forall i, j | 0 <= i < j < |r| ensures IndexOfId(cat, r[i].id) < IndexOfId(cat, r[j].id) {
          assert r[i] == r0[i];
          if j < |r0| {
            assert r[j] == r0[j];
          }
        }
      } else {
        assert r == r0;
      }
    }
  }

  /** After the chosen ids are added to the unlocked list, the same stats
      choose nothing more. */
  lemma NothingNewTwice(cat: seq<Achievement>, stats: AchievementStats, unlockedIds: seq<string>, added: seq<string>)
    requires forall a :: a in Unlockable(cat, stats, unlockedIds) ==> a.id in added
    ensures Unlockable(cat, stats, unlockedIds + added) == []
  {
    UnlockableMembers(cat, stats, unlockedIds);
    UnlockableMembers(cat, stats, unlockedIds + added);
  }

  /** With every catalog id unlocked, nothing is chosen. */
  lemma AllUnlockedChoosesNothing(cat: seq<Achievement>, stats: AchievementStats, unlockedIds: seq<string>)
    requires forall a :: a in cat ==> a.id in unlockedIds
    ensures Unlockable(cat, stats, unlockedIds) == []
  {
    UnlockableMembers(cat, stats, unlockedIds);
  }

  /** Every condition asks for at least one day, so all-zero stats earn
      nothing. */
  lemma ZeroStatsChooseNothing(cat: seq<Achievement>, unlockedIds: seq<string>)
    requires forall i :: 0 <= i < |cat| ==> cat[i].condition.n >= 1
    ensures Unlockable(cat, AchievementStats(0, 0, 0, 0, 0), unlockedIds) == []
  {
    UnlockableMembers(cat, AchievementStats(0, 0, 0, 0, 0), unlockedIds);
  }

  lemma ZeroStatsChooseNothingInCatalog(unlockedIds: seq<string>)
    ensures Unlockable(Catalog, AchievementStats(0, 0, 0, 0, 0), unlockedIds) == []
  {
    CatalogThresholdsPositive();
    ZeroStatsChooseNothing(Catalog, unlockedIds);
  }

  predicate AtMost(s: AchievementStats, s': AchievementStats) {
    s.currentStreak <= s'.currentStreak && s.longestStreak <= s'.longestStreak
    && s.totalDays <= s'.totalDays && s.perfectDays <= s'.perfectDays && s.daysAbove80 <= s'.daysAbove80
  }

  /** Larger stats keep every condition that held. */
  lemma ConditionsMonotone(c: Condition, s: AchievementStats, s': AchievementStats)
    requires AtMost(s, s') && Holds(c, s)
    ensures Holds(c, s')
  {
  }

  /** So every badge chosen for smaller stats is chosen for larger ones with
      the same unlocked list. */
  lemma UnlockableMonotone(cat: seq<Achievement>, stats: AchievementStats, stats': AchievementStats, unlockedIds: seq<string>)
    requires AtMost(stats, stats')
    ensures forall a :: a in Unlockable(cat, stats, unlockedIds) ==> a in Unlockable(cat, stats', unlockedIds)
  {
    UnlockableMembers(cat, stats, unlockedIds);
    UnlockableMembers(cat, stats', unlockedIds);
    forall a | a in Unlockable(cat, stats, unlockedIds) ensures a in Unlockable(cat, stats', unlockedIds) {
      ConditionsMonotone(a.condition, stats, stats');
    }
  }

  // ----- getStreakEmoji and getStreakMilestone -----

  const Flame: char := '🔥'

  /** No flame exactly at 0; otherwise one below 7 (a negative streak
      included, as `streak === 0` is the only empty case), two from 7 to 29
      and three from 30 on. */
  function StreakEmoji(streak: int): (r: string)
    ensures forall i :: 0 <= i < |r| ==> r[i] == Flame
    ensures r == "" <==> streak == 0
    ensures streak != 0 && streak < 7 ==> |r| == 1
    ensures 7 <= streak < 30 ==> |r| == 2
    ensures streak >= 30 ==> |r| == 3
  {
    if streak == 0 then ""
    else if streak < 7 then [Flame]
    else if streak < 30 then [Flame, Flame]
    else [Flame, Flame, Flame]
  }

  /** The flames never decrease as a non-negative streak grows, and there
      are none only at 0. */
  lemma StreakEmojiMonotone(a: int, b: int)
    requires 0 <= a <= b
    ensures |StreakEmoji(a)| <= |StreakEmoji(b)| <= 3
    ensures StreakEmoji(a) == "" <==> a == 0
  {
  }

  /** The cases of lib/__tests__/achievements.test.ts. */
  lemma StreakEmojiExamples()
    ensures StreakEmoji(0) == ""
    ensures |StreakEmoji(1)| == 1 && |StreakEmoji(6)| == 1
    ensures |StreakEmoji(7)| == 2 && |StreakEmoji(29)| == 2
    ensures |StreakEmoji(30)| == 3 && |StreakEmoji(100)| == 3
  {
  }

  const Milestones: seq<int> := [7, 14, 21, 30, 60, 90, 180, 365]

  const MilestoneSuffix: string := " zile la rând! Incredibil! 🎉"

  /** A message only on the milestone days; it starts with the day count
      in decimal, followed by a space. */
  function StreakMilestone(streak: int): (r: Option<string>)
    ensures r.Some? <==> streak in Milestones
    ensures r.Some? ==> (streak >= 0
      && var digits := NatToString(streak);
      |digits| < |r.value| && r.value[..|digits|] == digits
      && DigitsValue(r.value[..|digits|]) == streak
      && r.value[|digits|] == ' ')
  {
    if streak in Milestones then
      DigitsValueOfNatToString(streak);
      Some(NatToString(streak) + MilestoneSuffix)
    else None
  }

  lemma StreakMilestoneExamples()
    ensures StreakMilestone(7).Some? && StreakMilestone(365).Some?
    ensures StreakMilestone(5).None? && StreakMilestone(8).None? && StreakMilestone(100).None?
  {
  }

  // ----- The two-item fixture -----

  const FixtureTemplate: Template := Template([
    TemplateSection("Activity", [TemplateItem("a1", "Test", true), TemplateItem("a2", "Test", true)], Some(2))
  ])

  /** A day of the two-item fixture, with both items checked or neither,
      and no fibre or water recorded. */
  function FixtureEntry(date: int, complete: bool): DailyEntry {
    DailyEntry(date, [
      DailySection("Activity", [CheckedItem("a1", complete, None), CheckedItem("a2", complete, None)], complete)
    ], complete, None, None, None)
  }

  /** With the fibre and water points in the score, a fully checked day of
      that fixture earns 2 of 4 points, so neither it nor an unchecked day
      counts as perfect or as 80%. */
  lemma FixtureStats(d1: int, d2: int, d3: int)
    ensures DailyScore(FixtureEntry(d1, true), FixtureTemplate) == 0.5
    ensures CalculateAchievementStats([FixtureEntry(d1, true), FixtureEntry(d2, true), FixtureEntry(d3, false)],
                                      FixtureTemplate, 2, 2)
         == AchievementStats(2, 2, 3, 0, 0)
  {
    var t := FixtureTemplate;
    assert t.sections[1..] == [];
    assert MaxPoints(t) == 4;
    forall d: int, c: bool ensures DailyScore(FixtureEntry(d, c), t) == if c then 0.5 else 0.0 {
      var e := FixtureEntry(d, c);
      assert e.sections[1..] == [];
      assert e.sections[0].items[1..][1..] == [];
      assert CheckedIn(e.sections[0].items) == if c then 2 else 0;
      assert SectionsChecked(e.sections[1..]) == 0;
      assert CheckedCount(e) == if c then 2 else 0;
      assert TargetPoint(e.fiber, FiberDefaultTarget) == 0 && TargetPoint(e.water, WaterDefaultTarget) == 0;
      assert EarnedPoints(e) == if c then 2 else 0;
    }
    var es := [FixtureEntry(d1, true), FixtureEntry(d2, true), FixtureEntry(d3, false)];
    assert DailyScore(es[0], t) == 0.5 && DailyScore(es[1], t) == 0.5 && DailyScore(es[2], t) == 0.0;
    assert (set i | 0 <= i < |es| && DailyScore(es[i], t) >= 0.8) == {};
    assert (set i | 0 <= i < |es| && DailyScore(es[i], t) == 1.0) == {};
  }
}
