/** Scoring and formatting helpers of the tracker (lib/utils.ts): the date
    formatter, creation of an empty day, section and day completion, the
    daily score and the completion-rate percentages. */
module Utils {
  import opened Types

  /** The default fibre and water targets (25 g, 1.5 L). */
  const FiberDefaultTarget: real := 25.0
  const WaterDefaultTarget: real := 1.5

  /** The score a day needs to count as complete. */
  const DayCompleteThreshold: real := 0.8

  // ---------------------------------------------------------------------
  // Decimal text and formatDate
  // ---------------------------------------------------------------------

  predicate IsDigit(c: char) {
    '0' <= c <= '9'
  }

  predicate AllDigits(s: string) {
    forall i :: 0 <= i < |s| ==> IsDigit(s[i])
  }

  function DigitChar(d: nat): (c: char)
    requires d < 10
    ensures IsDigit(c) && (c as int) - ('0' as int) == d
  {
    ('0' as int + d) as char
  }

  /** `String(n)` for a non-negative integer: decimal, no leading zeros. */
  function NatToString(n: nat): (s: string)
    ensures 1 <= |s| && AllDigits(s)
  {
    if n < 10 then [DigitChar(n)] else NatToString(n / 10) + [DigitChar(n % 10)]
  }

  /** The number a string of decimal digits denotes. */
  function DigitsValue(s: string): nat
    requires AllDigits(s)
  {
    if s == [] then 0 else DigitsValue(s[..|s| - 1]) * 10 + ((s[|s| - 1] as int) - ('0' as int))
  }

  lemma {:induction false} DigitsValueOfNatToString(n: nat)
    ensures DigitsValue(NatToString(n)) == n
  {
    if n >= 10 {
      var s := NatToString(n);
      assert s[..|s| - 1] == NatToString(n / 10);
      DigitsValueOfNatToString(n / 10);
    }
  }

  lemma {:induction false} NatToStringLength(n: nat)
    ensures n < 10 ==> |NatToString(n)| == 1
    ensures 10 <= n < 100 ==> |NatToString(n)| == 2
    ensures 100 <= n < 1000 ==> |NatToString(n)| == 3
    ensures 1000 <= n < 10000 ==> |NatToString(n)| == 4
  {
    if n >= 10 {
      NatToStringLength(n / 10);
    }
  }

  /** `padStart(2, '0')`. */
  function PadStart2(s: string): (r: string)
    ensures |s| >= 2 ==> r == s
    ensures |s| < 2 ==> |r| == 2 && r[2 - |s|..] == s && forall i :: 0 <= i < 2 - |s| ==> r[i] == '0'
  {
    if |s| >= 2 then s else seq(2 - |s|, _ => '0') + s
  }

  /** The two-digit, zero-padded text of a month or day number. */
  lemma PaddedTwoDigits(n: nat)
    requires n < 100
    ensures var p := PadStart2(NatToString(n)); |p| == 2 && AllDigits(p) && DigitsValue(p) == n
  {
    NatToStringLength(n);
    DigitsValueOfNatToString(n);
    var s := NatToString(n);
    var p := PadStart2(s);
    if n < 10 {
      assert p == ['0'] + s;
      assert p[..1] == ['0'];
      assert p[..1][..0] == [];
    }
  }

  /** formatDate: the year as written, then month (getMonth() + 1) and
      day, each padded to two digits, joined by '-'. */
  function FormatDate(d: CivilDate): (r: string)
    ensures var y := NatToString(d.year);
      |r| >= |y| + 6 && r[..|y|] == y && r[|y|] == '-'
  {
    NatToString(d.year) + "-" + PadStart2(NatToString(d.month + 1)) + "-" + PadStart2(NatToString(d.day))
  }

  /** The dates whose text has the ten-character `YYYY-MM-DD` shape. */
  predicate FourDigitDate(d: CivilDate) {
    1000 <= d.year <= 9999 && d.month < 12 && 1 <= d.day <= 31
  }

  /** Reads `YYYY-MM-DD` back into a calendar date (month 0-based). */
  function ParseDate(s: string): Option<CivilDate>
  {
    if |s| == 10 && s[4] == '-' && s[7] == '-'
       && AllDigits(s[..4]) && AllDigits(s[5..7]) && AllDigits(s[8..])
       && DigitsValue(s[5..7]) >= 1
    then Some(CivilDate(DigitsValue(s[..4]), DigitsValue(s[5..7]) - 1, DigitsValue(s[8..])))
    else None
  }

  lemma FormatDateShape(d: CivilDate)
    requires FourDigitDate(d)
    ensures var s := FormatDate(d);
      && |s| == 10 && s[4] == '-' && s[7] == '-'
      && s[..4] == NatToString(d.year)
      && s[5..7] == PadStart2(NatToString(d.month + 1))
      && s[8..] == PadStart2(NatToString(d.day))
  {
    NatToStringLength(d.year);
    PaddedTwoDigits(d.month + 1);
    PaddedTwoDigits(d.day);
    var y := NatToString(d.year);
    var m := PadStart2(NatToString(d.month + 1));
    var dd := PadStart2(NatToString(d.day));
    var s := FormatDate(d);
    assert s == y + "-" + m + "-" + dd;
    assert s[..4] == y && s[5..7] == m && s[8..] == dd;
  }

  /** Parsing the formatted text gives the date back. */
  lemma ParseFormatRoundTrip(d: CivilDate)
    requires FourDigitDate(d)
    ensures ParseDate(FormatDate(d)) == Some(d)
  {
    FormatDateShape(d);
    DigitsValueOfNatToString(d.year);
    PaddedTwoDigits(d.month + 1);
    PaddedTwoDigits(d.day);
  }

  /** Two four-digit-year dates with the same text are the same date. */
  lemma FormatDateInjective(a: CivilDate, b: CivilDate)
    requires FourDigitDate(a) && FourDigitDate(b)
    requires FormatDate(a) == FormatDate(b)
    ensures a == b
  {
    ParseFormatRoundTrip(a);
    ParseFormatRoundTrip(b);
  }

  // ---------------------------------------------------------------------
  // createEmptyEntry
  // ---------------------------------------------------------------------

  /** The day's sections follow the template: same names and item ids, in
      the same order. */
  ghost predicate SectionsMatch(ds: seq<DailySection>, ts: seq<TemplateSection>) {
    && |ds| == |ts|
    && forall k :: 0 <= k < |ds| ==>
         && ds[k].sectionName == ts[k].name
         && |ds[k].items| == |ts[k].items|
         && forall j :: 0 <= j < |ds[k].items| ==> ds[k].items[j].id == ts[k].items[j].id
  }

  ghost predicate MatchesTemplate(e: DailyEntry, t: Template) {
    SectionsMatch(e.sections, t.sections)
  }

  ghost predicate NoneChecked(e: DailyEntry) {
    forall k, j :: 0 <= k < |e.sections| && 0 <= j < |e.sections[k].items| ==>
      !e.sections[k].items[j].checked && e.sections[k].items[j].timestamp == None
  }

  ghost predicate AllChecked(e: DailyEntry) {
    forall k, j :: 0 <= k < |e.sections| && 0 <= j < |e.sections[k].items| ==> e.sections[k].items[j].checked
  }

  function EmptySection(ts: TemplateSection): DailySection
  {
    DailySection(ts.name, seq(|ts.items|, j requires 0 <= j < |ts.items| => CheckedItem(ts.items[j].id, false, None)), false)
  }

  /** createEmptyEntry: one unchecked section per template section, both
      completion flags false, fibre and water at zero with default targets. */
  function CreateEmptyEntry(date: int, template: Template): (e: DailyEntry)
    ensures e.date == date && !e.dayComplete
    ensures MatchesTemplate(e, template)
    ensures NoneChecked(e)
    ensures forall k :: 0 <= k < |e.sections| ==> !e.sections[k].sectionComplete
    ensures e.fiber == Some(Target(0.0, FiberDefaultTarget))
    ensures e.water == Some(Target(0.0, WaterDefaultTarget))
    ensures e.notes == Some("")
  {
    DailyEntry(
      date,
      seq(|template.sections|, k requires 0 <= k < |template.sections| => EmptySection(template.sections[k])),
      false,
      Some(Target(0.0, FiberDefaultTarget)),
      Some(Target(0.0, WaterDefaultTarget)),
      Some(""))
  }

  // ---------------------------------------------------------------------
  // checkSectionComplete
  // ---------------------------------------------------------------------

  /** The number of checked items (`items.filter(i => i.checked).length`). */
  function CheckedIn(items: seq<CheckedItem>): (n: nat)
    ensures n <= |items|
  {
    if items == [] then 0 else (if items[0].checked then 1 else 0) + CheckedIn(items[1..])
  }

  function RequiredCount(items: seq<TemplateItem>): (n: nat)
    ensures n <= |items|
  {
    if items == [] then 0 else (if items[0].required then 1 else 0) + RequiredCount(items[1..])
  }

  /** `sections.find(s => s.name === name)`, as the index of the first
      match, or -1. */
  function IndexOfSection(sections: seq<TemplateSection>, name: string): (k: int)
    ensures -1 <= k < |sections|
    ensures 0 <= k ==> sections[k].name == name
    ensures forall j :: 0 <= j < |sections| && (k < 0 || j < k) ==> sections[j].name != name
  {
    if sections == [] then -1
    else if sections[0].name == name then 0
    else
      var k := IndexOfSection(sections[1..], name);
      if k < 0 then -1 else k + 1
  }

  /** `minRequired || <number of required items>`: an absent or zero
      minimum falls back to the required count. */
  function MinRequired(ts: TemplateSection): int
  {
    if ts.minRequired.Some? && ts.minRequired.value != 0 then ts.minRequired.value
    else RequiredCount(ts.items)
  }

  /** checkSectionComplete: false when the template has no section of that
      name; otherwise whether enough items are checked. */
  function CheckSectionComplete(section: DailySection, template: Template): (r: bool)
    ensures IndexOfSection(template.sections, section.sectionName) < 0 ==> !r
    ensures IndexOfSection(template.sections, section.sectionName) >= 0 ==>
      (r <==> CheckedIn(section.items) >= MinRequired(template.sections[IndexOfSection(template.sections, section.sectionName)]))
  {
    var k := IndexOfSection(template.sections, section.sectionName);
    if k < 0 then false
    else CheckedIn(section.items) >= MinRequired(template.sections[k])
  }

  /** Items checked on one list are checked on the other, position by position. */
  ghost predicate CheckedWithin(a: seq<CheckedItem>, b: seq<CheckedItem>) {
    |a| == |b| && forall j :: 0 <= j < |a| ==> a[j].checked ==> b[j].checked
  }

  lemma {:induction false} CheckedInMonotone(a: seq<CheckedItem>, b: seq<CheckedItem>)
    requires CheckedWithin(a, b)
    ensures CheckedIn(a) <= CheckedIn(b)
  {
    if a != [] {
      CheckedInMonotone(a[1..], b[1..]);
    }
  }

  /** Checking more items never makes a complete section incomplete. */
  lemma SectionCompleteMonotone(s1: DailySection, s2: DailySection, template: Template)
    requires s1.sectionName == s2.sectionName
    requires CheckedWithin(s1.items, s2.items)
    requires CheckSectionComplete(s1, template)
    ensures CheckSectionComplete(s2, template)
  {
    CheckedInMonotone(s1.items, s2.items);
  }

  /** A positive `minRequired` of the first section of that name is the
      bar: the section is complete exactly when that many items are checked. */
  lemma SectionCompleteWithMinimum(section: DailySection, template: Template, k: nat, m: int)
    requires k < |template.sections|
    requires template.sections[k].name == section.sectionName
    requires forall j :: 0 <= j < k ==> template.sections[j].name != section.sectionName
    requires template.sections[k].minRequired == Some(m) && m != 0
    ensures CheckSectionComplete(section, template) <==> CheckedIn(section.items) >= m
  {
    assert IndexOfSection(template.sections, section.sectionName) == k;
  }

  /** A missing or zero `minRequired` falls back to the count of required
      template items. */
  lemma SectionCompleteFallback(section: DailySection, template: Template, k: nat)
    requires k < |template.sections|
    requires template.sections[k].name == section.sectionName
    requires forall j :: 0 <= j < k ==> template.sections[j].name != section.sectionName
    requires template.sections[k].minRequired == None || template.sections[k].minRequired == Some(0)
    ensures CheckSectionComplete(section, template) <==> CheckedIn(section.items) >= RequiredCount(template.sections[k].items)
  {
    assert IndexOfSection(template.sections, section.sectionName) == k;
  }

  // ---------------------------------------------------------------------
  // calculateDailyScore and checkDayComplete
  // ---------------------------------------------------------------------

  /** Checked items over all of the day's sections, whatever their ids. */
  function SectionsChecked(sections: seq<DailySection>): nat
  {
    if sections == [] then 0 else CheckedIn(sections[0].items) + SectionsChecked(sections[1..])
  }

  function CheckedCount(e: DailyEntry): nat {
    SectionsChecked(e.sections)
  }

  function SectionsItems(sections: seq<TemplateSection>): nat
  {
    if sections == [] then 0 else |sections[0].items| + SectionsItems(sections[1..])
  }

  /** The number of items in the whole template (`flatMap(...).length`). */
  function TotalItems(t: Template): nat {
    SectionsItems(t.sections)
  }

  /** One point when the tracker's value reaches its target; an absent
      tracker reads as value 0 against the default target. */
  function TargetPoint(tracker: Option<Target>, defaultTarget: real): (p: nat)
    ensures p <= 1
  {
    var value := if tracker.Some? then tracker.value.value else 0.0;
    var target := if tracker.Some? then tracker.value.target else defaultTarget;
    if value >= target then 1 else 0
  }

  function EarnedPoints(e: DailyEntry): nat {
    CheckedCount(e) + TargetPoint(e.fiber, FiberDefaultTarget) + TargetPoint(e.water, WaterDefaultTarget)
  }

  /** The template's items plus the two numeric targets. */
  function MaxPoints(t: Template): nat {
    TotalItems(t) + 2
  }

  /** calculateDailyScore: earned points over the template's points. The
      denominator is at least 2, so the score is always defined. */
  function DailyScore(e: DailyEntry, t: Template): (r: real)
    ensures 0.0 <= r
    ensures r * (MaxPoints(t) as real) == EarnedPoints(e) as real
    ensures CheckedCount(e) <= TotalItems(t) ==> r <= 1.0
    ensures r == 1.0 <==> EarnedPoints(e) == MaxPoints(t)
  {
    var r := EarnedPoints(e) as real / MaxPoints(t) as real;
    RatioFacts(EarnedPoints(e), MaxPoints(t), r);
    assert CheckedCount(e) <= TotalItems(t) ==> EarnedPoints(e) <= MaxPoints(t);
    r
  }

  lemma RatioFacts(a: nat, b: nat, r: real)
    requires b >= 1 && r == a as real / b as real
    ensures r * (b as real) == a as real
    ensures 0.0 <= r
    ensures a <= b ==> r <= 1.0
    ensures r == 1.0 <==> a == b
    ensures r >= 0.8 <==> 5 * a >= 4 * b
  {
    var x, y := a as real, b as real;
    assert r * y == x;
    RatioAtLeast(x, y, r, 0.0);
    RatioAtLeast(x, y, r, 0.8);
    RatioAtLeast(x, y, r, 1.0);
  }

  /** For a positive denominator, `x / y` compares with `c` as `x` with `c * y`. */
  lemma RatioAtLeast(x: real, y: real, r: real, c: real)
    requires y > 0.0 && r * y == x
    ensures r >= c <==> x >= c * y
    ensures r <= c <==> x <= c * y
  {
    if r >= c {
      assert (r - c) * y >= 0.0;
    } else {
      assert (c - r) * y > 0.0;
    }
    if r <= c {
      assert (c - r) * y >= 0.0;
    } else {
      assert (r - c) * y > 0.0;
    }
  }

  /** checkDayComplete: a score of at least 0.8, i.e. at least four fifths
      of the points. */
  function CheckDayComplete(e: DailyEntry, t: Template): (r: bool)
    ensures r <==> 5 * EarnedPoints(e) >= 4 * MaxPoints(t)
  {
    RatioFacts(EarnedPoints(e), MaxPoints(t), DailyScore(e, t));
    DailyScore(e, t) >= DayCompleteThreshold
  }

  lemma {:induction false} NoneCheckedSections(ds: seq<DailySection>)
    requires forall k, j :: 0 <= k < |ds| && 0 <= j < |ds[k].items| ==> !ds[k].items[j].checked
    ensures SectionsChecked(ds) == 0
  {
    if ds != [] {
      NoneCheckedItems(ds[0].items);
      NoneCheckedSections(ds[1..]);
    }
  }

  lemma {:induction false} NoneCheckedItems(items: seq<CheckedItem>)
    requires forall j :: 0 <= j < |items| ==> !items[j].checked
    ensures CheckedIn(items) == 0
  {
    if items != [] {
      NoneCheckedItems(items[1..]);
    }
  }

  lemma {:induction false} AllCheckedItems(items: seq<CheckedItem>)
    requires forall j :: 0 <= j < |items| ==> items[j].checked
    ensures CheckedIn(items) == |items|
  {
    if items != [] {
      AllCheckedItems(items[1..]);
    }
  }

  lemma {:induction false} MatchingSectionsCount(ds: seq<DailySection>, ts: seq<TemplateSection>)
    requires SectionsMatch(ds, ts)
    ensures SectionsChecked(ds) <= SectionsItems(ts)
    ensures (forall k, j :: 0 <= k < |ds| && 0 <= j < |ds[k].items| ==> ds[k].items[j].checked)
            ==> SectionsChecked(ds) == SectionsItems(ts)
  {
    if ds != [] {
      MatchingSectionsCount(ds[1..], ts[1..]);
      if forall k, j :: 0 <= k < |ds| && 0 <= j < |ds[k].items| ==> ds[k].items[j].checked {
        AllCheckedItems(ds[0].items);
      }
    }
  }

  /** Any day with no item checked and neither target met scores 0 and is
      not complete, whatever the template. */
  lemma NoPointsScoreZero(e: DailyEntry, t: Template)
    requires forall k, j :: 0 <= k < |e.sections| && 0 <= j < |e.sections[k].items| ==> !e.sections[k].items[j].checked
    requires TargetPoint(e.fiber, FiberDefaultTarget) == 0 && TargetPoint(e.water, WaterDefaultTarget) == 0
    ensures DailyScore(e, t) == 0.0
    ensures !CheckDayComplete(e, t)
  {
    NoneCheckedSections(e.sections);
  }

  /** A freshly created day scores 0: nothing checked, targets unmet. */
  lemma EmptyEntryScoresZero(date: int, t: Template)
    ensures DailyScore(CreateEmptyEntry(date, t), t) == 0.0
    ensures !CheckDayComplete(CreateEmptyEntry(date, t), t)
  {
    NoPointsScoreZero(CreateEmptyEntry(date, t), t);
  }

  /** A day shaped like the template scores at most 1. */
  lemma MatchingEntryScoreAtMostOne(e: DailyEntry, t: Template)
    requires MatchesTemplate(e, t)
    ensures CheckedCount(e) <= TotalItems(t)
    ensures DailyScore(e, t) <= 1.0
  {
    MatchingSectionsCount(e.sections, t.sections);
  }

  /** Every item checked and both targets met: the score is exactly 1. */
  lemma FullEntryScoresOne(e: DailyEntry, t: Template)
    requires MatchesTemplate(e, t) && AllChecked(e)
    requires TargetPoint(e.fiber, FiberDefaultTarget) == 1 && TargetPoint(e.water, WaterDefaultTarget) == 1
    ensures DailyScore(e, t) == 1.0
    ensures CheckDayComplete(e, t)
  {
    MatchingSectionsCount(e.sections, t.sections);
  }

  // ---------------------------------------------------------------------
  // Completion rates
  // ---------------------------------------------------------------------

  /** `entries.slice(0, days)`: a negative end counts back from the end. */
  function RecentEntries(entries: seq<DailyEntry>, days: int): (r: seq<DailyEntry>)
    ensures |r| <= |entries| && r == entries[..|r|]
    ensures 0 <= days <= |entries| ==> |r| == days
    ensures days >= |entries| ==> r == entries
    ensures days < 0 ==> |r| == (if |entries| + days >= 0 then |entries| + days else 0)
  {
    var end :=
      if days >= 0 then (if days <= |entries| then days else |entries|)
      else (if |entries| + days >= 0 then |entries| + days else 0);
    entries[..end]
  }

  /** `filter(e => e.dayComplete).length`: the number of positions whose
      stored flag is set. */
  function CountDayComplete(entries: seq<DailyEntry>): (n: nat)
    ensures n == |set i | 0 <= i < |entries| && entries[i].dayComplete|
    ensures n <= |entries|
  {
    if entries == [] then 0
    else
      var k := |entries| - 1;
      var front := entries[..k];
      assert (set i | 0 <= i < |entries| && entries[i].dayComplete)
          == (set i | 0 <= i < |front| && front[i].dayComplete)
             + (if entries[k].dayComplete then {k} else {});
      CountDayComplete(front) + (if entries[k].dayComplete then 1 else 0)
  }

  /** `Math.round(part / whole * 100)`: the integer nearest to the
      percentage, halves rounded up. */
  function RoundPercent(part: nat, whole: nat): (r: nat)
    requires 0 < whole && part <= whole
    ensures r <= 100
    ensures 2 * whole * r <= 200 * part + whole < 2 * whole * r + 2 * whole
    ensures part == 0 ==> r == 0
    ensures part == whole ==> r == 100
  {
    var r := (200 * part + whole) / (2 * whole);
    RoundPercentFacts(part, whole, r);
    r
  }

  lemma RoundPercentFacts(part: nat, whole: nat, r: int)
    requires 0 < whole && part <= whole
    requires r == (200 * part + whole) / (2 * whole)
    ensures 0 <= r <= 100
    ensures 2 * whole * r <= 200 * part + whole < 2 * whole * r + 2 * whole
    ensures part == 0 ==> r == 0
    ensures part == whole ==> r == 100
  {
    var n := 200 * part + whole;
    var d := 2 * whole;
    DivBounds(n, d);
    if r > 100 {
      assert d * r >= d * 101 by { MulLeft(d, 101, r); }
      assert false;
    }
    if part == 0 {
      if r >= 1 { MulLeft(d, 1, r); }
    }
    if part == whole {
      if r <= 99 { MulLeft(d, r, 99); }
    }
  }

  /** Euclidean division brackets its dividend. */
  lemma DivBounds(n: nat, d: nat)
    requires 0 < d
    ensures d * (n / d) <= n < d * (n / d) + d
  {
    assert n == d * (n / d) + n % d;
  }

  lemma MulLeft(d: int, a: int, b: int)
    requires 0 < d && a <= b
    ensures d * a <= d * b
  {
  }

  /** calculateCompletionRate: the rounded percentage of complete days
      among the first `days` entries, 0 when there are none. */
  function CalculateCompletionRate(entries: seq<DailyEntry>, days: int): (r: nat)
    ensures r <= 100
    ensures RecentEntries(entries, days) == [] ==> r == 0
    ensures var recent := RecentEntries(entries, days);
            var n, c := |recent|, CountDayComplete(recent);
            n > 0 ==> 2 * n * r <= 200 * c + n < 2 * n * r + 2 * n
  {
    var recent := RecentEntries(entries, days);
    if |recent| == 0 then 0 else RoundPercent(CountDayComplete(recent), |recent|)
  }

  /** `sections.find(s => s.sectionName === name)`, as an index or -1. */
  function IndexOfDailySection(sections: seq<DailySection>, name: string): (k: int)
    ensures -1 <= k < |sections|
    ensures 0 <= k ==> sections[k].sectionName == name
    ensures forall j :: 0 <= j < |sections| && (k < 0 || j < k) ==> sections[j].sectionName != name
  {
    if sections == [] then -1
    else if sections[0].sectionName == name then 0
    else
      var k := IndexOfDailySection(sections[1..], name);
      if k < 0 then -1 else k + 1
  }

  /** Whether the day's first section of that name is marked complete. */
  predicate SectionMarkedComplete(e: DailyEntry, sectionName: string) {
    var k := IndexOfDailySection(e.sections, sectionName);
    k >= 0 && e.sections[k].sectionComplete
  }

  /** The `filter(...).length` of the section rate: the number of
      positions whose section of that name is marked complete. */
  function CountSectionComplete(entries: seq<DailyEntry>, sectionName: string): (n: nat)
    ensures n == |set i | 0 <= i < |entries| && SectionMarkedComplete(entries[i], sectionName)|
    ensures n <= |entries|
  {
    if entries == [] then 0
    else
      var k := |entries| - 1;
      var front := entries[..k];
      assert (set i | 0 <= i < |entries| && SectionMarkedComplete(entries[i], sectionName))
          == (set i | 0 <= i < |front| && SectionMarkedComplete(front[i], sectionName))
             + (if SectionMarkedComplete(entries[k], sectionName) then {k} else {});
      CountSectionComplete(front, sectionName) + (if SectionMarkedComplete(entries[k], sectionName) then 1 else 0)
  }

  /** calculateSectionCompletionRate: the rounded percentage of the first
      `days` entries whose section of that name is marked complete. */
  function CalculateSectionCompletionRate(entries: seq<DailyEntry>, sectionName: string, days: int): (r: nat)
    ensures r <= 100
    ensures RecentEntries(entries, days) == [] ==> r == 0
    ensures var recent := RecentEntries(entries, days);
            var n, c := |recent|, CountSectionComplete(recent, sectionName);
            n > 0 ==> 2 * n * r <= 200 * c + n < 2 * n * r + 2 * n
  {
    var recent := RecentEntries(entries, days);
    if |recent| == 0 then 0 else RoundPercent(CountSectionComplete(recent, sectionName), |recent|)
  }
}
