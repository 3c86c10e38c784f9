/** The in-memory state of lib/storage.ts (`AppData`): the template, the
    entries newest first with one entry per date, the cached streak and the
    ids of the unlocked achievements. Reading and writing localStorage is
    not part of this model; every operation acts on the object itself. */
module Storage {
  import opened Types
  import opened Utils
  import opened Defaults
  import opened EntryOrder
  import opened Streaks

  // ----- saveEntry on the entry list -----

  /** The entry list after `saveEntry(entry)`: the entry replaces the one
      with its date, or is appended, and the list is re-sorted. */
  function Upserted(entries: seq<DailyEntry>, entry: DailyEntry): (r: seq<DailyEntry>)
    ensures entry in r && SortedDesc(r)
    ensures |r| == if FindIndex(entries, entry.date) >= 0 then |entries| else |entries| + 1
  {
    var k := FindIndex(entries, entry.date);
    var placed := if k >= 0 then entries[k := entry] else entries + [entry];
    assert entry in multiset(placed) by {
      assert entry == placed[if k >= 0 then k else |entries|];
    }
    SortByDate(placed)
  }

  lemma StrictlyDescDistinct(s: seq<DailyEntry>)
    requires StrictlyDesc(s)
    ensures DistinctDates(s)
  {
  }

  /** Replacing or appending keeps one entry per date, and leaves every
      entry of another date where it was. */
  lemma PlacedEntries(entries: seq<DailyEntry>, entry: DailyEntry)
    requires DistinctDates(entries)
    ensures var k := FindIndex(entries, entry.date);
      var placed := if k >= 0 then entries[k := entry] else entries + [entry];
      DistinctDates(placed)
      && entry in placed
      && (forall x: DailyEntry :: x.date != entry.date ==> (x in placed <==> x in entries))
      && (forall x :: x in placed && x.date == entry.date ==> x == entry)
  {
    var k := FindIndex(entries, entry.date);
    var placed := if k >= 0 then entries[k := entry] else entries + [entry];
    if k >= 0 {
      assert placed[k] == entry;
      forall x: DailyEntry | x.date != entry.date ensures x in placed <==> x in entries {
        if x in entries {
          var i :| 0 <= i < |entries| && entries[i] == x;
          assert placed[i] == x;
        }
        if x in placed {
          var i :| 0 <= i < |placed| && placed[i] == x;
          assert i != k && entries[i] == x;
        }
      }
    } else {
      assert placed[|entries|] == entry;
    }
  }

  /** saveEntry keeps the list newest first with one entry per date; the
      saved entry is the one found for its date, every other date finds
      what it found before, and the list grows by one exactly when the date
      was new. */
  lemma UpsertCorrect(entries: seq<DailyEntry>, entry: DailyEntry)
    requires StrictlyDesc(entries)
    ensures StrictlyDesc(Upserted(entries, entry))
    ensures FindEntry(Upserted(entries, entry), entry.date) == Some(entry)
    ensures forall d :: d != entry.date ==> FindEntry(Upserted(entries, entry), d) == FindEntry(entries, d)
    ensures FindEntry(entries, entry.date).None? ==> |Upserted(entries, entry)| == |entries| + 1
    ensures FindEntry(entries, entry.date).Some? ==> |Upserted(entries, entry)| == |entries|
  {
    var k := FindIndex(entries, entry.date);
    var placed := if k >= 0 then entries[k := entry] else entries + [entry];
    var r := Upserted(entries, entry);
    StrictlyDescDistinct(entries);
    PlacedEntries(entries, entry);
    SortStrict(placed);
    StrictlyDescDistinct(r);
    assert forall x :: x in r <==> x in placed by {
      forall x ensures x in r <==> x in placed {
        assert x in r <==> x in multiset(r);
      }
    }
    FindInDistinct(r, entry.date, entry);
    forall d | d != entry.date ensures FindEntry(r, d) == FindEntry(entries, d) {
      var a := FindEntry(r, d);
      if a.Some? {
        FindInDistinct(entries, d, a.value);
      }
    }
  }

  // ----- unlockAchievement on the id list -----

  /** `unlockedAchievements` after `unlockAchievement(id)`. */
  function Unlocked(ids: seq<string>, id: string): (r: seq<string>)
    ensures id in r && |ids| <= |r| <= |ids| + 1
  {
    if id in ids then ids else ids + [id]
  }

  ghost predicate NoDuplicates(ids: seq<string>) {
    forall i, j :: 0 <= i < j < |ids| ==> ids[i] != ids[j]
  }

  /** Unlocking appends `id` only when it is absent: earlier ids keep their
      places, nothing else is added, and no id appears twice. */
  lemma UnlockedGrows(ids: seq<string>, id: string)
    ensures var r := Unlocked(ids, id);
      |ids| <= |r| && r[..|ids|] == ids
      && id in r
      && (forall x :: x in r <==> x in ids || x == id)
      && (|r| == |ids| + 1 <==> id !in ids)
      && (NoDuplicates(ids) ==> NoDuplicates(r))
  {
    var r := Unlocked(ids, id);
    if id !in ids {
      assert r[..|ids|] == ids;
      assert r[|ids|] == id;
    }
  }

  /** Unlocking the same id twice is the same as unlocking it once. */
  lemma UnlockedIdempotent(ids: seq<string>, id: string)
    ensures Unlocked(Unlocked(ids, id), id) == Unlocked(ids, id)
  {
    assert id in Unlocked(ids, id) by {
      UnlockedGrows(ids, id);
    }
  }

  // ----- The store -----

  class AppStore {
    var template: Template
    var entries: seq<DailyEntry>
    var streak: Streak
    var unlocked: seq<string>

    /** Entries newest first with one per date, and no id unlocked twice:
        what every operation below keeps. */
    ghost predicate Valid()
      reads this
    {
      StrictlyDesc(entries) && NoDuplicates(unlocked)
    }

    /** `getDefaultData`: the default template and nothing recorded. */
    constructor ()
      ensures Valid()
      ensures template == DefaultTemplate && entries == []
      ensures streak == Streak(0, 0) && unlocked == []
    {
      template := DefaultTemplate;
      entries := [];
      streak := Streak(0, 0);
      unlocked := [];
    }

    /** `getEntry(date)`: the stored entry of that date, if any. */
    function GetEntry(date: int): (r: Option<DailyEntry>)
      reads this
      ensures r.Some? ==> r.value in entries && r.value.date == date
      ensures r.None? <==> forall e :: e in entries ==> e.date != date
      ensures Valid() ==> forall x :: r == Some(x) <==> x in entries && x.date == date
    {
      FindInDistinctAll(entries, date);
      FindEntry(entries, date)
    }

    /** `saveEntry(entry)` on day `today`: replace or append, re-sort, and
        recompute the streak from the stored template. */
    method SaveEntry(entry: DailyEntry, today: int)
      requires Valid()
      modifies this
      ensures Valid()
      ensures entries == Upserted(old(entries), entry)
      ensures streak == StreakOf(entries, template, today)
      ensures template == old(template) && unlocked == old(unlocked)
    {
      var existingIndex := FindIndex(entries, entry.date);
      if existingIndex >= 0 {
        entries := entries[existingIndex := entry];
      } else {
        entries := entries + [entry];
      }
      entries := SortByDate(entries);
      streak := CalculateStreak(entries, template, today);
      UpsertCorrect(old(entries), entry);
    }

    /** `unlockAchievement(id)`: append the id unless it is already there. */
    method UnlockAchievement(id: string)
      requires Valid()
      modifies this
      ensures Valid()
      ensures unlocked == Unlocked(old(unlocked), id)
      ensures template == old(template) && entries == old(entries) && streak == old(streak)
    {
      if id !in unlocked {
        unlocked := unlocked + [id];
      }
      UnlockedGrows(old(unlocked), id);
    }
  }

  lemma FindInDistinctAll(s: seq<DailyEntry>, date: int)
    ensures StrictlyDesc(s) ==> forall x :: FindEntry(s, date) == Some(x) <==> x in s && x.date == date
  {
    if StrictlyDesc(s) {
      forall x ensures FindEntry(s, date) == Some(x) <==> x in s && x.date == date {
        FindInDistinct(s, date, x);
      }
    }
  }
}
