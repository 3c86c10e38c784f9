/** The "today" page of app/page.tsx: it shows today's entry (creating
    and saving an empty one when the app context holds none) and toggles one item at a
    time, keeping the section and day flags in step and saving the entry. */
module Today {
  import opened Types
  import opened Utils
  import opened Streaks
  import opened Storage

  /** `items.find(i => i.id === id)`, as the index of the first match, or -1. */
  function IndexOfItem(items: seq<CheckedItem>, id: string): (k: int)
    ensures -1 <= k < |items|
    ensures 0 <= k ==> items[k].id == id
    ensures forall j :: 0 <= j < |items| && (k < 0 || j < k) ==> items[j].id != id
  {
    if items == [] then -1
    else if items[0].id == id then 0
    else
      var k := IndexOfItem(items[1..], id);
      if k < 0 then -1 else k + 1
  }

  /** The toggle finds both the section and, inside it, the item. */
  predicate Locates(e: DailyEntry, sectionName: string, itemId: string) {
    var s := IndexOfDailySection(e.sections, sectionName);
    s >= 0 && IndexOfItem(e.sections[s].items, itemId) >= 0
  }

  /** The entry after `handleToggleItem(sectionName, itemId)` at time `now`. */
  function Toggled(e: DailyEntry, t: Template, sectionName: string, itemId: string, now: string): (r: DailyEntry)
    ensures r.date == e.date && |r.sections| == |e.sections|
  {
    if !Locates(e, sectionName, itemId) then e
    else
      var s := IndexOfDailySection(e.sections, sectionName);
      var section := e.sections[s];
      var k := IndexOfItem(section.items, itemId);
      var item := section.items[k];
      var flipped := !item.checked;
      var items := section.items[k := CheckedItem(item.id, flipped, if flipped then Some(now) else None)];
      var section' := DailySection(section.sectionName, items, CheckSectionComplete(section.(items := items), t));
      var e' := e.(sections := e.sections[s := section']);
      e'.(dayComplete := CheckDayComplete(e', t))
  }

  // ----- What a toggle does -----

  /** Nothing changes when the section or the item is not there. */
  lemma ToggleMissingIsNoOp(e: DailyEntry, t: Template, sectionName: string, itemId: string, now: string)
    requires !Locates(e, sectionName, itemId)
    ensures Toggled(e, t, sectionName, itemId, now) == e
  {
  }

  /** Exactly the first matching item of the first matching section flips;
      its timestamp is set exactly when it is now checked; the section and
      day flags are recomputed; everything else is as before. */
  lemma ToggleFlipsOneItem(e: DailyEntry, t: Template, sectionName: string, itemId: string, now: string)
    requires Locates(e, sectionName, itemId)
    ensures var r := Toggled(e, t, sectionName, itemId, now);
      var s := IndexOfDailySection(e.sections, sectionName);
      var k := IndexOfItem(e.sections[s].items, itemId);
      && r.date == e.date && r.fiber == e.fiber && r.water == e.water && r.notes == e.notes
      && |r.sections| == |e.sections|
      && (forall j :: 0 <= j < |e.sections| && j != s ==> r.sections[j] == e.sections[j])
      && r.sections[s].sectionName == sectionName
      && |r.sections[s].items| == |e.sections[s].items|
      && (forall j :: 0 <= j < |e.sections[s].items| && j != k ==> r.sections[s].items[j] == e.sections[s].items[j])
      && r.sections[s].items[k].id == itemId
      && r.sections[s].items[k].checked == !e.sections[s].items[k].checked
      && (r.sections[s].items[k].timestamp.Some? <==> r.sections[s].items[k].checked)
      && (r.sections[s].items[k].timestamp.Some? ==> r.sections[s].items[k].timestamp.value == now)
      && r.sections[s].sectionComplete == CheckSectionComplete(r.sections[s], t)
      && r.dayComplete == CheckDayComplete(r, t)
  {
  }

  /** Toggling the same item twice gives it back its checked value, and
      leaves every other item and section as it was. */
  lemma ToggleTwiceRestoresChecked(e: DailyEntry, t: Template, sectionName: string, itemId: string, now: string, later: string)
    requires Locates(e, sectionName, itemId)
    ensures var r := Toggled(Toggled(e, t, sectionName, itemId, now), t, sectionName, itemId, later);
      var s := IndexOfDailySection(e.sections, sectionName);
      var k := IndexOfItem(e.sections[s].items, itemId);
      && |r.sections| == |e.sections|
      && (forall j :: 0 <= j < |e.sections| && j != s ==> r.sections[j] == e.sections[j])
      && r.sections[s].items[k].checked == e.sections[s].items[k].checked
      && (forall j :: 0 <= j < |e.sections[s].items| && j != k ==> r.sections[s].items[j] == e.sections[s].items[j])
  {
    var s := IndexOfDailySection(e.sections, sectionName);
    var k := IndexOfItem(e.sections[s].items, itemId);
    var m := Toggled(e, t, sectionName, itemId, now);
    ToggleFlipsOneItem(e, t, sectionName, itemId, now);
    assert IndexOfDailySection(m.sections, sectionName) == s by {
      forall j | 0 <= j < s ensures m.sections[j].sectionName != sectionName {
        assert m.sections[j] == e.sections[j];
      }
    }
    assert IndexOfItem(m.sections[s].items, itemId) == k by {
      forall j | 0 <= j < k ensures m.sections[s].items[j].id != itemId {
        assert m.sections[s].items[j] == e.sections[s].items[j];
      }
    }
    ToggleFlipsOneItem(m, t, sectionName, itemId, later);
  }

  /** Replacing one item changes the checked count by that item alone. */
  lemma {:induction false} CheckedInUpdate(items: seq<CheckedItem>, k: int, x: CheckedItem)
    requires 0 <= k < |items|
    ensures CheckedIn(items[k := x]) + (if items[k].checked then 1 else 0)
         == CheckedIn(items) + (if x.checked then 1 else 0)
  {
    if k > 0 {
      CheckedInUpdate(items[1..], k - 1, x);
      assert items[k := x][1..] == items[1..][k - 1 := x];
    } else {
      assert items[k := x][1..] == items[1..];
    }
  }

  /** Replacing one section changes the day's checked count by that section alone. */
  lemma {:induction false} SectionsCheckedUpdate(sections: seq<DailySection>, s: int, x: DailySection)
    requires 0 <= s < |sections|
    ensures SectionsChecked(sections[s := x]) + CheckedIn(sections[s].items)
         == SectionsChecked(sections) + CheckedIn(x.items)
  {
    if s > 0 {
      SectionsCheckedUpdate(sections[1..], s - 1, x);
      assert sections[s := x][1..] == sections[1..][s - 1 := x];
    } else {
      assert sections[s := x][1..] == sections[1..];
    }
  }

  /** A toggle that checks an item adds one to the day's checked count; one
      that unchecks it takes one away. */
  lemma ToggleCountsOne(e: DailyEntry, t: Template, sectionName: string, itemId: string, now: string)
    requires Locates(e, sectionName, itemId)
    ensures var s := IndexOfDailySection(e.sections, sectionName);
      var k := IndexOfItem(e.sections[s].items, itemId);
      var r := Toggled(e, t, sectionName, itemId, now);
      if e.sections[s].items[k].checked then CheckedCount(r) + 1 == CheckedCount(e)
      else CheckedCount(r) == CheckedCount(e) + 1
  {
    var s := IndexOfDailySection(e.sections, sectionName);
    var section := e.sections[s];
    var k := IndexOfItem(section.items, itemId);
    var r := Toggled(e, t, sectionName, itemId, now);
    CheckedInUpdate(section.items, k, r.sections[s].items[k]);
    assert r.sections[s].items == section.items[k := r.sections[s].items[k]];
    SectionsCheckedUpdate(e.sections, s, r.sections[s]);
    assert r.sections == e.sections[s := r.sections[s]];
  }

  // ----- The page -----

  class TodayPage {
    /** The application data the page reads and saves through. */
    const store: AppStore
    /** The entry on screen (`null` until loaded). */
    var entry: Option<DailyEntry>

    constructor (store: AppStore)
      ensures this.store == store && entry == None
    {
      this.store := store;
      entry := None;
    }

    /** The effect that runs on load, given the context's `todayEntry`
        (`None` while the context has not read the store yet): show that
        entry, or create an empty one from the template, show it and save
        it. The save replaces whatever the store held for today, so a
        context that has not caught up with the store overwrites today's
        stored entry with an empty one. */
    method Load(today: int, todayEntry: Option<DailyEntry>)
      requires store.Valid()
      modifies this, store
      ensures store.Valid()
      ensures todayEntry.Some? ==>
        entry == todayEntry && store.entries == old(store.entries) && store.streak == old(store.streak)
      ensures todayEntry.None? ==>
        entry == Some(CreateEmptyEntry(today, store.template))
        && store.entries == Upserted(old(store.entries), entry.value)
        && store.streak == StreakOf(store.entries, store.template, today)
        && store.GetEntry(today) == entry
      ensures todayEntry == old(store.GetEntry(today)) ==> entry == store.GetEntry(today)
      ensures store.template == old(store.template) && store.unlocked == old(store.unlocked)
    {
      if todayEntry.Some? {
        entry := todayEntry;
      } else {
        var newEntry := CreateEmptyEntry(today, store.template);
        entry := Some(newEntry);
        store.SaveEntry(newEntry, today);
        UpsertCorrect(old(store.entries), newEntry);
      }
    }

    /** `handleToggleItem`: flip the item, stamp or clear its time, recompute
        the section and day flags, then save the entry. Without an entry, a
        section of that name or an item of that id, nothing happens. */
    method HandleToggleItem(sectionName: string, itemId: string, now: string, today: int)
      requires store.Valid()
      modifies this, store
      ensures store.Valid()
      ensures old(entry).None? || !Locates(old(entry).value, sectionName, itemId) ==>
        entry == old(entry) && store.entries == old(store.entries) && store.streak == old(store.streak)
      ensures old(entry).Some? && Locates(old(entry).value, sectionName, itemId) ==>
        entry == Some(Toggled(old(entry).value, store.template, sectionName, itemId, now))
        && store.entries == Upserted(old(store.entries), entry.value)
        && store.streak == StreakOf(store.entries, store.template, today)
        && store.GetEntry(entry.value.date) == entry
      ensures store.template == old(store.template) && store.unlocked == old(store.unlocked)
    {
      if entry.None? {
        return;
      }
      var newEntry := entry.value;
      var s := IndexOfDailySection(newEntry.sections, sectionName);
      if s < 0 {
        return;
      }
      var section := newEntry.sections[s];
      var k := IndexOfItem(section.items, itemId);
      if k < 0 {
        return;
      }
      var item := section.items[k];
      item := item.(checked := !item.checked);
      item := item.(timestamp := if item.checked then Some(now) else None);
      section := section.(items := section.items[k := item]);
      section := section.(sectionComplete := CheckSectionComplete(section, store.template));
      newEntry := newEntry.(sections := newEntry.sections[s := section]);
      newEntry := newEntry.(dayComplete := CheckDayComplete(newEntry, store.template));
      entry := Some(newEntry);
      store.SaveEntry(newEntry, today);
      UpsertCorrect(old(store.entries), newEntry);
    }
  }
}
