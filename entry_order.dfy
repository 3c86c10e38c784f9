/** The list operations the entry store of lib/storage.ts relies on:
    `find` and `findIndex` by date, and the sort by date, newest first.
    The source compares zero-padded `YYYY-MM-DD` strings; here dates are
    day numbers, which order the same way. */
module EntryOrder {
  import opened Types

  /** `entries.find(e => e.date === date)`. */
  function FindEntry(entries: seq<DailyEntry>, date: int): (r: Option<DailyEntry>)
    ensures r.Some? ==> r.value in entries && r.value.date == date
    ensures r.None? <==> forall e :: e in entries ==> e.date != date
  {
    if entries == [] then None
    else if entries[0].date == date then Some(entries[0])
    else FindEntry(entries[1..], date)
  }

  /** `entries.findIndex(e => e.date === date)`: the first index, or -1.
      The other lookups of the model (`IndexOfSection`, `IndexOfDailySection`
      and `Today.IndexOfItem`) have the same shape; each searches its own
      record type by its own key field, as the separate `find` calls of the
      program do, so each keeps its own contract over that field. */
  function FindIndex(entries: seq<DailyEntry>, date: int): (k: int)
    ensures -1 <= k < |entries|
    ensures 0 <= k ==> entries[k].date == date
    ensures forall j :: 0 <= j < |entries| && (k < 0 || j < k) ==> entries[j].date != date
  {
    if entries == [] then -1
    else if entries[0].date == date then 0
    else
      var k := FindIndex(entries[1..], date);
      if k < 0 then -1 else k + 1
  }

  /** Newest first, ties allowed. */
  ghost predicate SortedDesc(s: seq<DailyEntry>) {
    forall i, j :: 0 <= i < j < |s| ==> s[i].date >= s[j].date
  }

  /** Newest first with no two entries on one date: the store's shape. */
  ghost predicate StrictlyDesc(s: seq<DailyEntry>) {
    forall i, j :: 0 <= i < j < |s| ==> s[i].date > s[j].date
  }

  ghost predicate DistinctDates(s: seq<DailyEntry>) {
    forall i, j :: 0 <= i < j < |s| ==> s[i].date != s[j].date
  }

  /** Places `e` before the first entry that is not newer than it. */
  function Insert(e: DailyEntry, s: seq<DailyEntry>): (r: seq<DailyEntry>)
    ensures |r| == |s| + 1
    ensures multiset(r) == multiset(s) + multiset{e}
  {
    if s == [] || e.date >= s[0].date then [e] + s
    else
      assert s == [s[0]] + s[1..];
      [s[0]] + Insert(e, s[1..])
  }

  lemma {:induction false} InsertSorted(e: DailyEntry, s: seq<DailyEntry>)
    requires SortedDesc(s)
    ensures SortedDesc(Insert(e, s))
  {
    if s != [] && e.date < s[0].date {
      var rest := Insert(e, s[1..]);
      InsertSorted(e, s[1..]);
      forall x | x in rest ensures x.date <= s[0].date {
        assert x in multiset(rest);
        if x != e {
          assert x in s[1..];
        }
      }
    }
  }

  /** `entries.sort((a, b) => b.date.localeCompare(a.date))`, stable. */
  function SortByDate(s: seq<DailyEntry>): (r: seq<DailyEntry>)
    ensures |r| == |s|
    ensures multiset(r) == multiset(s)
    ensures SortedDesc(r)
  {
    if s == [] then []
    else
      assert s == [s[0]] + s[1..];
      var rest := SortByDate(s[1..]);
      InsertSorted(s[0], rest);
      Insert(s[0], rest)
  }

  lemma {:induction false} InsertStrict(e: DailyEntry, s: seq<DailyEntry>)
    requires StrictlyDesc(s)
    requires forall x :: x in s ==> x.date != e.date
    ensures StrictlyDesc(Insert(e, s))
  {
    if s != [] && e.date < s[0].date {
      var rest := Insert(e, s[1..]);
      InsertStrict(e, s[1..]);
      forall x | x in rest ensures x.date < s[0].date {
        assert x in multiset(rest);
        if x != e {
          assert x in s[1..];
        }
      }
    }
  }

  /** Sorting entries whose dates are distinct leaves them strictly newest first. */
  lemma {:induction false} SortStrict(s: seq<DailyEntry>)
    requires DistinctDates(s)
    ensures StrictlyDesc(SortByDate(s))
  {
    if s != [] {
      var sorted := SortByDate(s[1..]);
      SortStrict(s[1..]);
      forall x | x in sorted ensures x.date != s[0].date {
        assert x in multiset(sorted);
        assert x in s[1..];
      }
      InsertStrict(s[0], sorted);
    }
  }

  /** On a list with one entry per date, `find` returns exactly the entry
      of that date. */
  lemma FindInDistinct(s: seq<DailyEntry>, date: int, x: DailyEntry)
    requires DistinctDates(s)
    ensures FindEntry(s, date) == Some(x) <==> x in s && x.date == date
  {
    if x in s && x.date == date {
      var r := FindEntry(s, date);
      assert r.Some?;
      var i :| 0 <= i < |s| && s[i] == x;
      var j :| 0 <= j < |s| && s[j] == r.value;
      assert i == j;
    }
  }

  /** The dates of a list of entries, in order. */
  function Dates(s: seq<DailyEntry>): (ds: seq<int>)
    ensures |ds| == |s|
    ensures forall i :: 0 <= i < |s| ==> ds[i] == s[i].date
  {
    if s == [] then [] else [s[0].date] + Dates(s[1..])
  }
}
