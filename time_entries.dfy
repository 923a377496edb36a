/**
 * The time-entry store: an in-memory collection of time entries mirrored to the `timeEntries`
 * storage key, with its aggregate of hours, a newest-first view and a formatted total.
 */
module TimeEntries {
  import opened Wrappers
  import opened Types
  import opened Storage
  import Text

  // ---------------------------------------------------------------------------------------------
  // The aggregate

  /** `entries.reduce((sum, entry) => sum + entry.durationHours, 0)`: a left fold from 0. */
  function TotalHours(entries: seq<TimeEntry>): real
  {
    if entries == [] then 0.0
    else TotalHours(entries[..|entries| - 1]) + entries[|entries| - 1].durationHours
  }

  /** The total of a concatenation is the sum of the totals. */
  lemma {:induction false} TotalHoursAppend(a: seq<TimeEntry>, b: seq<TimeEntry>)
    ensures TotalHours(a + b) == TotalHours(a) + TotalHours(b)
    decreases |b|
  {
    if b == [] {
      assert a + b == a;
    } else {
      var ab := a + b;
      assert ab[..|ab| - 1] == a + b[..|b| - 1];
      assert ab[|ab| - 1] == b[|b| - 1];
      TotalHoursAppend(a, b[..|b| - 1]);
    }
  }

  /** With no negative durations the total is not negative. */
  lemma {:induction false} TotalHoursNonNegative(entries: seq<TimeEntry>)
    requires forall i :: 0 <= i < |entries| ==> entries[i].durationHours >= 0.0
    ensures TotalHours(entries) >= 0.0
  {
    if entries != [] {
      TotalHoursNonNegative(entries[..|entries| - 1]);
    }
  }

  // ---------------------------------------------------------------------------------------------
  // Deletion by id

  /** `entries.filter(entry => entry.id !== id)`. */
  function WithoutId(entries: seq<TimeEntry>, id: int): (r: seq<TimeEntry>)
    ensures |r| <= |entries|
    ensures forall e :: e in r <==> e in entries && e.id != id
  {
    if entries == [] then []
    else (if entries[0].id != id then [entries[0]] else []) + WithoutId(entries[1..], id)
  }

  /** Filtering a concatenation filters each part: the kept entries stay in their relative order. */
  lemma {:induction false} WithoutIdConcat(a: seq<TimeEntry>, b: seq<TimeEntry>, id: int)
    ensures WithoutId(a + b, id) == WithoutId(a, id) + WithoutId(b, id)
  {
    if a == [] {
      assert a + b == b;
    } else {
      assert (a + b)[0] == a[0];
      assert (a + b)[1..] == a[1..] + b;
      WithoutIdConcat(a[1..], b, id);
    }
  }

  /** Deleting an id no entry carries leaves the collection as it is. */
  lemma {:induction false} WithoutAbsentId(entries: seq<TimeEntry>, id: int)
    requires forall i :: 0 <= i < |entries| ==> entries[i].id != id
    ensures WithoutId(entries, id) == entries
  {
    if entries != [] {
      WithoutAbsentId(entries[1..], id);
      assert entries == [entries[0]] + entries[1..];
    }
  }

  /** Deleting the same id twice is the same as deleting it once. */
  lemma WithoutIdIdempotent(entries: seq<TimeEntry>, id: int)
    ensures WithoutId(WithoutId(entries, id), id) == WithoutId(entries, id)
  {
    var r := WithoutId(entries, id);
    forall i | 0 <= i < |r| ensures r[i].id != id {
      assert r[i] in r;
    }
    WithoutAbsentId(r, id);
  }

  /**
   * Adding an entry with a fresh id and then deleting that id restores the collection and its
   * total.
   */
  lemma AddThenDelete(entries: seq<TimeEntry>, entry: TimeEntry)
    requires forall i :: 0 <= i < |entries| ==> entries[i].id != entry.id
    ensures WithoutId(entries + [entry], entry.id) == entries
    ensures TotalHours(WithoutId(entries + [entry], entry.id)) == TotalHours(entries)
  {
    WithoutIdConcat(entries, [entry], entry.id);
    WithoutAbsentId(entries, entry.id);
    assert WithoutId([entry], entry.id) == [];
    assert entries + [] == entries;
  }

  // ---------------------------------------------------------------------------------------------
  // Loading

  /**
   * What `loadEntries` makes of the collection `current` when the `timeEntries` key holds
   * `stored`: an absent or empty value keeps `current`, a serialised array replaces it, and any
   * other text makes `JSON.parse` throw.
   */
  function LoadFrom(stored: Option<Stored>, current: seq<TimeEntry>): (r: Outcome<seq<TimeEntry>>)
    ensures !Truthy(stored) ==> r == Success(current)
    ensures Truthy(stored) ==> (r.Success? <==> stored.value.EntriesJson?)
    ensures Truthy(stored) && r.Success? ==> r.value == stored.value.entries
  {
    if !Truthy(stored) then Success(current)
    else
      match ParseEntries(stored.value)
      case None => Failure
      case Some(es) => Success(es)
  }

  /** Loading replaces rather than appends: reloading from the same storage changes nothing. */
  lemma LoadIdempotent(stored: Option<Stored>, current: seq<TimeEntry>)
    requires LoadFrom(stored, current).Success?
    ensures LoadFrom(stored, LoadFrom(stored, current).value) == LoadFrom(stored, current)
  {
  }

  /** Loading after saving `entries` gives back exactly `entries`, whatever was in memory. */
  lemma SaveThenLoad(items: map<string, Stored>, entries: seq<TimeEntry>, current: seq<TimeEntry>)
    ensures LoadFrom(Some(items[EntriesKey := EntriesJson(entries)][EntriesKey]), current) == Success(entries)
  {
  }

  // ---------------------------------------------------------------------------------------------
  // The newest-first view

  /**
   * `a` starts strictly before `b`: the `${date}T${startTime}` timestamps compared as zero-padded
   * ISO strings, which orders them as the dates they denote.
   */
  predicate StartsBefore(a: TimeEntry, b: TimeEntry)
  {
    Text.Less(a.date, b.date) || (a.date == b.date && Text.Less(a.startTime, b.startTime))
  }

  predicate SameStart(a: TimeEntry, b: TimeEntry)
  {
    a.date == b.date && a.startTime == b.startTime
  }

  lemma SameStartNotBefore(a: TimeEntry, b: TimeEntry)
    requires SameStart(a, b)
    ensures !StartsBefore(a, b) && !StartsBefore(b, a)
  {
    Text.LessIrreflexive(a.date);
    Text.LessIrreflexive(a.startTime);
  }

  lemma StartsBeforeAsymmetric(a: TimeEntry, b: TimeEntry)
    requires StartsBefore(a, b)
    ensures !StartsBefore(b, a)
  {
    if Text.Less(a.date, b.date) {
      Text.LessAsymmetric(a.date, b.date);
      if b.date == a.date { Text.LessIrreflexive(a.date); }
    } else {
      Text.LessAsymmetric(a.startTime, b.startTime);
      Text.LessIrreflexive(a.date);
    }
  }

  /** "Not earlier than" is transitive: the comparator is a consistent order. */
  lemma NotBeforeTransitive(a: TimeEntry, b: TimeEntry, c: TimeEntry)
    requires !StartsBefore(a, b) && !StartsBefore(b, c)
    ensures !StartsBefore(a, c)
  {
    Text.LessTotal(a.date, b.date);
    Text.LessTotal(b.date, c.date);
    Text.LessTotal(a.startTime, b.startTime);
    Text.LessTotal(b.startTime, c.startTime);
    if StartsBefore(a, c) {
      if Text.Less(a.date, c.date) {
        if Text.Less(b.date, a.date) { Text.LessTransitive(b.date, a.date, c.date); }
        if Text.Less(c.date, b.date) { Text.LessTransitive(a.date, c.date, b.date); }
        Text.LessAsymmetric(a.date, c.date);
      } else {
        if Text.Less(b.startTime, a.startTime) && b.date == a.date {
          Text.LessTransitive(b.startTime, a.startTime, c.startTime);
        }
        if Text.Less(c.startTime, b.startTime) && c.date == b.date {
          Text.LessTransitive(a.startTime, c.startTime, b.startTime);
        }
        Text.LessAsymmetric(a.startTime, c.startTime);
        Text.LessIrreflexive(a.date);
      }
    }
  }

  /** Most recent first: no entry starts before an entry that follows it. */
  predicate NewestFirst(s: seq<TimeEntry>)
  {
    forall i, j :: 0 <= i < j < |s| ==> !StartsBefore(s[i], s[j])
  }

  /**
   * One step of a stable insertion sort: `x` goes in front of the first entry it does not start
   * before, so it stays ahead of every entry with the same start.
   */
  function InsertByRecency(x: TimeEntry, sorted: seq<TimeEntry>): seq<TimeEntry>
  {
    if sorted == [] || !StartsBefore(x, sorted[0]) then [x] + sorted
    else [sorted[0]] + InsertByRecency(x, sorted[1..])
  }

  /**
   * `[...entries].sort((a, b) => dateB - dateA)`: a stable sort, most recent start first, of a
   * copy of the collection.
   */
  function SortByRecency(entries: seq<TimeEntry>): seq<TimeEntry>
  {
    if entries == [] then [] else InsertByRecency(entries[0], SortByRecency(entries[1..]))
  }

  lemma {:induction false} InsertByRecencyPermutes(x: TimeEntry, sorted: seq<TimeEntry>)
    ensures multiset(InsertByRecency(x, sorted)) == multiset([x] + sorted)
  {
    if sorted != [] && StartsBefore(x, sorted[0]) {
      InsertByRecencyPermutes(x, sorted[1..]);
      assert sorted == [sorted[0]] + sorted[1..];
    }
  }

  /** The view holds the same entries as the collection, each as often. */
  lemma {:induction false} SortByRecencyPermutes(entries: seq<TimeEntry>)
    ensures multiset(SortByRecency(entries)) == multiset(entries)
  {
    if entries != [] {
      SortByRecencyPermutes(entries[1..]);
      InsertByRecencyPermutes(entries[0], SortByRecency(entries[1..]));
      assert entries == [entries[0]] + entries[1..];
    }
  }

  lemma {:induction false} InsertByRecencyMembers(x: TimeEntry, sorted: seq<TimeEntry>)
    ensures forall y :: y in InsertByRecency(x, sorted) <==> y == x || y in sorted
  {
    if sorted != [] && StartsBefore(x, sorted[0]) {
      InsertByRecencyMembers(x, sorted[1..]);
      assert sorted == [sorted[0]] + sorted[1..];
    }
  }

  lemma NewestFirstCons(h: TimeEntry, t: seq<TimeEntry>)
    requires NewestFirst(t)
    requires forall y :: y in t ==> !StartsBefore(h, y)
    ensures NewestFirst([h] + t)
  {
    var r := [h] + t;
    forall i, j | 0 <= i < j < |r| ensures !StartsBefore(r[i], r[j]) {
      if i == 0 {
        assert r[j] == t[j - 1] && r[j] in t;
      } else {
        assert r[i] == t[i - 1] && r[j] == t[j - 1];
      }
    }
  }

  lemma {:induction false} InsertByRecencyNewestFirst(x: TimeEntry, sorted: seq<TimeEntry>)
    requires NewestFirst(sorted)
    ensures NewestFirst(InsertByRecency(x, sorted))
  {
    if sorted == [] {
    } else if !StartsBefore(x, sorted[0]) {
      forall y | y in sorted ensures !StartsBefore(x, y) {
        var k :| 0 <= k < |sorted| && sorted[k] == y;
        if k > 0 { NotBeforeTransitive(x, sorted[0], sorted[k]); }
      }
      NewestFirstCons(x, sorted);
    } else {
      var tail := InsertByRecency(x, sorted[1..]);
      assert NewestFirst(sorted[1..]) by {
        forall i, j | 0 <= i < j < |sorted[1..]| ensures !StartsBefore(sorted[1..][i], sorted[1..][j]) {
          assert sorted[1..][i] == sorted[i + 1] && sorted[1..][j] == sorted[j + 1];
        }
      }
      InsertByRecencyNewestFirst(x, sorted[1..]);
      InsertByRecencyMembers(x, sorted[1..]);
      StartsBeforeAsymmetric(x, sorted[0]);
      forall y | y in tail ensures !StartsBefore(sorted[0], y) {
        if y != x {
          var k :| 0 <= k < |sorted[1..]| && sorted[1..][k] == y;
          assert sorted[k + 1] == y;
        }
      }
      NewestFirstCons(sorted[0], tail);
    }
  }

  /** The view is ordered most recent first. */
  lemma {:induction false} SortByRecencyNewestFirst(entries: seq<TimeEntry>)
    ensures NewestFirst(SortByRecency(entries))
  {
    if entries != [] {
      SortByRecencyNewestFirst(entries[1..]);
      InsertByRecencyNewestFirst(entries[0], SortByRecency(entries[1..]));
    }
  }

  /** The entries of `s` that start at the given date and time, in order. */
  function StartingAt(s: seq<TimeEntry>, date: string, time: string): seq<TimeEntry>
  {
    if s == [] then []
    else (if s[0].date == date && s[0].startTime == time then [s[0]] else []) + StartingAt(s[1..], date, time)
  }

  lemma {:induction false} StartingAtConcat(a: seq<TimeEntry>, b: seq<TimeEntry>, date: string, time: string)
    ensures StartingAt(a + b, date, time) == StartingAt(a, date, time) + StartingAt(b, date, time)
  {
    if a == [] {
      assert a + b == b;
    } else {
      assert (a + b)[0] == a[0];
      assert (a + b)[1..] == a[1..] + b;
      StartingAtConcat(a[1..], b, date, time);
    }
  }

  lemma {:induction false} InsertByRecencyStable(x: TimeEntry, sorted: seq<TimeEntry>, date: string, time: string)
    ensures StartingAt(InsertByRecency(x, sorted), date, time) == StartingAt([x] + sorted, date, time)
  {
    if sorted != [] && StartsBefore(x, sorted[0]) {
      var h := sorted[0];
      InsertByRecencyStable(x, sorted[1..], date, time);
      StartingAtConcat([h], InsertByRecency(x, sorted[1..]), date, time);
      StartingAtConcat([x], sorted[1..], date, time);
      StartingAtConcat([x], sorted, date, time);
      StartingAtConcat([h], sorted[1..], date, time);
      assert sorted == [h] + sorted[1..];
      if SameStart(x, h) { SameStartNotBefore(x, h); }
      assert StartingAt([h], date, time) == [] || StartingAt([x], date, time) == [];
    }
  }

  /**
   * The view is stable: the entries sharing one start appear in the view in the order they have in
   * the collection.
   */
  lemma {:induction false} SortByRecencyStable(entries: seq<TimeEntry>, date: string, time: string)
    ensures StartingAt(SortByRecency(entries), date, time) == StartingAt(entries, date, time)
  {
    if entries != [] {
      SortByRecencyStable(entries[1..], date, time);
      InsertByRecencyStable(entries[0], SortByRecency(entries[1..]), date, time);
      StartingAtConcat([entries[0]], SortByRecency(entries[1..]), date, time);
      StartingAtConcat([entries[0]], entries[1..], date, time);
      assert entries == [entries[0]] + entries[1..];
    }
  }

  /** The view's total is the collection's total. */
  lemma {:induction false} SortByRecencyTotal(entries: seq<TimeEntry>)
    ensures TotalHours(SortByRecency(entries)) == TotalHours(entries)
  {
    if entries != [] {
      SortByRecencyTotal(entries[1..]);
      InsertByRecencyTotal(entries[0], SortByRecency(entries[1..]));
      TotalHoursAppend([entries[0]], entries[1..]);
      assert entries == [entries[0]] + entries[1..];
    }
  }

  lemma {:induction false} InsertByRecencyTotal(x: TimeEntry, sorted: seq<TimeEntry>)
    ensures TotalHours(InsertByRecency(x, sorted)) == x.durationHours + TotalHours(sorted)
  {
    TotalHoursAppend([x], sorted);
    assert TotalHours([x]) == TotalHours([]) + x.durationHours by { assert [x][..0] == []; }
    if sorted != [] && StartsBefore(x, sorted[0]) {
      InsertByRecencyTotal(x, sorted[1..]);
      TotalHoursAppend([sorted[0]], InsertByRecency(x, sorted[1..]));
      TotalHoursAppend([sorted[0]], sorted[1..]);
      assert sorted == [sorted[0]] + sorted[1..];
      assert TotalHours([sorted[0]]) == TotalHours([]) + sorted[0].durationHours by {
        assert [sorted[0]][..0] == [];
      }
    }
  }

  // ---------------------------------------------------------------------------------------------
  // The formatted total

  /** `Math.round`: halves round up. */
  function RoundHalfUp(x: real): (n: int)
    ensures n as real - 0.5 <= x < n as real + 0.5
  {
    (x + 0.5).Floor
  }

  /** `Math.floor(total)`. */
  function WholeHours(total: real): (h: int)
    ensures h as real <= total < h as real + 1.0
  {
    total.Floor
  }

  /** `Math.round((total - hours) * 60)`. */
  function LeftoverMinutes(total: real): (m: int)
    ensures 0 <= m <= 60
    ensures var frac := (total - WholeHours(total) as real) * 60.0; m as real - 0.5 <= frac < m as real + 0.5
  {
    RoundHalfUp((total - WholeHours(total) as real) * 60.0)
  }

  /** `${hours}h ${minutes}min`. */
  function FormatTotalHours(total: real): string
  {
    Text.IntToString(WholeHours(total)) + "h " + Text.IntToString(LeftoverMinutes(total)) + "min"
  }

  /** A total just under two hours is shown as one hour and sixty minutes. */
  lemma FormattedMinutesCanBeSixty()
    ensures WholeHours(1.999) == 1 && LeftoverMinutes(1.999) == 60
    ensures FormatTotalHours(1.999) == "1h 60min"
  {
    assert (1.999).Floor == 1;
    assert ((1.999 - 1.0) * 60.0 + 0.5).Floor == 60;
  }

  /**
   * Two entries, eight hours on 2024-01-01 from 08:00 and four hours on 2024-01-02 from 09:00:
   * the view shows the second first, and the total reads "12h 0min".
   */
  lemma TwoEntriesScenario(first: TimeEntry, second: TimeEntry)
    requires first.date == "2024-01-01" && first.startTime == "08:00" && first.durationHours == 8.0
    requires second.date == "2024-01-02" && second.startTime == "09:00" && second.durationHours == 4.0
    ensures SortByRecency([first, second]) == [second, first]
    ensures TotalHours([first, second]) == 12.0
    ensures FormatTotalHours(TotalHours([first, second])) == "12h 0min"
  {
    Text.LessCommonPrefix("2024-01-0", "1", "2");
    assert first.date == "2024-01-0" + "1" && second.date == "2024-01-0" + "2";
    assert Text.Less(first.date, second.date);
    StartsBeforeAsymmetric(first, second);
    assert [first, second][1..] == [second];
    assert SortByRecency([second]) == [second];
    assert StartsBefore(first, second);
    assert [second][1..] == [] && InsertByRecency(first, []) == [first];
    assert InsertByRecency(first, [second]) == [second] + [first];
    assert [first, second][..1] == [first];
    assert [first][..0] == [];
    assert TotalHours([first]) == 8.0;
    assert WholeHours(12.0) == 12 && LeftoverMinutes(12.0) == 0;
    assert Text.IntToString(12) == "12" && Text.IntToString(0) == "0";
  }

  // ---------------------------------------------------------------------------------------------
  // The store

  /** The `timeEntries` store: the collection, its total, and the storage it mirrors to. */
  class TimeEntriesStore {
    var entries: seq<TimeEntry>
    var totalHours: real
    const storage: LocalStorage

    /** The total is the aggregate of the collection. */
    predicate Valid()
      reads this, storage
    {
      storage.Valid() && totalHours == TotalHours(entries)
    }

    constructor (storage: LocalStorage)
      requires storage.Valid()
      ensures Valid() && this.storage == storage
      ensures entries == [] && totalHours == 0.0
    {
      entries := [];
      totalHours := 0.0;
      this.storage := storage;
    }

    /** `calculateTotalHours`: recompute the aggregate. */
    method CalculateTotalHours()
      modifies this
      ensures entries == old(entries) && totalHours == TotalHours(entries)
    {
      totalHours := TotalHours(entries);
    }

    /** `saveEntries`: write the whole collection to the `timeEntries` key. */
    method SaveEntries()
      requires storage.Valid()
      modifies storage
      ensures storage.Valid()
      ensures storage.items == old(storage.items)[EntriesKey := EntriesJson(entries)]
    {
      storage.SetItem(EntriesKey, EntriesJson(entries));
    }

    /**
     * `loadEntries`: with a stored array, replace the collection by it and recompute the total;
     * with nothing stored, change nothing; with other text, `JSON.parse` throws (`thrown`) and
     * nothing changes.
     */
    method LoadEntries() returns (thrown: bool)
      modifies this
      ensures var r := LoadFrom(storage.GetItem(EntriesKey), old(entries));
              thrown == r.Failure? && entries == (if r.Success? then r.value else old(entries))
      ensures Truthy(storage.GetItem(EntriesKey)) && !thrown ==> totalHours == TotalHours(entries)
      ensures !Truthy(storage.GetItem(EntriesKey)) || thrown ==> totalHours == old(totalHours)
      ensures old(Valid()) ==> Valid()
    {
      var entriesStr := storage.GetItem(EntriesKey);
      thrown := false;
      if Truthy(entriesStr) {
        match ParseEntries(entriesStr.value)
        case None =>
          thrown := true;
        case Some(parsed) =>
          entries := parsed;
          CalculateTotalHours();
      }
    }

    /** `addEntry`: append, save, recompute. */
    method AddEntry(entry: TimeEntry)
      requires Valid()
      modifies this, storage
      ensures Valid()
      ensures entries == old(entries) + [entry]
      ensures storage.items == old(storage.items)[EntriesKey := EntriesJson(entries)]
      ensures totalHours == old(totalHours) + entry.durationHours
    {
      entries := entries + [entry];
      SaveEntries();
      CalculateTotalHours();
      TotalHoursAppend(old(entries), [entry]);
      assert TotalHours([entry]) == entry.durationHours by { assert [entry][..0] == []; }
    }

    /** `deleteEntry`: drop every entry with the id, save, recompute. */
    method DeleteEntry(id: int)
      requires Valid()
      modifies this, storage
      ensures Valid()
      ensures entries == WithoutId(old(entries), id)
      ensures storage.items == old(storage.items)[EntriesKey := EntriesJson(entries)]
    {
      entries := WithoutId(entries, id);
      SaveEntries();
      CalculateTotalHours();
    }

    /** `sortedEntries`: the newest-first view of a copy; the collection itself is not reordered. */
    function SortedEntries(): (view: seq<TimeEntry>)
      reads this
      ensures multiset(view) == multiset(entries)
      ensures NewestFirst(view)
      ensures forall date, time :: StartingAt(view, date, time) == StartingAt(entries, date, time)
    {
      SortByRecencyPermutes(entries);
      SortByRecencyNewestFirst(entries);
      forall date, time ensures StartingAt(SortByRecency(entries), date, time) == StartingAt(entries, date, time) {
        SortByRecencyStable(entries, date, time);
      }
      SortByRecency(entries)
    }

    /**
     * `formattedTotalHours`: the whole hours below the total and the leftover minutes, rounded to
     * the nearest minute, between 0 and 60.
     */
    function FormattedTotalHours(): (text: string)
      reads this
      ensures text == FormatTotalHours(totalHours)
    {
      FormatTotalHours(totalHours)
    }
  }
}
