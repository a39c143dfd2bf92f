/**
 * What the local store's snapshot operations compute, as functions of the
 * stored list of daily snapshots (services/apiLocalStorage.ts), and the
 * properties of those functions: ordered upsert, creation of today's
 * snapshot on demand, gap filling, and edits to today's snapshot.
 */
module DailySnapshots {
  import opened Wrappers
  import opened Seqs
  import opened HabitTypes

  /** The store's invariant: ascending by date, at most one snapshot per date. */
  ghost predicate StrictlySorted(ss: seq<DailySnapshot>) {
    forall i, j :: 0 <= i < j < |ss| ==> ss[i].date < ss[j].date
  }

  function OnDay(d: Day): DailySnapshot -> bool {
    (s: DailySnapshot) => s.date == d
  }

  /** `snapshots.find(s => s.date === d)`. */
  function AtDate(ss: seq<DailySnapshot>, d: Day): Option<DailySnapshot> {
    Find(ss, OnDay(d))
  }

  /** In a sorted list the snapshot found for a date is the only one with that date. */
  lemma SortedAtDate(ss: seq<DailySnapshot>, d: Day)
    requires StrictlySorted(ss)
    ensures forall i :: 0 <= i < |ss| && ss[i].date == d ==> AtDate(ss, d) == Some(ss[i])
    ensures (forall i :: 0 <= i < |ss| ==> ss[i].date != d) ==> AtDate(ss, d) == None
  {
  }

  // ---------------------------------------------------------------------
  // saveDailySnapshot

  /**
   * Where the loop of saveDailySnapshot stops: the first position whose
   * date is not earlier than `d`, or the end of the list.
   */
  function Slot(ss: seq<DailySnapshot>, d: Day): (k: nat)
    ensures k <= |ss|
  {
    SlotFrom(ss, d, 0)
  }

  /** The same walk, started at position `i`. */
  function SlotFrom(ss: seq<DailySnapshot>, d: Day, i: nat): (k: nat)
    requires i <= |ss|
    ensures i <= k <= |ss|
    decreases |ss| - i
  {
    if i == |ss| || ss[i].date >= d then i else SlotFrom(ss, d, i + 1)
  }

  /** The walk passes only earlier dates and stops at a date not earlier than `d`, or at the end. */
  lemma {:induction false} SlotFromSpec(ss: seq<DailySnapshot>, d: Day, i: nat)
    requires i <= |ss|
    requires forall j :: 0 <= j < i ==> ss[j].date < d
    ensures forall j :: 0 <= j < SlotFrom(ss, d, i) ==> ss[j].date < d
    ensures SlotFrom(ss, d, i) < |ss| ==> ss[SlotFrom(ss, d, i)].date >= d
    decreases |ss| - i
  {
    if i < |ss| && ss[i].date < d {
      SlotFromSpec(ss, d, i + 1);
    }
  }

  /** Every position before the stopping one has an earlier date; the one at it does not. */
  lemma SlotSpec(ss: seq<DailySnapshot>, d: Day)
    ensures forall j :: 0 <= j < Slot(ss, d) ==> ss[j].date < d
    ensures Slot(ss, d) < |ss| ==> ss[Slot(ss, d)].date >= d
  {
    SlotFromSpec(ss, d, 0);
  }

  /** A walk started at `i` stops at the first position from `i` on whose date is not earlier than `d`. */
  lemma {:induction false} SlotFromAt(ss: seq<DailySnapshot>, d: Day, i: nat, m: nat)
    requires i <= m <= |ss|
    requires forall j :: i <= j < m ==> ss[j].date < d
    requires m < |ss| ==> ss[m].date >= d
    ensures SlotFrom(ss, d, i) == m
    decreases m - i
  {
    if i < m {
      SlotFromAt(ss, d, i + 1, m);
    }
  }

  /** The stopping position is the only one with earlier dates before it and a date not earlier at it. */
  lemma SlotAt(ss: seq<DailySnapshot>, d: Day, m: nat)
    requires m <= |ss|
    requires forall j :: 0 <= j < m ==> ss[j].date < d
    requires m < |ss| ==> ss[m].date >= d
    ensures Slot(ss, d) == m
  {
    SlotFromAt(ss, d, 0, m);
  }

  /**
   * The list after saveDailySnapshot(s): the snapshot at the stopping
   * position is replaced when it has the same date; otherwise `s` is
   * inserted there (before the first later date, or at the end).
   */
  function Upserted(ss: seq<DailySnapshot>, s: DailySnapshot): seq<DailySnapshot> {
    var k := Slot(ss, s.date);
    if k < |ss| && ss[k].date == s.date then ss[k := s] else ss[..k] + [s] + ss[k..]
  }

  /** The upsert keeps the list sorted and date-unique. */
  lemma UpsertSorted(ss: seq<DailySnapshot>, s: DailySnapshot)
    requires StrictlySorted(ss)
    ensures StrictlySorted(Upserted(ss, s))
  {
    var k := Slot(ss, s.date);
    if !(k < |ss| && ss[k].date == s.date) {
      SlotSpec(ss, s.date);
      InsertSorted(ss, k, s);
    }
  }

  /** Inserting a snapshot between the earlier and the later dates keeps the list sorted. */
  lemma InsertSorted(ss: seq<DailySnapshot>, k: nat, s: DailySnapshot)
    requires StrictlySorted(ss) && k <= |ss|
    requires forall j :: 0 <= j < k ==> ss[j].date < s.date
    requires k < |ss| ==> ss[k].date > s.date
    ensures StrictlySorted(ss[..k] + [s] + ss[k..])
  {
    var r := ss[..k] + [s] + ss[k..];
    assert forall i :: 0 <= i < |r| ==> r[i] == if i < k then ss[i] else if i == k then s else ss[i - 1];
  }

  /** In a sorted list, the snapshot found for a date is whichever member has that date. */
  lemma SortedAtDateIff(ss: seq<DailySnapshot>, d: Day)
    requires StrictlySorted(ss)
    ensures forall x :: AtDate(ss, d) == Some(x) <==> x in ss && x.date == d
  {
    forall x | x in ss && x.date == d ensures AtDate(ss, d) == Some(x) {
      var i :| 0 <= i < |ss| && ss[i] == x;
      SortedAtDate(ss, d);
    }
  }

  /** The upsert stores `s` and keeps every stored snapshot of another date. */
  lemma UpsertMembers(ss: seq<DailySnapshot>, s: DailySnapshot)
    ensures s in Upserted(ss, s)
    ensures forall x: DailySnapshot :: x.date != s.date ==> (x in Upserted(ss, s) <==> x in ss)
  {
    var k := Slot(ss, s.date);
    var r := Upserted(ss, s);
    if k < |ss| && ss[k].date == s.date {
      assert r[k] == s;
      forall x: DailySnapshot | x.date != s.date ensures x in r <==> x in ss {
        if x in ss {
          var i :| 0 <= i < |ss| && ss[i] == x;
          assert r[i] == x;
        }
        if x in r {
          var i :| 0 <= i < |r| && r[i] == x;
          assert ss[i] == x;
        }
      }
    } else {
      assert ss == ss[..k] + ss[k..];
    }
  }

  /**
   * Reading a date back after the upsert (the store seen as a map from
   * date to snapshot): the saved snapshot for its own date, the old
   * snapshot for every other date.
   */
  lemma UpsertAtDate(ss: seq<DailySnapshot>, s: DailySnapshot, d: Day)
    requires StrictlySorted(ss)
    ensures AtDate(Upserted(ss, s), d) == if d == s.date then Some(s) else AtDate(ss, d)
  {
    var r := Upserted(ss, s);
    UpsertSorted(ss, s);
    UpsertMembers(ss, s);
    SortedAtDateIff(r, d);
    SortedAtDateIff(ss, d);
    if d != s.date && AtDate(ss, d).Some? {
      assert AtDate(r, d) == AtDate(ss, d);
    }
  }

  /** The upsert replaces in place exactly when the date is already stored, else grows by one. */
  lemma UpsertLength(ss: seq<DailySnapshot>, s: DailySnapshot)
    requires StrictlySorted(ss)
    ensures |Upserted(ss, s)| == if AtDate(ss, s.date).Some? then |ss| else |ss| + 1
  {
    SortedAtDate(ss, s.date);
    SlotSpec(ss, s.date);
    var k := Slot(ss, s.date);
    if AtDate(ss, s.date).Some? {
      var i := FirstIndex(ss, OnDay(s.date));
      assert ss[i].date == s.date;
      assert i == k;
    }
  }

  /** Saving the same snapshot twice is the same as saving it once (any list). */
  lemma UpsertIdempotent(ss: seq<DailySnapshot>, s: DailySnapshot)
    ensures Upserted(Upserted(ss, s), s) == Upserted(ss, s)
  {
    var k := Slot(ss, s.date);
    var r := Upserted(ss, s);
    SlotSpec(ss, s.date);
    assert r[k] == s;
    assert forall j :: 0 <= j < k ==> r[j] == ss[j];
    SlotAt(r, s.date, k);
  }

  // ---------------------------------------------------------------------
  // getTodaySnapshot

  /** A copy of a day's entries with every done count reset to 0. */
  function ResetCounts(hs: seq<HabitEntry>): (r: seq<HabitEntry>)
    ensures |r| == |hs|
  {
    seq(|hs|, i requires 0 <= i < |hs| => HabitEntry(hs[i].habbitId, hs[i].habbitNeedCount, 0))
  }

  /**
   * The snapshot first in `snapshots.sort((a, b) => b.date.localeCompare(a.date))`:
   * the latest date, and among equal dates the earliest position (the sort is stable).
   */
  function LatestIndex(ss: seq<DailySnapshot>): (k: nat)
    requires |ss| > 0
    ensures k < |ss|
    ensures forall j :: 0 <= j < |ss| ==> ss[j].date <= ss[k].date
    ensures forall j :: 0 <= j < k ==> ss[j].date < ss[k].date
  {
    if |ss| == 1 then 0
    else
      var k := LatestIndex(ss[..|ss| - 1]);
      if ss[|ss| - 1].date > ss[k].date then |ss| - 1 else k
  }

  /** In a sorted list the latest snapshot is the last one. */
  lemma SortedLatest(ss: seq<DailySnapshot>)
    requires StrictlySorted(ss) && |ss| > 0
    ensures LatestIndex(ss) == |ss| - 1
  {
  }

  /** The snapshot getTodaySnapshot returns. */
  function TodaySnapshot(ss: seq<DailySnapshot>, today: Day): DailySnapshot {
    var k := FirstIndex(ss, OnDay(today));
    if k >= 0 then ss[k]
    else if ss == [] then Snapshot(today, [])
    else Snapshot(today, ResetCounts(ss[LatestIndex(ss)].habbits))
  }

  /** The list after getTodaySnapshot: unchanged when today is stored, else with the new snapshot saved. */
  function AfterGetToday(ss: seq<DailySnapshot>, today: Day): seq<DailySnapshot> {
    if FirstIndex(ss, OnDay(today)) >= 0 then ss else Upserted(ss, TodaySnapshot(ss, today))
  }

  /**
   * After getTodaySnapshot, today's snapshot is stored and is the one it
   * returned, so asking again returns the same snapshot and changes nothing.
   */
  lemma GetTodayStable(ss: seq<DailySnapshot>, today: Day)
    ensures var s1 := AfterGetToday(ss, today);
      && FirstIndex(s1, OnDay(today)) >= 0
      && s1[FirstIndex(s1, OnDay(today))] == TodaySnapshot(ss, today)
      && TodaySnapshot(s1, today) == TodaySnapshot(ss, today)
      && AfterGetToday(s1, today) == s1
  {
    if FirstIndex(ss, OnDay(today)) < 0 {
      var t := TodaySnapshot(ss, today);
      var k := Slot(ss, today);
      var r := Upserted(ss, t);
      assert r == ss[..k] + [t] + ss[k..];
      assert r[k] == t;
      assert forall j :: 0 <= j < k ==> r[j] == ss[j];
      assert FirstIndex(r, OnDay(today)) == k;
    }
  }

  /** getTodaySnapshot keeps the store sorted. */
  lemma GetTodaySorted(ss: seq<DailySnapshot>, today: Day)
    requires StrictlySorted(ss)
    ensures StrictlySorted(AfterGetToday(ss, today))
  {
    if FirstIndex(ss, OnDay(today)) < 0 {
      UpsertSorted(ss, TodaySnapshot(ss, today));
    }
  }

  /**
   * What getTodaySnapshot creates when today is missing: an empty snapshot
   * for an empty store, otherwise the latest snapshot's entries (same ids,
   * targets and order) with nothing done.
   */
  lemma TodaySnapshotCreated(ss: seq<DailySnapshot>, today: Day)
    requires forall i :: 0 <= i < |ss| ==> ss[i].date != today
    ensures TodaySnapshot(ss, today).date == today
    ensures ss == [] ==> TodaySnapshot(ss, today).habbits == []
    ensures ss != [] ==>
      var prev := ss[LatestIndex(ss)].habbits;
      var hs := TodaySnapshot(ss, today).habbits;
      && |hs| == |prev|
      && forall i :: 0 <= i < |hs| ==>
        hs[i].habbitId == prev[i].habbitId && hs[i].habbitNeedCount == prev[i].habbitNeedCount
        && hs[i].habbitDidCount == 0
    ensures |AfterGetToday(ss, today)| == |ss| + 1
  {
  }

  // ---------------------------------------------------------------------
  // fillHistory

  /** The second snapshot of the descending stable sort: the latest once the latest is set aside. */
  function SecondLatest(ss: seq<DailySnapshot>): DailySnapshot
    requires |ss| > 1
  {
    var k := LatestIndex(ss);
    var rest := ss[..k] + ss[k + 1..];
    rest[LatestIndex(rest)]
  }

  /** In a sorted list the second latest snapshot is the one before last. */
  lemma SortedSecondLatest(ss: seq<DailySnapshot>)
    requires StrictlySorted(ss) && |ss| > 1
    ensures SecondLatest(ss) == ss[|ss| - 2]
  {
    SortedLatest(ss);
    var rest := ss[..|ss| - 1] + ss[|ss|..];
    assert rest == ss[..|ss| - 1];
    SortedLatest(rest);
  }

  /** One snapshot per day `lo`, `lo + 1`, ..., `hi - 1`, each holding `hs`. */
  function Run(lo: Day, hi: Day, hs: seq<HabitEntry>): (r: seq<DailySnapshot>)
    ensures |r| == if lo < hi then hi - lo else 0
    ensures forall i :: 0 <= i < |r| ==> r[i] == Snapshot(lo + i, hs)
    decreases hi - lo
  {
    if lo >= hi then [] else [Snapshot(lo, hs)] + Run(lo + 1, hi, hs)
  }

  /** The loop of fillHistory: save a snapshot holding `hs` for every day from `from` up to `to`, exclusive. */
  function Backfilled(ss: seq<DailySnapshot>, from: Day, to: Day, hs: seq<HabitEntry>): seq<DailySnapshot>
    decreases to - from
  {
    if from >= to then ss else Backfilled(Upserted(ss, Snapshot(from, hs)), from + 1, to, hs)
  }

  /** The backfill loop keeps a sorted list sorted, one upsert at a time. */
  lemma {:induction false} BackfilledSorted(ss: seq<DailySnapshot>, lo: Day, hi: Day, hs: seq<HabitEntry>)
    requires StrictlySorted(ss)
    ensures StrictlySorted(Backfilled(ss, lo, hi, hs))
    decreases hi - lo
  {
    if lo < hi {
      var next := Upserted(ss, Snapshot(lo, hs));
      UpsertSorted(ss, Snapshot(lo, hs));
      BackfilledSorted(next, lo + 1, hi, hs);
    }
  }

  /**
   * The list after fillHistory: today's snapshot is made sure of; then, if
   * there are at least two snapshots, every day after the second latest
   * one and before today gets its entries with nothing done.
   */
  function AfterFillHistory(ss: seq<DailySnapshot>, today: Day): seq<DailySnapshot> {
    GapFilled(AfterGetToday(ss, today), today)
  }

  /** The second half of fillHistory, once today's snapshot is stored. */
  function GapFilled(s1: seq<DailySnapshot>, today: Day): seq<DailySnapshot> {
    if |s1| > 1 then
      var prev := SecondLatest(s1);
      Backfilled(s1, prev.date + 1, today, ResetCounts(prev.habbits))
    else s1
  }

  /** Saving a snapshot dated after every snapshot of `front` and before `last` puts it just before `last`. */
  lemma UpsertBeforeLast(front: seq<DailySnapshot>, last: DailySnapshot, s: DailySnapshot)
    requires forall i :: 0 <= i < |front| ==> front[i].date < s.date
    requires s.date < last.date
    ensures Upserted(front + [last], s) == front + [s] + [last]
  {
    var ss := front + [last];
    assert ss[|front|] == last;
    assert forall j :: 0 <= j < |front| ==> ss[j].date < s.date;
    SlotAt(ss, s.date, |front|);
    assert ss[..|front|] == front;
    assert ss[|front|..] == [last];
  }

  /** The first step of the backfill loop before the last snapshot: the new day goes just before it. */
  lemma BackfillFirstDay(front: seq<DailySnapshot>, last: DailySnapshot, lo: Day, hs: seq<HabitEntry>)
    requires forall i :: 0 <= i < |front| ==> front[i].date < lo
    requires lo < last.date
    ensures Backfilled(front + [last], lo, last.date, hs) == Backfilled(front + [Snapshot(lo, hs)] + [last], lo + 1, last.date, hs)
  {
    UpsertBeforeLast(front, last, Snapshot(lo, hs));
  }

  /** A run starting at `lo` is the snapshot of `lo` followed by the run starting the day after. */
  lemma RunFirstDay(front: seq<DailySnapshot>, last: DailySnapshot, lo: Day, hi: Day, hs: seq<HabitEntry>)
    requires lo < hi
    ensures front + [Snapshot(lo, hs)] + Run(lo + 1, hi, hs) + [last] == front + Run(lo, hi, hs) + [last]
  {
    assert Run(lo, hi, hs) == [Snapshot(lo, hs)] + Run(lo + 1, hi, hs);
  }

  /**
   * Backfilling the gap before the last snapshot, when every earlier
   * snapshot is dated before the gap, inserts the run of new days in front
   * of the last snapshot and changes nothing else.
   */
  lemma {:induction false} BackfillInserts(front: seq<DailySnapshot>, last: DailySnapshot, lo: Day, hs: seq<HabitEntry>)
    requires forall i :: 0 <= i < |front| ==> front[i].date < lo
    requires lo <= last.date
    ensures Backfilled(front + [last], lo, last.date, hs) == front + Run(lo, last.date, hs) + [last]
    decreases last.date - lo
  {
    if lo < last.date {
      var front' := front + [Snapshot(lo, hs)];
      assert forall i :: 0 <= i < |front'| ==> front'[i].date < lo + 1;
      BackfillInserts(front', last, lo + 1, hs);
      BackfillFirstDay(front, last, lo, hs);
      RunFirstDay(front, last, lo, last.date, hs);
    }
  }

  /** When today is stored after the snapshot before last in a sorted list, today's snapshot is the last one. */
  lemma TodayIsLast(s1: seq<DailySnapshot>, today: Day)
    requires StrictlySorted(s1) && |s1| > 1
    requires FirstIndex(s1, OnDay(today)) >= 0
    requires s1[|s1| - 2].date < today
    ensures s1[|s1| - 1].date == today
  {
    var t := FirstIndex(s1, OnDay(today));
    assert OnDay(today)(s1[t]);
    SortedBeforeLast(s1);
  }

  /** In a sorted list every snapshot but the last is dated no later than the one before last. */
  lemma SortedBeforeLast(s1: seq<DailySnapshot>)
    requires StrictlySorted(s1) && |s1| > 1
    ensures forall i :: 0 <= i < |s1| - 1 ==> s1[i].date <= s1[|s1| - 2].date
  {
  }

  /** The run of new days slots in between the snapshot before last and the last one. */
  lemma SpliceSorted(s1: seq<DailySnapshot>, hs: seq<HabitEntry>)
    requires StrictlySorted(s1) && |s1| > 1
    ensures var r := s1[..|s1| - 1] + Run(s1[|s1| - 2].date + 1, s1[|s1| - 1].date, hs) + [s1[|s1| - 1]];
      StrictlySorted(r)
  {
    var front := s1[..|s1| - 1];
    var lo := s1[|s1| - 2].date + 1;
    var run := Run(lo, s1[|s1| - 1].date, hs);
    var r := front + run + [s1[|s1| - 1]];
    assert forall i :: 0 <= i < |r| ==>
      r[i] == if i < |front| then front[i] else if i < |r| - 1 then Snapshot(lo + (i - |front|), hs) else s1[|s1| - 1];
    assert forall i :: 0 <= i < |r| ==>
      r[i].date == if i < |front| then front[i].date else if i < |r| - 1 then lo + (i - |front|) else s1[|s1| - 1].date;
  }

  /** The spliced list holds the old snapshots and the run, and nothing else. */
  lemma SpliceMembers(s1: seq<DailySnapshot>, run: seq<DailySnapshot>)
    requires |s1| > 0
    ensures forall x :: x in s1[..|s1| - 1] + run + [s1[|s1| - 1]] <==> x in s1 || x in run
  {
    assert s1 == s1[..|s1| - 1] + [s1[|s1| - 1]];
  }

  /** Reading back a day of the run from the spliced list. */
  lemma SpliceAtRunDate(s1: seq<DailySnapshot>, hs: seq<HabitEntry>, d: Day)
    requires StrictlySorted(s1) && |s1| > 1
    requires s1[|s1| - 2].date < d < s1[|s1| - 1].date
    ensures var r := s1[..|s1| - 1] + Run(s1[|s1| - 2].date + 1, s1[|s1| - 1].date, hs) + [s1[|s1| - 1]];
      AtDate(r, d) == Some(Snapshot(d, hs))
  {
    var run := Run(s1[|s1| - 2].date + 1, s1[|s1| - 1].date, hs);
    var r := s1[..|s1| - 1] + run + [s1[|s1| - 1]];
    SpliceSorted(s1, hs);
    RunHolds(s1[|s1| - 2].date + 1, s1[|s1| - 1].date, hs, d);
    assert Snapshot(d, hs) in r;
    SortedAtDateIff(r, d);
  }

  /** Reading back a day outside the run from the spliced list. */
  lemma SpliceAtOtherDate(s1: seq<DailySnapshot>, hs: seq<HabitEntry>, d: Day)
    requires StrictlySorted(s1) && |s1| > 1
    requires !(s1[|s1| - 2].date < d < s1[|s1| - 1].date)
    ensures var r := s1[..|s1| - 1] + Run(s1[|s1| - 2].date + 1, s1[|s1| - 1].date, hs) + [s1[|s1| - 1]];
      AtDate(r, d) == AtDate(s1, d)
  {
    var run := Run(s1[|s1| - 2].date + 1, s1[|s1| - 1].date, hs);
    var r := s1[..|s1| - 1] + run + [s1[|s1| - 1]];
    SpliceSorted(s1, hs);
    RunMisses(s1[|s1| - 2].date + 1, s1[|s1| - 1].date, hs, d);
    SpliceMembers(s1, run);
    SortedAtDateIff(r, d);
    SortedAtDateIff(s1, d);
    if AtDate(s1, d).Some? {
      assert AtDate(r, d) == AtDate(s1, d);
    }
  }

  /** Reading a date back from the spliced list. */
  lemma SpliceAtDate(s1: seq<DailySnapshot>, hs: seq<HabitEntry>, d: Day)
    requires StrictlySorted(s1) && |s1| > 1
    ensures var prev := s1[|s1| - 2];
      var last := s1[|s1| - 1];
      var r := s1[..|s1| - 1] + Run(prev.date + 1, last.date, hs) + [last];
      AtDate(r, d) == if prev.date < d < last.date then Some(Snapshot(d, hs)) else AtDate(s1, d)
  {
    if s1[|s1| - 2].date < d < s1[|s1| - 1].date {
      SpliceAtRunDate(s1, hs, d);
    } else {
      SpliceAtOtherDate(s1, hs, d);
    }
  }

  /** A run holds the snapshot of each of its days. */
  lemma RunHolds(lo: Day, hi: Day, hs: seq<HabitEntry>, d: Day)
    requires lo <= d < hi
    ensures Snapshot(d, hs) in Run(lo, hi, hs)
  {
    assert Run(lo, hi, hs)[d - lo] == Snapshot(d, hs);
  }

  /** A run holds no snapshot of a day outside it. */
  lemma RunMisses(lo: Day, hi: Day, hs: seq<HabitEntry>, d: Day)
    requires d < lo || hi <= d
    ensures forall i :: 0 <= i < |Run(lo, hi, hs)| ==> Run(lo, hi, hs)[i].date != d
  {
  }

  /** In a sorted list the gap filling starts the day after the snapshot before last. */
  lemma GapFilledSorted(s1: seq<DailySnapshot>, today: Day)
    requires StrictlySorted(s1) && |s1| > 1
    ensures GapFilled(s1, today) == Backfilled(s1, s1[|s1| - 2].date + 1, today, ResetCounts(s1[|s1| - 2].habbits))
  {
    SortedSecondLatest(s1);
  }

  /** BackfillInserts for a list taken whole: the run goes in just before its last snapshot. */
  lemma BackfillBeforeLast(s1: seq<DailySnapshot>, lo: Day, hi: Day, hs: seq<HabitEntry>)
    requires |s1| > 0 && hi == s1[|s1| - 1].date && lo <= hi
    requires forall i :: 0 <= i < |s1| - 1 ==> s1[i].date < lo
    ensures Backfilled(s1, lo, hi, hs) == s1[..|s1| - 1] + Run(lo, hi, hs) + [s1[|s1| - 1]]
  {
    var front := s1[..|s1| - 1];
    assert s1 == front + [s1[|s1| - 1]];
    assert forall i :: 0 <= i < |front| ==> front[i].date < lo;
    BackfillInserts(front, s1[|s1| - 1], lo, hs);
  }

  /**
   * The gap filling when today's snapshot is last and the snapshot before
   * it is both the second latest and the latest of the others (as in a
   * sorted list), with a non-empty gap between the two.
   */
  lemma GapFilledInserts(s1: seq<DailySnapshot>, today: Day)
    requires |s1| > 1 && SecondLatest(s1) == s1[|s1| - 2]
    requires forall i :: 0 <= i < |s1| - 1 ==> s1[i].date < s1[|s1| - 2].date + 1
    requires s1[|s1| - 1].date == today
    requires s1[|s1| - 2].date + 1 < today
    ensures var prev := s1[|s1| - 2];
      GapFilled(s1, today) == s1[..|s1| - 1] + Run(prev.date + 1, today, ResetCounts(prev.habbits)) + [s1[|s1| - 1]]
  {
    var prev := s1[|s1| - 2];
    BackfillBeforeLast(s1, prev.date + 1, today, ResetCounts(prev.habbits));
  }

  /**
   * What fillHistory's gap filling makes of `s1`: a sorted list `r` that,
   * when the day after the snapshot before last is before today, holds the
   * run of missing days just before today's snapshot, which is last;
   * otherwise `s1` itself.
   */
  ghost predicate BackfillShape(s1: seq<DailySnapshot>, r: seq<DailySnapshot>, today: Day) {
    && StrictlySorted(r)
    && if |s1| > 1 && s1[|s1| - 2].date + 1 < today then
         var prev := s1[|s1| - 2];
         && s1[|s1| - 1].date == today
         && r == s1[..|s1| - 1] + Run(prev.date + 1, today, ResetCounts(prev.habbits)) + [s1[|s1| - 1]]
       else r == s1
  }

  /** The gap-filling loop on a sorted list holding today has the backfill shape. */
  lemma GapFilledShape(s1: seq<DailySnapshot>, today: Day)
    requires StrictlySorted(s1)
    requires FirstIndex(s1, OnDay(today)) >= 0
    ensures BackfillShape(s1, GapFilled(s1, today), today)
  {
    if |s1| > 1 && s1[|s1| - 2].date + 1 < today {
      TodayIsLast(s1, today);
      SortedSecondLatest(s1);
      SortedBeforeLast(s1);
      GapFilledInserts(s1, today);
      SpliceSorted(s1, ResetCounts(s1[|s1| - 2].habbits));
    } else if |s1| > 1 {
      SortedSecondLatest(s1);
    }
  }

  /**
   * fillHistory on a sorted store: when the day after the snapshot before
   * today's is still before today, the missing days are inserted just
   * before today's snapshot, each with that snapshot's entries and nothing
   * done; otherwise the store is what getTodaySnapshot left.
   */
  lemma FillHistoryShape(ss: seq<DailySnapshot>, today: Day)
    requires StrictlySorted(ss)
    ensures BackfillShape(AfterGetToday(ss, today), AfterFillHistory(ss, today), today)
  {
    GetTodayReady(ss, today);
    GapFilledShape(AfterGetToday(ss, today), today);
  }

  /** After getTodaySnapshot a sorted store is still sorted and holds a snapshot for today. */
  lemma GetTodayReady(ss: seq<DailySnapshot>, today: Day)
    requires StrictlySorted(ss)
    ensures StrictlySorted(AfterGetToday(ss, today))
    ensures FirstIndex(AfterGetToday(ss, today), OnDay(today)) >= 0
  {
    GetTodaySorted(ss, today);
    GetTodayStable(ss, today);
  }

  /**
   * Backfill completeness: after fillHistory on a sorted store, every day
   * strictly between the second latest snapshot's date and today holds
   * that snapshot's entries with nothing done; every other day reads as
   * it did after getTodaySnapshot.
   */
  lemma FillHistoryComplete(ss: seq<DailySnapshot>, today: Day, d: Day)
    requires StrictlySorted(ss)
    requires |AfterGetToday(ss, today)| > 1
    ensures var s1 := AfterGetToday(ss, today);
      var prev := SecondLatest(s1);
      var r := AfterFillHistory(ss, today);
      AtDate(r, d) == if prev.date < d < today then Some(Snapshot(d, ResetCounts(prev.habbits))) else AtDate(s1, d)
  {
    var s1 := AfterGetToday(ss, today);
    GetTodaySorted(ss, today);
    SortedSecondLatest(s1);
    FillHistoryShape(ss, today);
    var prev := s1[|s1| - 2];
    if prev.date + 1 < today {
      SpliceAtDate(s1, ResetCounts(prev.habbits), d);
    }
  }

  /** A sorted list holding today and no gap before it is left alone by the gap filling. */
  lemma GapFilledNoGap(r: seq<DailySnapshot>, today: Day)
    requires StrictlySorted(r)
    requires |r| > 1 ==> r[|r| - 2].date + 1 >= today
    ensures GapFilled(r, today) == r
  {
    if |r| > 1 {
      SortedSecondLatest(r);
    }
  }

  /** The two ends of a spliced list: the run's last day, then the old last snapshot. */
  lemma SpliceEnds(s1: seq<DailySnapshot>, run: seq<DailySnapshot>)
    requires |s1| > 0 && |run| > 0
    ensures var r := s1[..|s1| - 1] + run + [s1[|s1| - 1]];
      r[|r| - 1] == s1[|s1| - 1] && r[|r| - 2] == run[|run| - 1]
  {
  }

  /** A list whose last snapshot is today's holds today. */
  lemma LastIsToday(r: seq<DailySnapshot>, today: Day)
    requires |r| > 0 && r[|r| - 1].date == today
    ensures FirstIndex(r, OnDay(today)) >= 0
  {
    assert OnDay(today)(r[|r| - 1]);
  }

  /** After a non-empty gap is filled, today's snapshot is last and the day before it is stored. */
  lemma GapFilledEnds(s1: seq<DailySnapshot>, today: Day)
    requires StrictlySorted(s1) && |s1| > 1
    requires FirstIndex(s1, OnDay(today)) >= 0
    requires s1[|s1| - 2].date + 1 < today
    ensures var r := GapFilled(s1, today);
      |r| > 1 && r[|r| - 1].date == today && r[|r| - 2].date + 1 == today
  {
    var prev := s1[|s1| - 2];
    var run := Run(prev.date + 1, today, ResetCounts(prev.habbits));
    TodayIsLast(s1, today);
    SortedSecondLatest(s1);
    SortedBeforeLast(s1);
    GapFilledInserts(s1, today);
    SpliceEnds(s1, run);
  }

  /** After the gap filling, a sorted list holding today still holds today and has no gap before its last snapshot. */
  lemma GapFilledLeavesNoGap(s1: seq<DailySnapshot>, today: Day)
    requires StrictlySorted(s1)
    requires FirstIndex(s1, OnDay(today)) >= 0
    ensures var r := GapFilled(s1, today);
      && FirstIndex(r, OnDay(today)) >= 0
      && (|r| > 1 ==> r[|r| - 2].date + 1 >= today)
  {
    if |s1| > 1 && s1[|s1| - 2].date + 1 < today {
      GapFilledEnds(s1, today);
      LastIsToday(GapFilled(s1, today), today);
    } else if |s1| > 1 {
      GapFilledSorted(s1, today);
    }
  }

  /** fillHistory is idempotent: a second call with the same today changes nothing. */
  lemma FillHistoryIdempotent(ss: seq<DailySnapshot>, today: Day)
    requires StrictlySorted(ss)
    ensures AfterFillHistory(AfterFillHistory(ss, today), today) == AfterFillHistory(ss, today)
  {
    var s1 := AfterGetToday(ss, today);
    GetTodaySorted(ss, today);
    GetTodayStable(ss, today);
    GapFilledShape(s1, today);
    GapFilledLeavesNoGap(s1, today);
    var r := GapFilled(s1, today);
    assert AfterGetToday(r, today) == r;
    GapFilledNoGap(r, today);
  }

  // ---------------------------------------------------------------------
  // Edits to today's snapshot

  function OfHabit(id: string): HabitEntry -> bool {
    (e: HabitEntry) => e.habbitId == id
  }

  /** updateHabitCount's edit: the first entry of the habit gets the new done count. */
  function WithDid(hs: seq<HabitEntry>, id: string, n: int): seq<HabitEntry> {
    var k := FirstIndex(hs, OfHabit(id));
    if k == -1 then hs else hs[k := hs[k].(habbitDidCount := n)]
  }

  /** updateHabitNeedCount's edit: the first entry of the habit gets the new target. */
  function WithNeed(hs: seq<HabitEntry>, id: string, n: int): seq<HabitEntry> {
    var k := FirstIndex(hs, OfHabit(id));
    if k == -1 then hs else hs[k := hs[k].(habbitNeedCount := n)]
  }

  /** deleteHabbit's edit: every entry of the habit is dropped. */
  function Without(hs: seq<HabitEntry>, id: string): seq<HabitEntry> {
    Filter(hs, (e: HabitEntry) => e.habbitId != id)
  }

  /**
   * The count edits change one field of the first entry of the habit and
   * nothing else, with no clamping; an unknown habit leaves the entries as they are.
   */
  lemma WithCountsSpec(hs: seq<HabitEntry>, id: string, n: int)
    ensures |WithDid(hs, id, n)| == |hs| && |WithNeed(hs, id, n)| == |hs|
    ensures (forall i :: 0 <= i < |hs| ==> hs[i].habbitId != id) ==>
      WithDid(hs, id, n) == hs && WithNeed(hs, id, n) == hs
    ensures forall i :: 0 <= i < |hs| && hs[i].habbitId == id ==>
      var k := FirstIndex(hs, OfHabit(id));
      && 0 <= k <= i
      && WithDid(hs, id, n)[k] == HabitEntry(id, hs[k].habbitNeedCount, n)
      && WithNeed(hs, id, n)[k] == HabitEntry(id, n, hs[k].habbitDidCount)
      && forall j :: 0 <= j < |hs| && j != k ==> WithDid(hs, id, n)[j] == hs[j] && WithNeed(hs, id, n)[j] == hs[j]
  {
  }

  /** deleteHabbit's edit drops exactly the habit's entries and keeps the others. */
  lemma WithoutSpec(hs: seq<HabitEntry>, id: string)
    ensures forall e :: e in Without(hs, id) <==> e in hs && e.habbitId != id
  {
  }

  /** `habbits.find(h => h.habbitId === id)`. */
  function EntryOf(hs: seq<HabitEntry>, id: string): Option<HabitEntry> {
    Find(hs, OfHabit(id))
  }

  /** getCurrentNeedCount's reading, `entry?.habbitNeedCount || 1`: a missing entry or a 0 target reads as 1. */
  function CurrentNeed(hs: seq<HabitEntry>, id: string): (n: int)
    ensures n != 0
  {
    var e := EntryOf(hs, id);
    if e.Some? && e.value.habbitNeedCount != 0 then e.value.habbitNeedCount else 1
  }

  /** getCurrentActualCount's reading, `entry?.habbitDidCount || 0`: a missing entry reads as 0. */
  function CurrentDid(hs: seq<HabitEntry>, id: string): int {
    var e := EntryOf(hs, id);
    if e.Some? then e.value.habbitDidCount else 0
  }

  /**
   * The count readers see the count edits: a new done count reads back
   * exactly when the habit has an entry, a new target unless it is 0, and
   * each edit leaves the other reading alone.
   */
  lemma CountsReadBack(hs: seq<HabitEntry>, id: string, n: int)
    ensures CurrentDid(WithDid(hs, id, n), id) == if EntryOf(hs, id).Some? then n else 0
    ensures CurrentNeed(WithNeed(hs, id, n), id) == if EntryOf(hs, id).Some? && n != 0 then n else 1
    ensures CurrentNeed(WithDid(hs, id, n), id) == CurrentNeed(hs, id)
    ensures CurrentDid(WithNeed(hs, id, n), id) == CurrentDid(hs, id)
  {
    var k := FirstIndex(hs, OfHabit(id));
    if k >= 0 {
      var d := WithDid(hs, id, n);
      var m := WithNeed(hs, id, n);
      assert OfHabit(id)(d[k]) && OfHabit(id)(m[k]);
      assert forall j :: 0 <= j < k ==> d[j] == hs[j] && m[j] == hs[j];
      assert FirstIndex(d, OfHabit(id)) == k;
      assert FirstIndex(m, OfHabit(id)) == k;
    }
  }

  /** The list after saving an edited copy of today's snapshot (what the three edits do). */
  function AfterTodayEdit(ss: seq<DailySnapshot>, today: Day, edited: seq<HabitEntry>): seq<DailySnapshot> {
    Upserted(AfterGetToday(ss, today), Snapshot(today, edited))
  }

  /**
   * On a sorted store an edit of today's snapshot replaces today's
   * snapshot in place: the list keeps its length, and every other day is
   * untouched.
   */
  lemma TodayEditInPlace(ss: seq<DailySnapshot>, today: Day, edited: seq<HabitEntry>)
    requires StrictlySorted(ss)
    ensures var s1 := AfterGetToday(ss, today);
      var i := FirstIndex(s1, OnDay(today));
      && 0 <= i < |s1|
      && s1[i] == TodaySnapshot(ss, today)
      && AfterTodayEdit(ss, today, edited) == s1[i := Snapshot(today, edited)]
      && StrictlySorted(AfterTodayEdit(ss, today, edited))
  {
    var s1 := AfterGetToday(ss, today);
    GetTodayStable(ss, today);
    GetTodaySorted(ss, today);
    var i := FirstIndex(s1, OnDay(today));
    assert s1[i].date == today;
    assert forall j :: 0 <= j < i ==> s1[j].date < today;
    SlotAt(s1, today, i);
    UpsertSorted(s1, Snapshot(today, edited));
  }

  // ---------------------------------------------------------------------
  // initializeHabitsLocalStorage

  /** Saving every snapshot of `ss`, in order, into an emptied store. */
  function SavedAll(ss: seq<DailySnapshot>): seq<DailySnapshot> {
    if ss == [] then [] else Upserted(SavedAll(ss[..|ss| - 1]), ss[|ss| - 1])
  }

  /** The last snapshot of `ss` with date `d`, if any. */
  function LastAt(ss: seq<DailySnapshot>, d: Day): Option<DailySnapshot> {
    if ss == [] then None
    else if ss[|ss| - 1].date == d then Some(ss[|ss| - 1])
    else LastAt(ss[..|ss| - 1], d)
  }

  /**
   * Re-initialising the store from any list of snapshots gives a sorted,
   * date-unique list in which every date reads as its last write.
   */
  lemma {:induction false} SavedAllSpec(ss: seq<DailySnapshot>)
    ensures StrictlySorted(SavedAll(ss))
    ensures forall d :: AtDate(SavedAll(ss), d) == LastAt(ss, d)
  {
    if ss != [] {
      var front := ss[..|ss| - 1];
      SavedAllSpec(front);
      UpsertSorted(SavedAll(front), ss[|ss| - 1]);
      forall d ensures AtDate(SavedAll(ss), d) == LastAt(ss, d) {
        UpsertAtDate(SavedAll(front), ss[|ss| - 1], d);
      }
    }
  }
}
