/**
 * The home page (app/page.tsx): the once-a-day reset of the counters when
 * the page loads, and the handlers that add, increment, delete and edit a
 * habit in the page's list. The calls the page makes to the storage API
 * are recorded in a log; what the API does with them belongs to the store.
 */
module HomePage {
  import opened Wrappers
  import opened Seqs
  import opened HabitTypes

  /** A call the page makes to the storage API. */
  datatype ApiCall =
    | AddCall(habit: TrackedHabit)
    | UpdateCall(habit: TrackedHabit)
    | DeleteCall(id: string)
    | SetResetDateCall(day: Day)

  function IsHabit(id: string): TrackedHabit -> bool {
    (h: TrackedHabit) => h.id == id
  }

  function IsNotHabit(id: string): TrackedHabit -> bool {
    (h: TrackedHabit) => h.id != id
  }

  function OnDate(d: Day): HistoryEntry -> bool {
    (e: HistoryEntry) => e.date == d
  }

  /** `fetchedHabbits.map(h => ({ ...h, currentCount: 0 }))`. */
  function CountsCleared(hs: seq<TrackedHabit>): seq<TrackedHabit> {
    seq(|hs|, i requires 0 <= i < |hs| => hs[i].(currentCount := 0))
  }

  /** The list the page shows after loading: counters cleared only when the last reset was on another day. */
  function LoadedHabits(lastResetDate: Option<Day>, today: Day, fetched: seq<TrackedHabit>): seq<TrackedHabit> {
    if lastResetDate.None? || lastResetDate.value == today then fetched else CountsCleared(fetched)
  }

  /** The storage calls the load makes: the cleared habits written back, then the new reset date. */
  function LoadCalls(lastResetDate: Option<Day>, today: Day, shown: seq<TrackedHabit>): seq<ApiCall> {
    if lastResetDate.None? then [SetResetDateCall(today)]
    else if lastResetDate.value == today then []
    else seq(|shown|, i requires 0 <= i < |shown| => UpdateCall(shown[i])) + [SetResetDateCall(today)]
  }

  /**
   * The daily reset: with no reset date or a reset today the fetched list
   * is shown as it is; otherwise every habit's current count becomes 0 and
   * nothing else about it changes. The load records today as the reset
   * date, last, unless it already was today, so a second load the same
   * day shows the list as fetched and writes nothing.
   */
  lemma LoadedHabitsSpec(lastResetDate: Option<Day>, today: Day, fetched: seq<TrackedHabit>)
    ensures var r := LoadedHabits(lastResetDate, today, fetched);
      && |r| == |fetched|
      && (lastResetDate.None? || lastResetDate.value == today ==> r == fetched)
      && (lastResetDate.Some? && lastResetDate.value != today ==>
            forall i :: 0 <= i < |r| ==>
              r[i].currentCount == 0 && r[i].id == fetched[i].id && r[i].text == fetched[i].text
              && r[i].needCount == fetched[i].needCount && r[i].history == fetched[i].history)
    ensures var calls := LoadCalls(lastResetDate, today, LoadedHabits(lastResetDate, today, fetched));
      && (calls == [] <==> lastResetDate == Some(today))
      && (calls != [] ==> calls[|calls| - 1] == SetResetDateCall(today))
  {
  }

  /** The smaller of the target and one more than the current count. */
  function Clamped(h: TrackedHabit): int {
    if h.needCount < h.currentCount + 1 then h.needCount else h.currentCount + 1
  }

  /** The history with today's count recorded: the first entry of today rewritten, or a new one appended. */
  function Recorded(history: seq<HistoryEntry>, today: Day, count: int): seq<HistoryEntry> {
    var k := FirstIndex(history, OnDate(today));
    if k == -1 then history + [HistoryEntry(today, count)] else history[k := history[k].(count := count)]
  }

  /** A habit after one increment on `today`. */
  function Incremented(h: TrackedHabit, today: Day): TrackedHabit {
    var c := Clamped(h);
    h.(currentCount := c, history := Recorded(h.history, today, c))
  }

  /**
   * Recording today's count: today's first entry then holds that count;
   * when there was one nothing else changes, otherwise exactly one entry
   * is appended; recording the same count again changes nothing.
   */
  lemma RecordedSpec(history: seq<HistoryEntry>, today: Day, count: int)
    ensures var r := Recorded(history, today, count);
      var k := FirstIndex(history, OnDate(today));
      && Find(r, OnDate(today)) == Some(HistoryEntry(today, count))
      && (k == -1 ==> r == history + [HistoryEntry(today, count)])
      && (k != -1 ==> |r| == |history| && forall j :: 0 <= j < |history| && j != k ==> r[j] == history[j])
      && Recorded(r, today, count) == r
  {
    var r := Recorded(history, today, count);
    var k := FirstIndex(history, OnDate(today));
    if k == -1 {
      assert forall j :: 0 <= j < |history| ==> r[j] == history[j] && !OnDate(today)(r[j]);
      assert OnDate(today)(r[|history|]);
      assert FirstIndex(r, OnDate(today)) == |history|;
    } else {
      assert forall j :: 0 <= j < k ==> r[j] == history[j] && !OnDate(today)(r[j]);
      assert OnDate(today)(r[k]);
      assert FirstIndex(r, OnDate(today)) == k;
    }
  }

  /**
   * One increment: the count becomes min(target, count + 1), so it never
   * exceeds the target, stays put at the target and otherwise goes up by
   * one; the id, text and target are kept; today's history entry holds
   * the new count.
   */
  lemma IncrementedSpec(h: TrackedHabit, today: Day)
    ensures var r := Incremented(h, today);
      && r.currentCount <= h.needCount
      && (h.currentCount >= h.needCount ==> r.currentCount == h.needCount)
      && (h.currentCount < h.needCount ==> r.currentCount == h.currentCount + 1)
      && r.id == h.id && r.text == h.text && r.needCount == h.needCount
      && Find(r.history, OnDate(today)) == Some(HistoryEntry(today, r.currentCount))
  {
    RecordedSpec(h.history, today, Clamped(h));
  }

  /** The page's state: the habits it shows, and the calls it has made to the storage API. */
  class Home {
    var habbits: seq<TrackedHabit>
    var calls: seq<ApiCall>

    /** The page before anything is loaded. */
    constructor()
      ensures habbits == [] && calls == []
    {
      habbits := [];
      calls := [];
    }

    /** `setTodaysHabbits`, given the stored reset date and the stored habits. */
    method SetTodaysHabbits(today: Day, lastResetDate: Option<Day>, fetched: seq<TrackedHabit>)
      modifies this
      ensures habbits == LoadedHabits(lastResetDate, today, fetched)
      ensures calls == old(calls) + LoadCalls(lastResetDate, today, habbits)
    {
      if lastResetDate.None? {
        calls := calls + [SetResetDateCall(today)];
        habbits := fetched;
      } else if lastResetDate.value == today {
        habbits := fetched;
      } else {
        var reset := CountsCleared(fetched);
        ghost var before := calls;
        for i := 0 to |reset|
          invariant calls == before + seq(i, j requires 0 <= j < i => UpdateCall(reset[j]))
        {
          calls := calls + [UpdateCall(reset[i])];
        }
        calls := calls + [SetResetDateCall(today)];
        habbits := reset;
      }
    }

    /** `handleAdd`: the new habit is shown last and sent to the API. */
    method HandleAdd(h: TrackedHabit)
      modifies this
      ensures habbits == old(habbits) + [h]
      ensures calls == old(calls) + [AddCall(h)]
    {
      habbits := habbits + [h];
      calls := calls + [AddCall(h)];
    }

    /**
     * `handleIncrement`: the first habit with the id is incremented; every
     * habit with that id is then shown as that habit, and it is sent to
     * the API. An unknown id changes nothing.
     */
    method HandleIncrement(id: string, today: Day)
      modifies this
      ensures Find(old(habbits), IsHabit(id)).None? ==> habbits == old(habbits) && calls == old(calls)
      ensures Find(old(habbits), IsHabit(id)).Some? ==>
        var h := Incremented(Find(old(habbits), IsHabit(id)).value, today);
        habbits == ReplaceEvery(old(habbits), IsHabit(id), h) && calls == old(calls) + [UpdateCall(h)]
    {
      var found := Find(habbits, IsHabit(id));
      if found.Some? {
        var h := found.value;
        h := h.(currentCount := if h.needCount < h.currentCount + 1 then h.needCount else h.currentCount + 1);
        var k := FirstIndex(h.history, OnDate(today));
        if k != -1 {
          h := h.(history := h.history[k := h.history[k].(count := h.currentCount)]);
        } else {
          h := h.(history := h.history + [HistoryEntry(today, h.currentCount)]);
        }
        habbits := ReplaceEvery(habbits, IsHabit(id), h);
        calls := calls + [UpdateCall(h)];
      }
    }

    /** `handleDelete`: every habit with the id disappears from the page, and the deletion is sent to the API. */
    method HandleDelete(id: string)
      modifies this
      ensures habbits == Filter(old(habbits), IsNotHabit(id))
      ensures calls == old(calls) + [DeleteCall(id)]
    {
      habbits := Filter(habbits, IsNotHabit(id));
      calls := calls + [DeleteCall(id)];
    }

    /** `handleEdit`: every habit with the edited habit's id is replaced by it, and it is sent to the API. */
    method HandleEdit(h: TrackedHabit)
      modifies this
      ensures habbits == ReplaceEvery(old(habbits), IsHabit(h.id), h)
      ensures calls == old(calls) + [UpdateCall(h)]
    {
      habbits := ReplaceEvery(habbits, IsHabit(h.id), h);
      calls := calls + [UpdateCall(h)];
    }
  }

  /**
   * After an increment the list keeps its length, habits with other ids
   * are untouched, and looking the id up gives the incremented habit.
   */
  lemma IncrementListSpec(hs: seq<TrackedHabit>, id: string, h: TrackedHabit, today: Day)
    requires Find(hs, IsHabit(id)) == Some(h)
    ensures var r := ReplaceEvery(hs, IsHabit(id), Incremented(h, today));
      && |r| == |hs|
      && (forall i :: 0 <= i < |hs| && hs[i].id != id ==> r[i] == hs[i])
      && Find(r, IsHabit(id)) == Some(Incremented(h, today))
  {
    IncrementedSpec(h, today);
    FindAfterReplaceEvery(hs, IsHabit(id), Incremented(h, today));
  }

  /**
   * Deleting keeps exactly the habits with other ids, in their order: the
   * list is unchanged when no habit has the id, and deleting twice equals
   * deleting once.
   */
  lemma DeletedSpec(hs: seq<TrackedHabit>, id: string)
    ensures var r := Filter(hs, IsNotHabit(id));
      && (forall x :: x in r <==> x in hs && x.id != id)
      && ((forall i :: 0 <= i < |hs| ==> hs[i].id != id) ==> r == hs)
      && Filter(r, IsNotHabit(id)) == r
  {
    var r := Filter(hs, IsNotHabit(id));
    FilterAll(r, IsNotHabit(id));
    if forall i :: 0 <= i < |hs| ==> hs[i].id != id {
      FilterAll(hs, IsNotHabit(id));
    }
  }

  /**
   * Editing keeps the length and every habit with another id, looking the
   * id up afterwards gives the edited habit when the id was shown, and
   * editing twice equals editing once.
   */
  lemma EditedSpec(hs: seq<TrackedHabit>, h: TrackedHabit)
    ensures var r := ReplaceEvery(hs, IsHabit(h.id), h);
      && |r| == |hs|
      && (forall i :: 0 <= i < |hs| && hs[i].id != h.id ==> r[i] == hs[i])
      && Find(r, IsHabit(h.id)) == (if Find(hs, IsHabit(h.id)).Some? then Some(h) else None)
      && ReplaceEvery(r, IsHabit(h.id), h) == r
  {
    FindAfterReplaceEvery(hs, IsHabit(h.id), h);
    ReplaceEveryIdempotent(hs, IsHabit(h.id), h);
  }
}
