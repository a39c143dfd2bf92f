/**
 * The "habits" slice of the Redux store
 * (src/lib/features/habitsAndNotes/habitsSlice.ts): reducers that replace,
 * append and replace-by-id in the item list, and the selectors over it.
 */
module HabitsSlice {
  import opened Wrappers
  import opened Seqs
  import opened HabitTypes
  import opened HabitList

  /** The slice state; the reducers mutate its item list in place. */
  class HabitsState {
    var items: seq<Habit>

    /** The initial state: no items. */
    constructor()
      ensures items == []
    {
      items := [];
    }

    /** `setHabits`: the payload replaces the items wholesale. */
    method SetHabits(payload: seq<Habit>)
      modifies this
      ensures items == payload
    {
      items := payload;
    }

    /** `addHabit`: the payload is pushed last, whether or not its id is already there. */
    method AddHabit(h: Habit)
      modifies this
      ensures items == old(items) + [h]
      ensures |items| == |old(items)| + 1 && items[|items| - 1] == h
    {
      items := items + [h];
    }

    /** `updateHabit`: the first item with the payload's id is overwritten; without one, nothing changes. */
    method UpdateHabit(h: Habit)
      modifies this
      ensures items == ReplaceFirst(old(items), WithId(h.id), h)
    {
      var k := FirstIndex(items, WithId(h.id));
      if k != -1 {
        items := items[k := h];
      }
    }

    /** `selectAllHabits`. */
    function SelectAll(): (r: seq<Habit>)
      reads this
      ensures r == items
    {
      items
    }

    /** `selectHabitById`: the first item with that id, if any. */
    function SelectById(id: string): (r: Option<Habit>)
      reads this
      ensures r.None? <==> !HasId(items, id)
      ensures r.Some? ==> exists k :: 0 <= k < |items| && items[k] == r.value && r.value.id == id
                            && forall j :: 0 <= j < k ==> items[j].id != id
    {
      var r := Find(items, WithId(id));
      assert r.Some? ==> items[FirstIndex(items, WithId(id))] == r.value;
      r
    }
  }

  /**
   * updateHabit keeps the length, changes only the first item with the
   * payload's id (and nothing when there is none), after it selecting by
   * that id gives the payload, and applying it twice equals applying it once.
   */
  lemma UpdateHabitSpec(items: seq<Habit>, h: Habit)
    ensures var r := ReplaceFirst(items, WithId(h.id), h);
      && |r| == |items|
      && (!HasId(items, h.id) ==> r == items)
      && (HasId(items, h.id) ==>
            exists k :: 0 <= k < |items| && items[k].id == h.id && r == items[k := h]
                        && forall j :: 0 <= j < k ==> items[j].id != h.id)
      && Find(r, WithId(h.id)) == (if HasId(items, h.id) then Some(h) else None)
      && ReplaceFirst(r, WithId(h.id), h) == r
  {
    ReplaceFirstIdempotent(items, WithId(h.id), h);
    var k := FirstIndex(items, WithId(h.id));
    if k != -1 {
      var r := items[k := h];
      assert forall j :: 0 <= j < k ==> r[j] == items[j] && !WithId(h.id)(r[j]);
      assert WithId(h.id)(r[k]);
      assert FirstIndex(r, WithId(h.id)) == k;
    }
  }
}
