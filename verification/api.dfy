/**
 * api.ts: the older habit functions over the same "habits" key of
 * localStorage, taking the store whose "habits" field they rewrite.
 */
module Api {
  import opened HabitTypes
  import opened HabitList
  import opened LocalStorage

  /** addHabit: refuses a taken id, else appends. */
  method AddHabit(store: LocalStore, h: Habit) returns (ok: bool)
    modifies store
    ensures ok <==> !HasId(old(store.habits), h.id)
    ensures store.habits == Added(old(store.habits), h)
    ensures store.snapshots == old(store.snapshots)
  {
    ok := store.AddHabit(h);
  }

  /** getHabits: the stored list as it is. */
  method GetHabits(store: LocalStore) returns (r: seq<Habit>)
    ensures r == store.habits
  {
    r := store.GetHabits();
  }
}
