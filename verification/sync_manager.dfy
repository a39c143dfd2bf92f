/**
 * syncManager.ts: wrappers around the store operations that, after a
 * change, call the spreadsheet sync function registered by the
 * integration panel. The sync function itself is not modelled; each call
 * of it is recorded, in order, in `syncs`.
 */
module SyncManager {
  import opened Wrappers
  import opened HabitTypes
  import opened HabitList
  import opened DailySnapshots
  import opened LocalStorage

  /** The switch that enables automatic syncing. */
  const AUTO_SYNC_ENABLED: bool := true

  /** Stands for one registered sync function: equal handles mean the same function. */
  type SyncHandle = nat

  class Syncer {
    /** The store the wrapped operations work on. */
    const store: LocalStore
    /** `syncToSpreadsheetFn`: the registered sync function, if any. */
    var registered: Option<SyncHandle>
    /** Every call made to a sync function, oldest first. */
    var syncs: seq<SyncHandle>

    constructor (store: LocalStore)
      ensures this.store == store
      ensures registered == None && syncs == []
    {
      this.store := store;
      registered := None;
      syncs := [];
    }

    /** The calls one triggerSync makes: the registered function, when there is one and syncing is on. */
    function Fired(): (r: seq<SyncHandle>)
      reads this
      ensures |r| <= 1
      ensures r != [] <==> registered.Some? && AUTO_SYNC_ENABLED
      ensures r != [] ==> r[0] == registered.value
    {
      if registered.Some? && AUTO_SYNC_ENABLED then [registered.value] else []
    }

    /** registerSyncFunction: replaces any earlier registration. */
    method RegisterSyncFunction(fn: SyncHandle)
      modifies this
      ensures registered == Some(fn)
      ensures syncs == old(syncs)
    {
      registered := Some(fn);
    }

    /** unregisterSyncFunction. */
    method UnregisterSyncFunction()
      modifies this
      ensures registered == None
      ensures syncs == old(syncs)
    {
      registered := None;
    }

    /** triggerSync: calls the registered function, if any and if syncing is on. */
    method TriggerSync()
      modifies this
      ensures syncs == old(syncs) + Fired()
      ensures registered == old(registered)
    {
      if registered.None? || !AUTO_SYNC_ENABLED {
        return;
      }
      syncs := syncs + [registered.value];
    }

    /** addHabit: syncs only when the habit was added. */
    method AddHabit(h: Habit) returns (ok: bool)
      modifies this, store
      ensures ok <==> !HasId(old(store.habits), h.id)
      ensures store.habits == Added(old(store.habits), h)
      ensures store.snapshots == old(store.snapshots)
      ensures registered == old(registered)
      ensures syncs == old(syncs) + if ok then Fired() else []
    {
      ok := store.AddHabit(h);
      if ok {
        TriggerSync();
      }
    }

    /** updateHabit: always syncs. */
    method UpdateHabit(h: Habit)
      modifies this, store
      ensures store.habits == Updated(old(store.habits), h)
      ensures store.snapshots == old(store.snapshots)
      ensures registered == old(registered)
      ensures syncs == old(syncs) + Fired()
    {
      store.UpdateHabit(h);
      TriggerSync();
    }

    /** deleteHabbit: always syncs. */
    method DeleteHabbit(id: string, today: Day)
      modifies this, store
      ensures store.snapshots == AfterTodayEdit(old(store.snapshots), today, Without(TodaySnapshot(old(store.snapshots), today).habbits, id))
      ensures store.habits == old(store.habits)
      ensures registered == old(registered)
      ensures syncs == old(syncs) + Fired()
    {
      store.DeleteHabbit(id, today);
      TriggerSync();
    }

    /** updateHabitCount: syncs when the store reports success. */
    method UpdateHabitCount(id: string, newCount: int, today: Day) returns (ok: bool)
      modifies this, store
      ensures ok
      ensures store.snapshots == AfterTodayEdit(old(store.snapshots), today, WithDid(TodaySnapshot(old(store.snapshots), today).habbits, id, newCount))
      ensures store.habits == old(store.habits)
      ensures registered == old(registered)
      ensures syncs == old(syncs) + Fired()
    {
      ok := store.UpdateHabitCount(id, newCount, today);
      if ok {
        TriggerSync();
      }
    }

    /** updateHabitNeedCount: syncs when the store reports success. */
    method UpdateHabitNeedCount(id: string, newNeedCount: int, today: Day) returns (ok: bool)
      modifies this, store
      ensures ok
      ensures store.snapshots == AfterTodayEdit(old(store.snapshots), today, WithNeed(TodaySnapshot(old(store.snapshots), today).habbits, id, newNeedCount))
      ensures store.habits == old(store.habits)
      ensures registered == old(registered)
      ensures syncs == old(syncs) + Fired()
    {
      ok := store.UpdateHabitNeedCount(id, newNeedCount, today);
      if ok {
        TriggerSync();
      }
    }

    /** getHabits: a read, never syncs. */
    method GetHabits() returns (r: seq<Habit>)
      ensures r == store.habits
    {
      r := store.GetHabits();
    }

    /** getTodaySnapshot: may create today's snapshot, and the result is always an object, so it always syncs. */
    method GetTodaySnapshot(today: Day) returns (t: DailySnapshot)
      modifies this, store
      ensures t == TodaySnapshot(old(store.snapshots), today)
      ensures store.snapshots == AfterGetToday(old(store.snapshots), today)
      ensures store.habits == old(store.habits)
      ensures registered == old(registered)
      ensures syncs == old(syncs) + Fired()
    {
      t := store.GetTodaySnapshot(today);
      TriggerSync();
    }

    /** saveDailySnapshot: syncs when the store reports success. */
    method SaveDailySnapshot(s: DailySnapshot) returns (ok: bool)
      modifies this, store
      ensures ok
      ensures store.snapshots == Upserted(old(store.snapshots), s)
      ensures store.habits == old(store.habits)
      ensures registered == old(registered)
      ensures syncs == old(syncs) + Fired()
    {
      ok := store.SaveDailySnapshot(s);
      if ok {
        TriggerSync();
      }
    }
  }
}
