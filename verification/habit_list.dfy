/**
 * The list of habits kept under the "habits" key of localStorage
 * (services/apiLocalStorage.ts and api.ts): append unless the id is
 * already there, replace by id, read by id.
 */
module HabitList {
  import opened Wrappers
  import opened Seqs
  import opened HabitTypes

  function WithId(id: string): Habit -> bool {
    (h: Habit) => h.id == id
  }

  /** `habits.some(h => h.id === id)`. */
  function HasId(hs: seq<Habit>, id: string): (b: bool)
    ensures b <==> exists i :: 0 <= i < |hs| && hs[i].id == id
  {
    var k := FirstIndex(hs, WithId(id));
    assert k >= 0 ==> hs[k].id == id;
    k >= 0
  }

  /** The list after addHabit(h): unchanged when the id is taken, else `h` appended. */
  function Added(hs: seq<Habit>, h: Habit): seq<Habit> {
    if HasId(hs, h.id) then hs else hs + [h]
  }

  /** No two habits share an id. */
  ghost predicate UniqueIds(hs: seq<Habit>) {
    forall i, j :: 0 <= i < j < |hs| ==> hs[i].id != hs[j].id
  }

  /**
   * addHabit keeps ids unique, makes the id present, never rewrites an
   * existing habit, and a second identical call changes nothing.
   */
  lemma AddedSpec(hs: seq<Habit>, h: Habit)
    ensures UniqueIds(hs) ==> UniqueIds(Added(hs, h))
    ensures HasId(Added(hs, h), h.id)
    ensures Added(hs, h)[..|hs|] == hs
    ensures !HasId(hs, h.id) ==> Added(hs, h) == hs + [h]
    ensures Added(Added(hs, h), h) == Added(hs, h)
  {
    assert (hs + [h])[|hs|] == h;
  }

  /** Adding every habit of `hs`, in order, to an emptied list. */
  function AddedAll(hs: seq<Habit>): seq<Habit> {
    if hs == [] then [] else Added(AddedAll(hs[..|hs| - 1]), hs[|hs| - 1])
  }

  /** An id once present stays present through further additions. */
  lemma AddedKeeps(hs: seq<Habit>, h: Habit, id: string)
    requires HasId(hs, id)
    ensures HasId(Added(hs, h), id)
  {
    var i :| 0 <= i < |hs| && hs[i].id == id;
    assert Added(hs, h)[i] == hs[i];
  }

  /** Re-initialising the habits from any list leaves ids unique and every input id present. */
  lemma {:induction false} AddedAllSpec(hs: seq<Habit>)
    ensures UniqueIds(AddedAll(hs))
    ensures forall i :: 0 <= i < |hs| ==> HasId(AddedAll(hs), hs[i].id)
  {
    if hs != [] {
      var front := hs[..|hs| - 1];
      var h := hs[|hs| - 1];
      AddedAllSpec(front);
      AddedSpec(AddedAll(front), h);
      forall i | 0 <= i < |hs| - 1 ensures HasId(AddedAll(hs), hs[i].id) {
        assert hs[i] == front[i];
        AddedKeeps(AddedAll(front), h, hs[i].id);
      }
    }
  }

  /** The first input habit with a given id; the habit that re-initialising keeps for that id. */
  function FirstWithId(hs: seq<Habit>, id: string): Option<Habit> {
    Find(hs, WithId(id))
  }

  /** Every habit kept when re-initialising is the first input habit with its id: later duplicates are refused. */
  lemma {:induction false} AddedAllFirstWins(hs: seq<Habit>)
    ensures forall x :: x in AddedAll(hs) ==> FirstWithId(hs, x.id) == Some(x)
  {
    if hs != [] {
      var front := hs[..|hs| - 1];
      var h := hs[|hs| - 1];
      AddedAllFirstWins(front);
      forall x | x in AddedAll(hs) ensures FirstWithId(hs, x.id) == Some(x) {
        if x in AddedAll(front) {
          FirstWinsKept(hs, x);
        } else {
          assert x == h && !HasId(AddedAll(front), h.id);
          FirstWinsNew(hs);
        }
      }
    }
  }

  /** A habit that is the first with its id in the input but the last stays the first once the last is added. */
  lemma FirstWinsKept(hs: seq<Habit>, x: Habit)
    requires hs != [] && FirstWithId(hs[..|hs| - 1], x.id) == Some(x)
    ensures FirstWithId(hs, x.id) == Some(x)
  {
    FirstIndexPrefix(hs, WithId(x.id), |hs| - 1);
  }

  /** The last input habit, when its id was not yet kept, is the first with its id. */
  lemma FirstWinsNew(hs: seq<Habit>)
    requires hs != [] && !HasId(AddedAll(hs[..|hs| - 1]), hs[|hs| - 1].id)
    ensures FirstWithId(hs, hs[|hs| - 1].id) == Some(hs[|hs| - 1])
  {
    var front := hs[..|hs| - 1];
    var h := hs[|hs| - 1];
    AddedAllSpec(front);
    forall j | 0 <= j < |hs| - 1 ensures !WithId(h.id)(hs[j]) {
      assert hs[j] == front[j];
    }
  }

  /** The list after updateHabit(h): every habit with `h`'s id becomes `h`. */
  function Updated(hs: seq<Habit>, h: Habit): seq<Habit> {
    ReplaceEvery(hs, WithId(h.id), h)
  }

  /**
   * updateHabit followed by getHabit: the new habit when the id was
   * stored, nothing otherwise; the update keeps the length, is idempotent
   * and keeps ids unique.
   */
  lemma UpdatedSpec(hs: seq<Habit>, h: Habit)
    ensures Find(Updated(hs, h), WithId(h.id)) == if HasId(hs, h.id) then Some(h) else None
    ensures |Updated(hs, h)| == |hs|
    ensures Updated(Updated(hs, h), h) == Updated(hs, h)
    ensures UniqueIds(hs) ==> UniqueIds(Updated(hs, h))
  {
    FindAfterReplaceEvery(hs, WithId(h.id), h);
    ReplaceEveryIdempotent(hs, WithId(h.id), h);
    var r := Updated(hs, h);
    assert forall i :: 0 <= i < |hs| ==> r[i].id == hs[i].id;
  }
}
