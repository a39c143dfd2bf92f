/**
 * The "notes" slice of the Redux store
 * (src/lib/features/habitsAndNotes/notesSlice.ts): reducers that replace,
 * append and replace-by-id in the note list, and the selectors over it.
 */
module NotesSlice {
  import opened Wrappers
  import opened Seqs
  import opened HabitTypes

  function NoteWithId(id: string): Note -> bool {
    (n: Note) => n.id == id
  }

  /** Some note in `ns` has the id. */
  predicate HasNote(ns: seq<Note>, id: string) {
    exists i :: 0 <= i < |ns| && ns[i].id == id
  }

  /** The slice state; the reducers mutate its item list in place. */
  class NotesState {
    var items: seq<Note>

    /** The initial state: no items. */
    constructor()
      ensures items == []
    {
      items := [];
    }

    /** `setNotes`: the payload replaces the items wholesale. */
    method SetNotes(payload: seq<Note>)
      modifies this
      ensures items == payload
    {
      items := payload;
    }

    /** `addNote`: the payload is pushed last, whether or not its id is already there. */
    method AddNote(n: Note)
      modifies this
      ensures items == old(items) + [n]
      ensures |items| == |old(items)| + 1 && items[|items| - 1] == n
    {
      items := items + [n];
    }

    /** `updateNote`: the first item with the payload's id is overwritten; without one, nothing changes. */
    method UpdateNote(n: Note)
      modifies this
      ensures items == ReplaceFirst(old(items), NoteWithId(n.id), n)
    {
      var k := FirstIndex(items, NoteWithId(n.id));
      if k != -1 {
        items := items[k := n];
      }
    }

    /** `selectAllNotes`. */
    function SelectAll(): (r: seq<Note>)
      reads this
      ensures r == items
    {
      items
    }

    /** `selectNoteById`: the first note with that id, if any. */
    function SelectById(id: string): (r: Option<Note>)
      reads this
      ensures r.None? <==> !HasNote(items, id)
      ensures r.Some? ==> exists k :: 0 <= k < |items| && items[k] == r.value && r.value.id == id
                            && forall j :: 0 <= j < k ==> items[j].id != id
    {
      var r := Find(items, NoteWithId(id));
      assert r.Some? ==> items[FirstIndex(items, NoteWithId(id))] == r.value;
      assert r.None? ==> forall j :: 0 <= j < |items| ==> !NoteWithId(id)(items[j]);
      r
    }
  }

  /**
   * updateNote keeps the length, changes only the first note with the
   * payload's id (and nothing when there is none), after it selecting by
   * that id gives the payload, and applying it twice equals applying it once.
   */
  lemma UpdateNoteSpec(items: seq<Note>, n: Note)
    ensures var r := ReplaceFirst(items, NoteWithId(n.id), n);
      && |r| == |items|
      && (!HasNote(items, n.id) ==> r == items)
      && (HasNote(items, n.id) ==>
            exists k :: 0 <= k < |items| && items[k].id == n.id && r == items[k := n]
                        && forall j :: 0 <= j < k ==> items[j].id != n.id)
      && Find(r, NoteWithId(n.id)) == (if HasNote(items, n.id) then Some(n) else None)
      && ReplaceFirst(r, NoteWithId(n.id), n) == r
  {
    ReplaceFirstIdempotent(items, NoteWithId(n.id), n);
    var k := FirstIndex(items, NoteWithId(n.id));
    if k != -1 {
      var r := items[k := n];
      assert forall j :: 0 <= j < k ==> r[j] == items[j] && !NoteWithId(n.id)(r[j]);
      assert NoteWithId(n.id)(r[k]);
      assert FirstIndex(r, NoteWithId(n.id)) == k;
    } else {
      assert forall j :: 0 <= j < |items| ==> !NoteWithId(n.id)(items[j]);
    }
  }
}
