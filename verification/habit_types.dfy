/**
 * The records the application stores and exchanges.
 * Calendar dates are day numbers in the local store (consecutive days are
 * consecutive integers); the spreadsheet codec keeps them as the text of
 * the date column, so a snapshot is generic in its date.
 */
module HabitTypes {

  /** A calendar day as a day number. */
  type Day = int

  /** A habit as the store, the spreadsheet codec and the Redux slice keep it. */
  datatype Habit = Habit(id: string, text: string)

  /** A note (free text per day) as the Redux slice keeps it. */
  datatype Note = Note(id: string, name: string)

  /** One habit's progress on one day: the target and the done count. */
  datatype HabitEntry = HabitEntry(habbitId: string, habbitNeedCount: int, habbitDidCount: int)

  /** The progress of every habit on one day. */
  datatype Snapshot<D> = Snapshot(date: D, habbits: seq<HabitEntry>)

  type DailySnapshot = Snapshot<Day>

  /** The count a habit reached on one day, as its own history records it. */
  datatype HistoryEntry = HistoryEntry(date: Day, count: int)

  /** A habit as the home page and its components keep it: with today's count, the target and a history. */
  datatype TrackedHabit = TrackedHabit(id: string, text: string, currentCount: int, needCount: int, history: seq<HistoryEntry>)
}
