/**
 * The habit button (app/components/HabbitButton.tsx): its pastel colour
 * derived from the habit id, its "current/need" subtitle and completed
 * mark, and the validation of the edit form.
 */
module HabbitButton {
  import opened Wrappers
  import opened Text
  import opened HabitTypes
  import opened SheetParse
  import HomePage

  const TWO_32: int := 0x1_0000_0000
  const TWO_31: int := 0x8000_0000

  /** JavaScript's ToInt32: the 32-bit two's-complement integer congruent to `n`. */
  function ToInt32(n: int): (r: int)
    ensures -TWO_31 <= r < TWO_31
    ensures (r - n) % TWO_32 == 0
  {
    var m := n % TWO_32;
    if m >= TWO_31 then m - TWO_32 else m
  }

  /** `h << 5` on an integer-valued number: a 32-bit shift that wraps around. */
  function ShiftLeft5(h: int): int {
    ToInt32(ToInt32(h) * 32)
  }

  /** One step of the colour hash: `hash = c + ((hash << 5) - hash)`, the subtraction and addition unwrapped. */
  function HashStep(hash: int, c: char): int {
    c as int + (ShiftLeft5(hash) - hash)
  }

  /** The colour hash of an id: the step folded over its characters from the left, starting at 0. */
  function Hash(id: string): int {
    if id == [] then 0 else HashStep(Hash(id[..|id| - 1]), id[|id| - 1])
  }

  /** `Math.abs(hash) % 360`. */
  function Hue(id: string): (hue: int)
    ensures 0 <= hue < 360
    ensures id == [] ==> hue == 0
  {
    var h := Hash(id);
    (if h < 0 then -h else h) % 360
  }

  /** The colour for a hue: `hsl(<hue>, 80%, 94%)`. */
  function HslText(hue: int): string {
    "hsl(" + IntText(hue) + ", 80%, 94%)"
  }

  /**
   * `getPastelColorFromId`: the hash loop over the id's characters, then
   * the pastel colour of the hue it gives, which lies in [0, 360).
   */
  method GetPastelColorFromId(id: string) returns (color: string)
    ensures color == HslText(Hue(id))
    ensures exists hue :: 0 <= hue < 360 && color == HslText(hue)
  {
    var hash := 0;
    for i := 0 to |id|
      invariant hash == Hash(id[..i])
    {
      HashPrefix(id, i);
      hash := id[i] as int + (ShiftLeft5(hash) - hash);
    }
    assert id[..|id|] == id;
    var hue := (if hash < 0 then -hash else hash) % 360;
    color := "hsl(" + IntText(hue) + ", 80%, 94%)";
  }

  /** The hash of one more character is one more step. */
  lemma HashPrefix(id: string, i: nat)
    requires i < |id|
    ensures Hash(id[..i + 1]) == HashStep(Hash(id[..i]), id[i])
  {
    assert id[..i + 1][..i] == id[..i];
  }

  /**
   * The shift wraps to 32 bits: its result is a 32-bit integer congruent
   * to 32 times the hash; while the hash is small enough for the shift not
   * to wrap, a step is the familiar `31 * hash + c`.
   */
  lemma HashStepSpec(hash: int, c: char)
    ensures -TWO_31 <= ShiftLeft5(hash) < TWO_31
    ensures (ShiftLeft5(hash) - 32 * hash) % TWO_32 == 0
    ensures -0x400_0000 <= hash < 0x400_0000 ==> HashStep(hash, c) == 31 * hash + c as int
  {
    var t := ToInt32(hash);
    var s := ShiftLeft5(hash);
    TimesCongruent(t, hash);
    SumCongruent(s - 32 * t, 32 * t - 32 * hash);
    if -0x400_0000 <= hash < 0x400_0000 {
      ShiftSmall(hash);
    }
  }

  /** Congruence modulo 2^32 survives multiplying both sides by 32. */
  lemma {:induction false} TimesCongruent(a: int, b: int)
    requires (a - b) % TWO_32 == 0
    ensures (32 * a - 32 * b) % TWO_32 == 0
  {
    var k := (a - b) / TWO_32;
    assert a - b == k * TWO_32;
    assert 32 * a - 32 * b == (32 * k) * TWO_32;
  }

  /** Multiples of 2^32 are closed under addition. */
  lemma {:induction false} SumCongruent(a: int, b: int)
    requires a % TWO_32 == 0 && b % TWO_32 == 0
    ensures (a + b) % TWO_32 == 0
  {
    var k1 := a / TWO_32;
    var k2 := b / TWO_32;
    assert a + b == (k1 + k2) * TWO_32;
  }

  /** A hash of at most 26 bits is its own 32-bit value, and so is 32 times it: the shift does not wrap. */
  lemma ShiftSmall(hash: int)
    requires -0x400_0000 <= hash < 0x400_0000
    ensures ShiftLeft5(hash) == 32 * hash
  {
    assert ToInt32(hash) == hash;
    assert ToInt32(32 * hash) == 32 * hash;
  }

  /** The subtitle of the button: `${currentCount}/${needCount}`, the same text a spreadsheet cell holds. */
  function Subtitle(currentCount: int, needCount: int): (s: string)
    ensures currentCount >= 0 && needCount >= 0 ==> ParseCell(s) == Some(Progress(currentCount, needCount))
  {
    ParseProgressText(currentCount, needCount);
    ProgressText(currentCount, needCount)
  }

  /** The button shows as completed exactly when the count has reached the target, never when it is past it. */
  predicate Completed(currentCount: int, needCount: int) {
    currentCount == needCount
  }

  /**
   * When the button is given the habit's own counts: after an increment a
   * habit whose count was at most its target shows as completed exactly
   * when the count had come within one of the target.
   */
  lemma CompletedAfterIncrement(h: TrackedHabit, today: Day)
    requires h.currentCount <= h.needCount
    ensures Completed(HomePage.Incremented(h, today).currentCount, h.needCount) <==> h.currentCount + 1 >= h.needCount
  {
    HomePage.IncrementedSpec(h, today);
  }

  /** Largest count (exclusive) the forms accept: `1e6`. */
  const MAX_COUNT: nat := 1000000
  /** Longest habit text the forms accept: `1e3` UTF-16 code units, as JavaScript's `length` counts. */
  const MAX_TEXT: nat := 1000

  /** The edit form's state: the three inputs, one error line per input, and whether the modal is open. */
  datatype EditForm = EditForm(
    text: string, currentCount: string, needCount: string,
    currentCountError: string, needCountError: string, textError: string,
    open: bool)

  /** The call `onEdit(updatedHabbit, habbitNeedCount, habbitCurrentCount)`. */
  datatype EditCall = EditCall(habbit: Habit, needCount: nat, currentCount: nat)

  /** The form after a submission, and the edit passed on, if any. */
  datatype EditResult = EditResult(form: EditForm, call: Option<EditCall>)

  /** The form once an edit went through: inputs and errors cleared, modal closed. */
  const ClearedEditForm := EditForm("", "", "", "", "", "", false)

  /**
   * `handleEditHabbit` for the habit `id`: the target is checked first,
   * then the current count, then the text; the first failing check sets
   * its error and stops.
   */
  function SubmitEdit(id: string, form: EditForm): (r: EditResult)
    ensures r.call.Some? ==> r.form == ClearedEditForm && r.call.value.habbit.id == id && r.call.value.needCount > 0
    ensures r.call.None? ==>
      r.form == form.(currentCountError := r.form.currentCountError, needCountError := r.form.needCountError, textError := r.form.textError)
  {
    if !IsDigits(form.needCount) then
      EditResult(form.(needCountError := "Enter a valid number"), None)
    else
      var need := DecimalValue(form.needCount);
      if !(need > 0 && need < MAX_COUNT) then
        EditResult(form.(needCountError := "Enter a valid number more that 0"), None)
      else if !IsDigits(form.currentCount) then
        EditResult(form.(currentCountError := "Enter a valid number"), None)
      else
        var current := DecimalValue(form.currentCount);
        if !(current < MAX_COUNT && current <= need) then
          EditResult(form.(currentCountError := "Enter a valid number less or equal to habbit aim"), None)
        else if form.text == "" || Utf16Length(form.text) > MAX_TEXT then
          EditResult(form.(textError := "Enter a valid text"), None)
        else
          EditResult(ClearedEditForm, Some(EditCall(Habit(id, Trim(form.text)), need, current)))
  }

  /** The inputs an edit accepts: digit strings for both counts with 0 < need < 1e6 and current ≤ need, and a text of 1 to 1000 UTF-16 code units. */
  predicate ValidEdit(form: EditForm) {
    && IsDigits(form.needCount) && 0 < DecimalValue(form.needCount) < MAX_COUNT
    && IsDigits(form.currentCount) && DecimalValue(form.currentCount) < MAX_COUNT
    && DecimalValue(form.currentCount) <= DecimalValue(form.needCount)
    && form.text != "" && Utf16Length(form.text) <= MAX_TEXT
  }

  /**
   * An edit is passed on exactly when the inputs are valid, with the same
   * id, the trimmed text and the parsed counts, and the form is then
   * cleared and closed; a rejected edit keeps the inputs and the modal and
   * sets one error line: the target's when the target is bad, else the
   * current count's when that is bad, else the text's, to "Enter a valid
   * text".
   */
  lemma SubmitEditSpec(id: string, form: EditForm)
    ensures var r := SubmitEdit(id, form);
      && (r.call.Some? <==> ValidEdit(form))
      && (r.call.Some? ==>
            && r.call.value == EditCall(Habit(id, Trim(form.text)), DecimalValue(form.needCount), DecimalValue(form.currentCount))
            && r.form == ClearedEditForm)
      && (r.call.None? ==>
            && r.form.(currentCountError := form.currentCountError, needCountError := form.needCountError, textError := form.textError) == form
            && (!(IsDigits(form.needCount) && 0 < DecimalValue(form.needCount) < MAX_COUNT) ==>
                  r.form == form.(needCountError := r.form.needCountError) && r.form.needCountError != "")
            && (IsDigits(form.needCount) && 0 < DecimalValue(form.needCount) < MAX_COUNT
                && !(IsDigits(form.currentCount) && DecimalValue(form.currentCount) < MAX_COUNT
                     && DecimalValue(form.currentCount) <= DecimalValue(form.needCount)) ==>
                  r.form == form.(currentCountError := r.form.currentCountError) && r.form.currentCountError != "")
            && (IsDigits(form.needCount) && 0 < DecimalValue(form.needCount) < MAX_COUNT
                && IsDigits(form.currentCount) && DecimalValue(form.currentCount) < MAX_COUNT
                && DecimalValue(form.currentCount) <= DecimalValue(form.needCount) ==>
                  r.form == form.(textError := "Enter a valid text")))
  {
  }

  /** A name of blanks only passes the text check, and is passed on as the empty text. */
  lemma BlankNameAccepted(id: string, form: EditForm)
    requires IsDigits(form.needCount) && 0 < DecimalValue(form.needCount) < MAX_COUNT
    requires IsDigits(form.currentCount) && DecimalValue(form.currentCount) <= DecimalValue(form.needCount)
    requires form.text != [] && Utf16Length(form.text) <= MAX_TEXT
    requires forall i :: 0 <= i < |form.text| ==> IsTrimmed(form.text[i])
    ensures SubmitEdit(id, form).call.Some?
    ensures SubmitEdit(id, form).call.value.habbit == Habit(id, "")
  {
  }
}
