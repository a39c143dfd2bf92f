/**
 * The new-habit form (app/components/AddHabbit.tsx): the count is checked
 * before the text; on success a fresh habit is handed to `onAdd` and the
 * form is cleared. The fresh id is an input.
 */
module AddHabbit {
  import opened Wrappers
  import opened Text
  import opened HabitTypes
  import opened HabbitButton

  /** The form's state: the two inputs, one error line per input, and whether the modal is open. */
  datatype AddForm = AddForm(text: string, count: string, countError: string, textError: string, open: bool)

  /** The form after a submission, and the habit handed to `onAdd`, if any. */
  datatype AddResult = AddResult(form: AddForm, added: Option<TrackedHabit>)

  /** The form once a habit was added: inputs back to their defaults, errors cleared, modal closed. */
  const ClearedAddForm := AddForm("", "", "", "", false)

  /** `handleSubmitNewHabbit` with `newId` as the generated id. */
  function SubmitNewHabbit(form: AddForm, newId: string): (r: AddResult)
    ensures r.added.Some? ==> r.form == ClearedAddForm && r.added.value.id == newId && r.added.value.currentCount == 0
    ensures r.added.None? ==> r.form == form.(countError := r.form.countError, textError := r.form.textError)
  {
    if !IsDigits(form.count) then
      AddResult(form.(countError := "Enter a valid number"), None)
    else
      var count := DecimalValue(form.count);
      if !(count > 0 && count < MAX_COUNT) then
        AddResult(form.(countError := "Enter a valid number > 0"), None)
      else if form.text == "" || Utf16Length(form.text) > MAX_TEXT then
        AddResult(form.(textError := "Enter a valid text"), None)
      else
        AddResult(ClearedAddForm, Some(TrackedHabit(newId, Trim(form.text), 0, count, [])))
  }

  /** The inputs the form accepts: a digit string for a count with 0 < count < 1e6, and a text of 1 to 1000 UTF-16 code units. */
  predicate ValidNewHabbit(form: AddForm) {
    && IsDigits(form.count) && 0 < DecimalValue(form.count) < MAX_COUNT
    && form.text != "" && Utf16Length(form.text) <= MAX_TEXT
  }

  /**
   * A habit is handed on exactly when the inputs are valid: with the new
   * id, the trimmed text, count 0, the parsed target and no history, after
   * which the form is cleared and closed. A bad count is reported on the
   * count line whatever the text, a bad text only once the count is good;
   * a rejection keeps the inputs and the modal as they were.
   */
  lemma SubmitNewHabbitSpec(form: AddForm, newId: string)
    ensures var r := SubmitNewHabbit(form, newId);
      && (r.added.Some? <==> ValidNewHabbit(form))
      && (r.added.Some? ==>
            && r.added.value == TrackedHabit(newId, Trim(form.text), 0, DecimalValue(form.count), [])
            && r.form == ClearedAddForm)
      && (r.added.None? ==>
            && r.form.(countError := form.countError, textError := form.textError) == form
            && (!(IsDigits(form.count) && 0 < DecimalValue(form.count) < MAX_COUNT) ==>
                  r.form == form.(countError := r.form.countError) && r.form.countError != "")
            && (IsDigits(form.count) && 0 < DecimalValue(form.count) < MAX_COUNT ==>
                  r.form == form.(textError := "Enter a valid text")))
  {
  }

  /** The length limit counts UTF-16 code units: 501 characters outside the Basic Multilingual Plane are 1002 units, too many. */
  lemma AstralTextTooLong(form: AddForm)
    requires |form.text| == 501
    requires forall i :: 0 <= i < |form.text| ==> form.text[i] as int > 0xFFFF
    ensures !ValidNewHabbit(form)
    ensures SubmitNewHabbit(form, "").added.None?
  {
    Utf16LengthAstral(form.text);
  }

  /** A new habit starts below its target: at count 0, not completed. */
  lemma NewHabbitNotCompleted(form: AddForm, newId: string)
    requires SubmitNewHabbit(form, newId).added.Some?
    ensures var h := SubmitNewHabbit(form, newId).added.value;
      h.currentCount == 0 < h.needCount && !Completed(h.currentCount, h.needCount)
  {
  }
}
