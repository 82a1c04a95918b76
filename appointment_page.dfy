/**
 * The appointment form on the page, as the event handlers of app.js change
 * it in place: the field values, the error elements, the error borders, the
 * focused field and the success modals appended to the body.
 */
module AppointmentPage {
  import opened Wrappers
  import opened Validation
  import opened ErrorDisplay
  import opened PhoneInput

  /** A success modal appended to the body: whether it carries the `show`
      class and whether it is still attached. */
  datatype Modal = Modal(shown: bool, attached: bool)

  class Page {
    /** The field values; `None` for a field the page does not have. */
    var values: Snapshot
    /** The fields whose element has a parent node. */
    const parented: set<FieldId>
    /** The error text elements on the page, by field. */
    var errors: map<FieldId, ErrorEntry>
    /** The fields drawn with the error border colour. */
    var bordered: set<FieldId>
    /** The field that last received `focus()`. */
    var focused: Option<FieldId>
    /** The success modals, in the order they were appended. */
    var modals: seq<Modal>

    /** The error feedback the page shows. */
    function View(): Display
      reads this
    {
      Display(errors, bordered, focused)
    }

    /** The page as loaded: no error border, no focus, no modal. */
    constructor (values: Snapshot, parented: set<FieldId>, errors: map<FieldId, ErrorEntry>)
      ensures this.values == values && this.parented == parented
      ensures View() == Display(errors, {}, None)
      ensures modals == []
    {
      this.values := values;
      this.parented := parented;
      this.errors := errors;
      this.bordered := {};
      this.focused := None;
      this.modals := [];
    }

    /** `showFieldError(fieldId, message)` (app.js:187-215). */
    method ShowFieldError(fieldId: FieldId, message: string)
      modifies this
      ensures View() == ShowError(old(View()), Report(fieldId, message), Present(values), parented)
      ensures values == old(values) && modals == old(modals)
    {
      var hasField := fieldId in Present(values);
      if hasField {
        bordered := bordered + {fieldId};
        focused := Some(fieldId);
      }
      if fieldId in errors {
        errors := errors[fieldId := ErrorEntry(message, true)];
      } else if hasField && fieldId in parented {
        errors := errors[fieldId := ErrorEntry(message, true)];
      }
    }

    /** `clearErrorMessages()` (app.js:218-230): hide and empty every error
        element, then reset the border of every form control. */
    method ClearErrorMessages()
      modifies this
      ensures View() == ClearAll(old(View()))
      ensures values == old(values) && modals == old(modals)
    {
      var pending := errors.Keys;
      while pending != {}
        invariant pending <= errors.Keys == old(errors).Keys
        invariant forall f :: f in errors ==> errors[f] == if f in pending then old(errors)[f] else Hidden
        invariant bordered == old(bordered) && focused == old(focused)
        invariant values == old(values) && modals == old(modals)
        decreases pending
      {
        var f :| f in pending;
        errors := errors[f := Hidden];
        pending := pending - {f};
      }
      var i := 0;
      while i < |Schema|
        invariant 0 <= i <= |Schema|
        invariant forall f :: f in bordered <==> f in old(bordered) && Rank(f) >= i
        invariant errors.Keys == old(errors).Keys
        invariant forall f :: f in errors ==> errors[f] == Hidden
        invariant focused == old(focused)
        invariant values == old(values) && modals == old(modals)
      {
        bordered := bordered - {Schema[i]};
        i := i + 1;
      }
      assert errors == ClearAll(old(View())).errors;
    }

    /** One of the four `if` blocks of `validateForm`: check field `f`
        and, when it fails, call `showFieldError` with the message of its
        failure. */
    method ValidateField(f: FieldId, today: int) returns (ok: bool)
      modifies this
      ensures ok <==> Check(values, f, today) == Valid
      ensures View() == ShowAll(old(View()), ReportOf(f, Check(values, f, today)), Present(values), parented)
      ensures values == old(values) && modals == old(modals)
    {
      var outcome := Check(values, f, today);
      ok := true;
      if outcome.Invalid? {
        ShowFieldError(f, Message(f, outcome.reason));
        ok := false;
      }
    }

    /** `validateForm()` (app.js:133-184): each of the four rules in turn,
        reporting every failing field, whatever the earlier ones gave. */
    method ValidateForm(today: int) returns (isValid: bool)
      modifies this
      ensures isValid <==> FormValid(values, today)
      ensures View() == ShowAll(old(View()), Reports(values, today), Present(values), parented)
      ensures values == old(values) && modals == old(modals)
    {
      ghost var start := View();
      ghost var present := Present(values);

      var nameOk := ValidateField(FullName, today);
      ghost var done := ReportOf(FullName, Check(values, FullName, today));

      var phoneOk := ValidateField(Phone, today);
      ShowAllAppend(start, done, ReportOf(Phone, Check(values, Phone, today)), present, parented);
      done := done + ReportOf(Phone, Check(values, Phone, today));

      var emailOk := ValidateField(Email, today);
      ShowAllAppend(start, done, ReportOf(Email, Check(values, Email, today)), present, parented);
      done := done + ReportOf(Email, Check(values, Email, today));

      var dateOk := ValidateField(PreferredDate, today);
      ShowAllAppend(start, done, ReportOf(PreferredDate, Check(values, PreferredDate, today)), present, parented);
      done := done + ReportOf(PreferredDate, Check(values, PreferredDate, today));

      isValid := nameOk && phoneOk && emailOk && dateOk;
      ReportsInBlocks(values, today);
    }

    /** `showSuccessMessage()` (app.js:233-247): a new modal is appended on
        every call, whatever modals are already there. */
    method ShowSuccessMessage()
      modifies this
      ensures modals == old(modals) + [Modal(false, true)]
      ensures values == old(values) && View() == old(View())
    {
      modals := modals + [Modal(false, true)];
    }

    /** The 100 ms timer of `showSuccessMessage`: add the `show` class. */
    method RevealModal(i: nat)
      requires i < |modals|
      modifies this
      ensures modals == old(modals)[i := old(modals)[i].(shown := true)]
      ensures values == old(values) && View() == old(View())
    {
      modals := modals[i := modals[i].(shown := true)];
    }

    /** `hideSuccessModal` (app.js:329-336), run by the 5 s timer: remove the
        `show` class. */
    method HideModal(i: nat)
      requires i < |modals|
      modifies this
      ensures modals == old(modals)[i := old(modals)[i].(shown := false)]
      ensures values == old(values) && View() == old(View())
    {
      modals := modals[i := modals[i].(shown := false)];
    }

    /** Detaching a modal: the 300 ms teardown after hiding removes it only
        if it still has a parent, and the Close button removes it; on a
        modal already detached both do nothing. */
    method RemoveModal(i: nat)
      requires i < |modals|
      modifies this
      ensures modals == old(modals)[i := old(modals)[i].(attached := false)]
      ensures old(modals)[i].attached == false ==> modals == old(modals)
      ensures values == old(values) && View() == old(View())
    {
      if modals[i].attached {
        modals := modals[i := modals[i].(attached := false)];
      }
    }

    /** `appointmentForm.reset()`: every field back to empty. */
    method ResetForm()
      modifies this
      ensures values == Cleared(old(values))
      ensures modals == old(modals) && View() == old(View())
    {
      values := Cleared(values);
    }

    /** The submit handler (app.js:115-129): clear the old errors, validate,
        and only on success show the modal and reset the fields. */
    method Submit(today: int)
      modifies this
      ensures View() == AfterSubmit(old(View()), old(values), today, parented)
      ensures FormValid(old(values), today) ==>
        values == Cleared(old(values)) && modals == old(modals) + [Modal(false, true)]
      ensures !FormValid(old(values), today) ==>
        values == old(values) && modals == old(modals)
    {
      ClearErrorMessages();
      var isValid := ValidateForm(today);
      if isValid {
        ShowSuccessMessage();
        ResetForm();
      }
    }

    /** The phone field's `input` handler (app.js:341-347), registered only
        when the field exists. */
    method PhoneInput()
      modifies this
      ensures values == match old(values).phone
        case None => old(values)
        case Some(v) => old(values).(phone := Some(SanitizePhone(v)))
      ensures modals == old(modals) && View() == old(View())
    {
      if values.phone.Some? {
        values := values.(phone := Some(SanitizePhone(values.phone.value)));
      }
    }
  }

}
