/**
 * What the page shows about field errors, as a value: the error text
 * elements (`<field>-error`), the fields drawn with the error border colour
 * and the field holding the input focus. `showFieldError` and
 * `clearErrorMessages` (app.js:187-230) are specified here as functions on
 * that value; the page class applies them in place.
 */
module ErrorDisplay {
  import opened Wrappers
  import opened Validation

  /** An error text element: its text and whether it is displayed. */
  datatype ErrorEntry = ErrorEntry(text: string, displayed: bool)

  /** An error element after `clearErrorMessages`. */
  const Hidden := ErrorEntry("", false)

  datatype Display = Display(
    errors: map<FieldId, ErrorEntry>,
    bordered: set<FieldId>,
    focused: Option<FieldId>)

  /** One `showFieldError(r.field, r.message)`. An existing field gets the
      error border and the focus. An existing error element is shown with
      the message; a missing one is created, but it only joins the page when
      the field exists and has a parent node. */
  function ShowError(d: Display, r: Report, present: set<FieldId>, parented: set<FieldId>): Display {
    var f := r.field;
    Display(
      if f in d.errors || (f in present && f in parented)
      then d.errors[f := ErrorEntry(r.message, true)] else d.errors,
      if f in present then d.bordered + {f} else d.bordered,
      if f in present then Some(f) else d.focused)
  }

  /** `showFieldError` called for each report of `rs` in turn. */
  function ShowAll(d: Display, rs: seq<Report>, present: set<FieldId>, parented: set<FieldId>): Display
    decreases rs
  {
    if rs == [] then d else ShowAll(ShowError(d, rs[0], present, parented), rs[1..], present, parented)
  }

  lemma {:induction false} ShowAllAppend(d: Display, a: seq<Report>, b: seq<Report>, present: set<FieldId>, parented: set<FieldId>)
    ensures ShowAll(d, a + b, present, parented) == ShowAll(ShowAll(d, a, present, parented), b, present, parented)
    decreases a
  {
    if a != [] {
      assert ShowAll(d, a, present, parented)
        == ShowAll(ShowError(d, a[0], present, parented), a[1..], present, parented);
      assert (a + b)[0] == a[0];
      assert (a + b)[1..] == a[1..] + b;
      ShowAllAppend(ShowError(d, a[0], present, parented), a[1..], b, present, parented);
    } else {
      assert a + b == b;
    }
  }

  /** No field is reported twice. */
  ghost predicate Distinct(rs: seq<Report>) {
    forall k, l :: 0 <= k < l < |rs| ==> rs[k].field != rs[l].field
  }

  lemma MentionsCons(rs: seq<Report>, f: FieldId)
    requires rs != []
    ensures Mentions(rs, f) <==> rs[0].field == f || Mentions(rs[1..], f)
  {
    if Mentions(rs, f) && rs[0].field != f {
      var k :| 0 <= k < |rs| && rs[k].field == f;
      assert rs[1..][k - 1] == rs[k];
    }
    if Mentions(rs[1..], f) {
      var k :| 0 <= k < |rs[1..]| && rs[1..][k].field == f;
      assert rs[k + 1] == rs[1..][k];
    }
  }

  /** After the calls, exactly the existing reported fields are bordered, in
      addition to those bordered before. */
  lemma {:induction false} ShowAllBorders(d: Display, rs: seq<Report>, present: set<FieldId>, parented: set<FieldId>)
    ensures forall f ::
      f in ShowAll(d, rs, present, parented).bordered
      <==> f in d.bordered || (f in present && Mentions(rs, f))
    decreases rs
  {
    if rs != [] {
      ShowAllBorders(ShowError(d, rs[0], present, parented), rs[1..], present, parented);
      forall f ensures Mentions(rs, f) <==> rs[0].field == f || Mentions(rs[1..], f) {
        MentionsCons(rs, f);
      }
    }
  }

  /** With no existing field among the reports, the focus does not move. */
  lemma {:induction false} ShowAllKeepsFocus(d: Display, rs: seq<Report>, present: set<FieldId>, parented: set<FieldId>)
    requires forall k :: 0 <= k < |rs| ==> rs[k].field !in present
    ensures ShowAll(d, rs, present, parented).focused == d.focused
    decreases rs
  {
    if rs != [] {
      assert rs[0].field !in present;
      assert forall l :: 0 <= l < |rs| - 1 ==> rs[1..][l] == rs[l + 1];
      ShowAllKeepsFocus(ShowError(d, rs[0], present, parented), rs[1..], present, parented);
    }
  }

  /** `focus()` runs for every existing reported field, so the focus ends on
      the LAST existing field of the reports. */
  lemma {:induction false} ShowAllFocus(d: Display, rs: seq<Report>, present: set<FieldId>, parented: set<FieldId>, k: nat)
    requires k < |rs| && rs[k].field in present
    requires forall l :: k < l < |rs| ==> rs[l].field !in present
    ensures ShowAll(d, rs, present, parented).focused == Some(rs[k].field)
    decreases rs
  {
    var d' := ShowError(d, rs[0], present, parented);
    var tail := rs[1..];
    assert forall l :: 0 <= l < |tail| ==> tail[l] == rs[l + 1];
    if k == 0 {
      ShowAllKeepsFocus(d', tail, present, parented);
    } else {
      ShowAllFocus(d', tail, present, parented, k - 1);
    }
  }

  /** After the calls, an error element exists for a field when it existed
      before or the field is reported, exists and has a parent; each
      reported field's element shows its message; the elements of the other
      fields are untouched. */
  lemma {:induction false} ShowAllErrors(d: Display, rs: seq<Report>, present: set<FieldId>, parented: set<FieldId>)
    requires Distinct(rs)
    ensures var out := ShowAll(d, rs, present, parented);
      && (forall f :: f in out.errors
            <==> f in d.errors || (Mentions(rs, f) && f in present && f in parented))
      && (forall k :: 0 <= k < |rs| && rs[k].field in out.errors
            ==> out.errors[rs[k].field] == ErrorEntry(rs[k].message, true))
      && (forall f :: f in d.errors && !Mentions(rs, f) ==> out.errors[f] == d.errors[f])
    decreases rs
  {
    if rs != [] {
      var d' := ShowError(d, rs[0], present, parented);
      var tail := rs[1..];
      assert Distinct(tail) by {
        forall k, l | 0 <= k < l < |tail| ensures tail[k].field != tail[l].field {
          assert tail[k] == rs[k + 1] && tail[l] == rs[l + 1];
        }
      }
      ShowAllErrors(d', tail, present, parented);
      var out := ShowAll(d, rs, present, parented);
      assert out == ShowAll(d', tail, present, parented);
      forall f ensures Mentions(rs, f) <==> rs[0].field == f || Mentions(tail, f) {
        MentionsCons(rs, f);
      }
      assert !Mentions(tail, rs[0].field);
      forall k | 0 <= k < |rs| && rs[k].field in out.errors
        ensures out.errors[rs[k].field] == ErrorEntry(rs[k].message, true)
      {
        if k > 0 {
          assert tail[k - 1] == rs[k];
        }
      }
    }
  }

  /** `clearErrorMessages`: every error element hidden and emptied, no field
      bordered; the focus stays where it was. */
  function ClearAll(d: Display): (c: Display)
    ensures c.errors.Keys == d.errors.Keys
    ensures forall f :: f in c.errors ==> c.errors[f] == Hidden
    ensures c.bordered == {}
    ensures c.focused == d.focused
  {
    Display(map f | f in d.errors :: Hidden, {}, d.focused)
  }

  /** Clearing twice is clearing once. */
  lemma ClearIdempotent(d: Display)
    ensures ClearAll(ClearAll(d)) == ClearAll(d)
  {
    assert ClearAll(ClearAll(d)).errors == ClearAll(d).errors;
  }

  /** The display after a submit: the previous errors cleared, then every
      report of the validation pass shown. */
  function AfterSubmit(d: Display, s: Snapshot, today: int, parented: set<FieldId>): Display {
    ShowAll(ClearAll(d), Reports(s, today), Present(s), parented)
  }

  /** After a submit, exactly the failing fields show their message: a
      field's error element is displayed with the message of its failure
      when the field fails, and hidden and empty otherwise; a failing field
      that had no element gets one when it exists and has a parent. Exactly
      the existing failing fields are bordered. */
  lemma AfterSubmitErrors(d: Display, s: Snapshot, today: int, parented: set<FieldId>)
    ensures var out := AfterSubmit(d, s, today, parented);
      && (forall f :: f in out.errors
            <==> f in d.errors || (Check(s, f, today).Invalid? && f in Present(s) && f in parented))
      && (forall f :: f in out.errors && Check(s, f, today).Invalid?
            ==> out.errors[f] == ErrorEntry(Message(f, Check(s, f, today).reason), true))
      && (forall f :: f in out.errors && Check(s, f, today) == Valid ==> out.errors[f] == Hidden)
      && (forall f :: f in out.bordered <==> f in Present(s) && Check(s, f, today).Invalid?)
  {
    var rs := Reports(s, today);
    var c := ClearAll(d);
    ReportsExact(s, today);
    ShowAllErrors(c, rs, Present(s), parented);
    ShowAllBorders(c, rs, Present(s), parented);
    var out := AfterSubmit(d, s, today, parented);
    forall f | f in out.errors && Check(s, f, today).Invalid?
      ensures out.errors[f] == ErrorEntry(Message(f, Check(s, f, today).reason), true)
    {
      assert Mentions(rs, f);
      var k :| 0 <= k < |rs| && rs[k].field == f;
    }
  }

  /** With reports in schema order, the focus ends on the existing
      reported field that no later existing field follows in the reports. */
  lemma FocusOnLastReported(d: Display, rs: seq<Report>, present: set<FieldId>, parented: set<FieldId>)
    requires InSchemaOrder(rs)
    ensures forall f ::
      (Mentions(rs, f) && f in present
       && (forall g :: Rank(f) < Rank(g) && g in present ==> !Mentions(rs, g)))
      ==> ShowAll(d, rs, present, parented).focused == Some(f)
    ensures (forall f :: f in present ==> !Mentions(rs, f))
      ==> ShowAll(d, rs, present, parented).focused == d.focused
  {
    forall f | Mentions(rs, f) && f in present
      && (forall g :: Rank(f) < Rank(g) && g in present ==> !Mentions(rs, g))
      ensures ShowAll(d, rs, present, parented).focused == Some(f)
    {
      var k :| 0 <= k < |rs| && rs[k].field == f;
      forall l | k < l < |rs| ensures rs[l].field !in present {
        assert Rank(rs[k].field) < Rank(rs[l].field);
        assert Mentions(rs, rs[l].field);
      }
      ShowAllFocus(d, rs, present, parented, k);
    }
    if forall f :: f in present ==> !Mentions(rs, f) {
      forall k | 0 <= k < |rs| ensures rs[k].field !in present {
        assert Mentions(rs, rs[k].field);
      }
      ShowAllKeepsFocus(d, rs, present, parented);
    }
  }

  /** After a submit the focus is on the last existing failing field in
      schema order (not the first); when no existing field fails it stays
      where it was. */
  lemma AfterSubmitFocus(d: Display, s: Snapshot, today: int, parented: set<FieldId>)
    ensures forall f ::
      (Check(s, f, today).Invalid? && f in Present(s)
       && (forall g :: Rank(f) < Rank(g) && g in Present(s) ==> Check(s, g, today) == Valid))
      ==> AfterSubmit(d, s, today, parented).focused == Some(f)
    ensures (forall f :: f in Present(s) ==> Check(s, f, today) == Valid)
      ==> AfterSubmit(d, s, today, parented).focused == d.focused
  {
    ReportsExact(s, today);
    FocusOnLastReported(ClearAll(d), Reports(s, today), Present(s), parented);
  }

  /** A successful pass leaves no error displayed and no field bordered. */
  lemma ValidSubmitShowsNothing(d: Display, s: Snapshot, today: int, parented: set<FieldId>)
    requires FormValid(s, today)
    ensures AfterSubmit(d, s, today, parented) == ClearAll(d)
  {
  }

}
