/**
 * The four field rules of the appointment form (`validateForm`, app.js) as
 * pure functions over a snapshot of the field values, and the list of
 * error reports one validation pass produces.
 */
module Validation {
  import opened Wrappers
  import opened Text

  /** The form's fields, in the order `validateForm` checks them. */
  datatype FieldId = FullName | Phone | Email | PreferredDate

  const Schema: seq<FieldId> := [FullName, Phone, Email, PreferredDate]

  /** Position of a field in `Schema`. */
  function Rank(f: FieldId): (i: nat)
    ensures i < |Schema| && Schema[i] == f
  {
    match f
    case FullName => 0
    case Phone => 1
    case Email => 2
    case PreferredDate => 3
  }

  /** Value of the date input. A date input's value is either empty or a
      calendar date, abstracted here to a day number; `Unreadable` is a
      non-empty value that `new Date(...)` cannot parse. */
  datatype DateInput = Empty | Picked(day: int) | Unreadable

  /** The form as `validateForm` reads it: `None` is an element that
      `getElementById` does not find. */
  datatype Snapshot = Snapshot(
    fullName: Option<string>,
    phone: Option<string>,
    email: Option<string>,
    preferredDate: Option<DateInput>)

  /** The fields whose element exists. */
  function Present(s: Snapshot): (p: set<FieldId>)
    ensures FullName in p <==> s.fullName.Some?
    ensures Phone in p <==> s.phone.Some?
    ensures Email in p <==> s.email.Some?
    ensures PreferredDate in p <==> s.preferredDate.Some?
  {
    (if s.fullName.Some? then {FullName} else {})
    + (if s.phone.Some? then {Phone} else {})
    + (if s.email.Some? then {Email} else {})
    + (if s.preferredDate.Some? then {PreferredDate} else {})
  }

  datatype Reason = Required | TooShort | InvalidFormat | PastDate

  datatype Outcome = Valid | Invalid(reason: Reason)

  /** The reasons each field's rule can give. */
  predicate Admissible(f: FieldId, r: Reason) {
    match f
    case FullName => r == Required || r == TooShort
    case Phone => r == Required || r == InvalidFormat
    case Email => r == Required || r == InvalidFormat
    case PreferredDate => r == PastDate
  }

  /** The message `showFieldError` is given for a failing field. */
  function Message(f: FieldId, r: Reason): string
    requires Admissible(f, r)
  {
    match f
    case FullName =>
      if r == Required then "Full name is required"
      else "Full name must be at least 2 characters"
    case Phone =>
      if r == Required then "Phone number is required"
      else "Please enter a valid 10-digit Indian mobile number"
    case Email =>
      if r == Required then "Email address is required"
      else "Please enter a valid email address"
    case PreferredDate => "Please select a future date"
  }

  // ---------------------------------------------------------------------
  // Patterns
  // ---------------------------------------------------------------------

  /** `/^[6-9]\d{9}$/`: ten ASCII digits, the first of them 6, 7, 8 or 9. */
  predicate MatchesPhonePattern(s: string) {
    && |s| == 10
    && '6' <= s[0] <= '9'
    && forall k :: 1 <= k < |s| ==> IsDigit(s[k])
  }

  /** A run of `[^\s@]+` of the email pattern. */
  predicate EmailAtom(t: string) {
    && |t| > 0
    && forall k :: 0 <= k < |t| ==> !IsWhitespace(t[k]) && t[k] != '@'
  }

  /** `/^[^\s@]+@[^\s@]+\.[^\s@]+$/`, read off the regular expression: the
      string splits at an '@' (index `i`) and a later '.' (index `j`) into
      three non-empty runs without whitespace or '@'. */
  ghost predicate MatchesEmailPattern(s: string) {
    exists i, j ::
      && 0 <= i < j < |s|
      && s[i] == '@' && s[j] == '.'
      && EmailAtom(s[..i]) && EmailAtom(s[i + 1..j]) && EmailAtom(s[j + 1..])
  }

  /** The shape the email pattern accepts, stated character by character: no
      whitespace, exactly one '@' and it is not first, and a '.' in the part
      after the '@' that is neither that part's first nor its last
      character. */
  predicate EmailShape(s: string) {
    && NoWhitespace(s)
    && multiset(s)['@'] == 1
    && exists i :: 0 < i < |s| && s[i] == '@' && HasInnerDot(s[i + 1..])
  }

  /** `d` holds a '.' that is neither its first nor its last character. */
  predicate HasInnerDot(d: string) {
    exists j :: 0 < j < |d| - 1 && d[j] == '.'
  }

  lemma AtCountOne(s: string, i: int, k: int)
    requires 0 <= i < |s| && 0 <= k < |s| && i != k
    requires s[i] == '@' && multiset(s)['@'] == 1
    ensures s[k] != '@'
  {
    if k < i {
      assert s == s[..k] + [s[k]] + s[k + 1..i] + [s[i]] + s[i + 1..];
    } else {
      assert s == s[..i] + [s[i]] + s[i + 1..k] + [s[k]] + s[k + 1..];
    }
  }

  lemma AtCountOfPattern(s: string, i: int, j: int)
    requires 0 <= i < j < |s| && s[i] == '@' && s[j] == '.'
    requires EmailAtom(s[..i]) && EmailAtom(s[i + 1..j]) && EmailAtom(s[j + 1..])
    ensures multiset(s)['@'] == 1
  {
    var a, b, c := s[..i], s[i + 1..j], s[j + 1..];
    assert s == a + [s[i]] + b + [s[j]] + c;
    assert multiset(a)['@'] == 0 by {
      assert forall k :: 0 <= k < |a| ==> a[k] != '@';
    }
    assert multiset(b)['@'] == 0 by {
      assert forall k :: 0 <= k < |b| ==> b[k] != '@';
    }
    assert multiset(c)['@'] == 0 by {
      assert forall k :: 0 <= k < |c| ==> c[k] != '@';
    }
    calc {
      multiset(s)['@'];
      (multiset(a) + multiset([s[i]]) + multiset(b) + multiset([s[j]]) + multiset(c))['@'];
      1;
    }
  }

  /** Every value of the shape matches the regular expression. */
  lemma ShapeMatchesPattern(s: string)
    requires EmailShape(s)
    ensures MatchesEmailPattern(s)
  {
    var i :| 0 < i < |s| && s[i] == '@' && HasInnerDot(s[i + 1..]);
    var d := s[i + 1..];
    var jd :| 0 < jd < |d| - 1 && d[jd] == '.';
    var j := i + 1 + jd;
    assert s[j] == '.';
    forall k | 0 <= k < |s| && k != i ensures s[k] != '@' {
      AtCountOne(s, i, k);
    }
    assert EmailAtom(s[..i]);
    assert EmailAtom(s[i + 1..j]);
    assert EmailAtom(s[j + 1..]);
  }

  /** Every value the three runs of a match put together has no
      whitespace. */
  lemma PatternHasNoWhitespace(s: string, i: int, j: int)
    requires 0 <= i < j < |s| && s[i] == '@' && s[j] == '.'
    requires EmailAtom(s[..i]) && EmailAtom(s[i + 1..j]) && EmailAtom(s[j + 1..])
    ensures NoWhitespace(s)
  {
    forall k | 0 <= k < |s| ensures !IsWhitespace(s[k]) {
      if k < i {
        assert s[k] == s[..i][k];
      } else if i < k < j {
        assert s[k] == s[i + 1..j][k - i - 1];
      } else if j < k {
        assert s[k] == s[j + 1..][k - j - 1];
      }
    }
  }

  /** Every value the regular expression matches has the shape. */
  lemma PatternHasShape(s: string)
    requires MatchesEmailPattern(s)
    ensures EmailShape(s)
  {
    var i, j :| && 0 <= i < j < |s|
                && s[i] == '@' && s[j] == '.'
                && EmailAtom(s[..i]) && EmailAtom(s[i + 1..j]) && EmailAtom(s[j + 1..]);
    PatternHasNoWhitespace(s, i, j);
    AtCountOfPattern(s, i, j);
    assert s[i + 1..][j - i - 1] == '.';
    assert HasInnerDot(s[i + 1..]);
  }

  /** The character-by-character shape is exactly what the regular
      expression accepts. */
  lemma EmailShapeIsPattern(s: string)
    ensures EmailShape(s) <==> MatchesEmailPattern(s)
  {
    if EmailShape(s) {
      ShapeMatchesPattern(s);
    }
    if MatchesEmailPattern(s) {
      PatternHasShape(s);
    }
  }

  // ---------------------------------------------------------------------
  // Field rules (app.js:142-181)
  // ---------------------------------------------------------------------

  /** Full name: required, and at least two characters once trimmed. */
  function CheckName(v: Option<string>): Outcome {
    if v.None? || Trim(v.value) == [] then Invalid(Required)
    else if |Trim(v.value)| < 2 then Invalid(TooShort)
    else Valid
  }

  /** Phone: required, and the pattern is tested with all whitespace
      removed. */
  function CheckPhone(v: Option<string>): Outcome {
    if v.None? || Trim(v.value) == [] then Invalid(Required)
    else if !MatchesPhonePattern(StripWhitespace(v.value)) then Invalid(InvalidFormat)
    else Valid
  }

  /** Email: required, and the pattern is tested on the untrimmed value. */
  function CheckEmail(v: Option<string>): Outcome {
    if v.None? || Trim(v.value) == [] then Invalid(Required)
    else if !EmailShape(v.value) then Invalid(InvalidFormat)
    else Valid
  }

  /** Preferred date: optional; a date strictly before `today` fails. A value
      that does not parse compares as neither earlier nor later, so it
      passes. */
  function CheckDate(v: Option<DateInput>, today: int): Outcome {
    match v
    case Some(Picked(day)) => if day < today then Invalid(PastDate) else Valid
    case _ => Valid
  }

  /** The outcome of field `f`'s rule. */
  function Check(s: Snapshot, f: FieldId, today: int): (o: Outcome)
    ensures o.Invalid? ==> Admissible(f, o.reason)
  {
    match f
    case FullName => CheckName(s.fullName)
    case Phone => CheckPhone(s.phone)
    case Email => CheckEmail(s.email)
    case PreferredDate => CheckDate(s.preferredDate, today)
  }

  lemma NameRule(v: Option<string>)
    ensures CheckName(v) == Invalid(Required) <==> v.None? || Blank(v.value)
    ensures CheckName(v) == Invalid(TooShort) <==> v.Some? && |Trim(v.value)| == 1
    ensures CheckName(v) == Valid <==> v.Some? && |Trim(v.value)| >= 2
  {
  }

  lemma PhoneRule(v: Option<string>)
    ensures CheckPhone(v) == Invalid(Required) <==> v.None? || Blank(v.value)
    ensures CheckPhone(v) == Valid <==> v.Some? && MatchesPhonePattern(StripWhitespace(v.value))
    ensures CheckPhone(v) in {Valid, Invalid(Required), Invalid(InvalidFormat)}
  {
  }

  lemma EmailRule(v: Option<string>)
    ensures CheckEmail(v) == Invalid(Required) <==> v.None? || Blank(v.value)
    ensures CheckEmail(v) == Valid <==> v.Some? && MatchesEmailPattern(v.value)
    ensures CheckEmail(v) in {Valid, Invalid(Required), Invalid(InvalidFormat)}
  {
    if v.Some? {
      EmailShapeIsPattern(v.value);
      if EmailShape(v.value) && v.value != [] {
        assert !IsWhitespace(v.value[0]);
      }
    }
  }

  lemma DateRule(v: Option<DateInput>, today: int)
    ensures CheckDate(v, today) != Valid <==> v.Some? && v.value.Picked? && v.value.day < today
    ensures CheckDate(v, today) in {Valid, Invalid(PastDate)}
  {
  }

  /** The name boundary: a name without surrounding whitespace is required
      when empty, too short at one character and accepted from two. */
  lemma NameBoundary(s: string)
    requires NoWhitespace(s)
    ensures CheckName(Some(s))
      == if s == [] then Invalid(Required) else if |s| == 1 then Invalid(TooShort) else Valid
  {
    TrimNoWhitespace(s);
  }

  /** The phone boundary: ten digits form a mobile number exactly when the
      first is 6, 7, 8 or 9 (so "5123456789" fails and "9123456789"
      passes); otherwise the format message is given. */
  lemma PhoneBoundary(s: string)
    requires |s| == 10 && forall k :: 0 <= k < |s| ==> IsDigit(s[k])
    ensures CheckPhone(Some(s)) == if '6' <= s[0] <= '9' then Valid else Invalid(InvalidFormat)
  {
    assert NoWhitespace(s);
    FilterKeepsAll(s, NotWhitespace);
    TrimNoWhitespace(s);
  }

  /** On a value without whitespace the phone rule is the pattern itself. */
  lemma PhoneWithoutWhitespace(s: string)
    requires NoWhitespace(s)
    ensures CheckPhone(Some(s))
      == if s == [] then Invalid(Required)
         else if MatchesPhonePattern(s) then Valid
         else Invalid(InvalidFormat)
  {
    FilterKeepsAll(s, NotWhitespace);
    TrimNoWhitespace(s);
  }

  /** Whitespace anywhere in the phone value is ignored. */
  lemma PhoneIgnoresWhitespace(a: string, w: string, b: string)
    requires Blank(w)
    ensures CheckPhone(Some(a + w + b)) == CheckPhone(Some(a + b))
  {
    StripSplice(a, w, b);
    BlankSplice(a, w, b);
  }

  // ---------------------------------------------------------------------
  // One validation pass (app.js:133-184)
  // ---------------------------------------------------------------------

  /** One `showFieldError(field, message)` call. */
  datatype Report = Report(field: FieldId, message: string)

  /** Outcomes per field whose failures all have a message. */
  ghost predicate Consistent(verdict: FieldId -> Outcome) {
    forall f :: verdict(f).Invalid? ==> Admissible(f, verdict(f).reason)
  }

  /** The outcome of every rule on the snapshot `s`. */
  function Verdict(s: Snapshot, today: int): (v: FieldId -> Outcome)
    ensures Consistent(v)
  {
    f => Check(s, f, today)
  }

  /** The report a field with outcome `o` gives: none when it passed. */
  function ReportOf(f: FieldId, o: Outcome): seq<Report>
    requires o.Invalid? ==> Admissible(f, o.reason)
  {
    match o
    case Valid => []
    case Invalid(r) => [Report(f, Message(f, r))]
  }

  /** The reports of checking the fields `fs` one after the other. */
  function ReportsOver(verdict: FieldId -> Outcome, fs: seq<FieldId>): seq<Report>
    requires Consistent(verdict)
  {
    if fs == [] then []
    else ReportOf(fs[0], verdict(fs[0])) + ReportsOver(verdict, fs[1..])
  }

  /** The reports of one pass over the whole form. */
  function Reports(s: Snapshot, today: int): seq<Report> {
    ReportsOver(Verdict(s, today), Schema)
  }

  /** Some report of `rs` is about `f`. */
  ghost predicate Mentions(rs: seq<Report>, f: FieldId) {
    exists k :: 0 <= k < |rs| && rs[k].field == f
  }

  /** Fields strictly in schema order, so none occurs twice. */
  ghost predicate Ascending(fs: seq<FieldId>) {
    forall k, l :: 0 <= k < l < |fs| ==> Rank(fs[k]) < Rank(fs[l])
  }

  /** Reports strictly in schema order, so no field is reported twice. */
  ghost predicate InSchemaOrder(rs: seq<Report>) {
    forall k, l :: 0 <= k < l < |rs| ==> Rank(rs[k].field) < Rank(rs[l].field)
  }

  /** Each report is about a field that failed and carries the message of
      its reason. */
  ghost predicate Faithful(verdict: FieldId -> Outcome, rs: seq<Report>)
    requires Consistent(verdict)
  {
    forall k :: 0 <= k < |rs| ==>
      verdict(rs[k].field).Invalid?
      && rs[k].message == Message(rs[k].field, verdict(rs[k].field).reason)
  }

  /** Every report of a pass over `fs` is about one of `fs` that failed, and
      carries its message. */
  lemma {:induction false} ReportsOverFaithful(verdict: FieldId -> Outcome, fs: seq<FieldId>)
    requires Consistent(verdict)
    ensures |ReportsOver(verdict, fs)| <= |fs|
    ensures Faithful(verdict, ReportsOver(verdict, fs))
    ensures forall k :: 0 <= k < |ReportsOver(verdict, fs)| ==> ReportsOver(verdict, fs)[k].field in fs
  {
    if fs != [] {
      ReportsOverFaithful(verdict, fs[1..]);
      var head := ReportOf(fs[0], verdict(fs[0]));
      var tail := ReportsOver(verdict, fs[1..]);
      var rs := head + tail;
      forall k | 0 <= k < |rs|
        ensures rs[k].field in fs
        ensures verdict(rs[k].field).Invalid?
        ensures rs[k].message == Message(rs[k].field, verdict(rs[k].field).reason)
      {
        if k >= |head| {
          assert rs[k] == tail[k - |head|];
        }
      }
    }
  }

  /** A pass over `fs` reports every one of `fs` that fails, and nothing
      else. */
  lemma {:induction false} ReportsOverComplete(verdict: FieldId -> Outcome, fs: seq<FieldId>)
    requires Consistent(verdict)
    ensures forall f :: Mentions(ReportsOver(verdict, fs), f) <==> f in fs && verdict(f).Invalid?
  {
    ReportsOverFaithful(verdict, fs);
    if fs != [] {
      ReportsOverComplete(verdict, fs[1..]);
      var head := ReportOf(fs[0], verdict(fs[0]));
      var tail := ReportsOver(verdict, fs[1..]);
      var rs := head + tail;
      forall f | f in fs && verdict(f).Invalid? ensures Mentions(rs, f) {
        if f == fs[0] {
          assert rs[0].field == f;
        } else {
          assert f in fs[1..];
          var k :| 0 <= k < |tail| && tail[k].field == f;
          assert rs[|head| + k] == tail[k];
        }
      }
    }
  }

  lemma OrderedConcat(head: seq<Report>, tail: seq<Report>)
    requires |head| <= 1 && InSchemaOrder(tail)
    requires forall h, k :: 0 <= h < |head| && 0 <= k < |tail| ==> Rank(head[h].field) < Rank(tail[k].field)
    ensures InSchemaOrder(head + tail)
  {
    var rs := head + tail;
    forall k, l | 0 <= k < l < |rs| ensures Rank(rs[k].field) < Rank(rs[l].field) {
      assert rs[l] == tail[l - |head|];
      if k >= |head| {
        assert rs[k] == tail[k - |head|];
      } else {
        assert rs[k] == head[k];
      }
    }
  }

  /** A pass over fields in schema order reports in schema order. */
  lemma {:induction false} ReportsOverOrdered(verdict: FieldId -> Outcome, fs: seq<FieldId>)
    requires Consistent(verdict) && Ascending(fs)
    ensures InSchemaOrder(ReportsOver(verdict, fs))
  {
    if fs != [] {
      assert Ascending(fs[1..]) by {
        forall k, l | 0 <= k < l < |fs| - 1 ensures Rank(fs[1..][k]) < Rank(fs[1..][l]) {
          assert fs[1..][k] == fs[k + 1] && fs[1..][l] == fs[l + 1];
        }
      }
      ReportsOverOrdered(verdict, fs[1..]);
      ReportsOverFaithful(verdict, fs[1..]);
      var head := ReportOf(fs[0], verdict(fs[0]));
      var tail := ReportsOver(verdict, fs[1..]);
      forall h, k | 0 <= h < |head| && 0 <= k < |tail| ensures Rank(head[h].field) < Rank(tail[k].field) {
        var m :| 0 <= m < |fs[1..]| && fs[1..][m] == tail[k].field;
        assert fs[m + 1] == tail[k].field;
      }
      OrderedConcat(head, tail);
    }
  }

  /** A pass over the schema, for any outcomes: the failing fields
      reported exactly, each once, in schema order, with their messages. */
  lemma SchemaPassExact(verdict: FieldId -> Outcome)
    requires Consistent(verdict)
    ensures var rs := ReportsOver(verdict, Schema);
      && |rs| <= |Schema|
      && InSchemaOrder(rs)
      && (forall f :: Mentions(rs, f) <==> verdict(f).Invalid?)
      && Faithful(verdict, rs)
  {
    ReportsOverFaithful(verdict, Schema);
    ReportsOverComplete(verdict, Schema);
    ReportsOverOrdered(verdict, Schema);
    forall f ensures f in Schema {
      assert Schema[Rank(f)] == f;
    }
  }

  /** Every field is checked, whatever the earlier fields gave: one pass
      reports exactly the failing fields, each once, in schema order, with
      the message of its reason. */
  lemma ReportsExact(s: Snapshot, today: int)
    ensures var rs := Reports(s, today);
      && |rs| <= |Schema|
      && InSchemaOrder(rs)
      && (forall f :: Mentions(rs, f) <==> Check(s, f, today).Invalid?)
      && (forall k :: 0 <= k < |rs| ==>
            Check(s, rs[k].field, today).Invalid?
            && rs[k].message == Message(rs[k].field, Check(s, rs[k].field, today).reason))
  {
    SchemaPassExact(Verdict(s, today));
  }

  /** A pass over the schema, for any outcomes, is the four field checks
      one after the other. */
  lemma SchemaPassInBlocks(verdict: FieldId -> Outcome)
    requires Consistent(verdict)
    ensures ReportsOver(verdict, Schema)
      == ReportOf(FullName, verdict(FullName)) + ReportOf(Phone, verdict(Phone))
         + ReportOf(Email, verdict(Email)) + ReportOf(PreferredDate, verdict(PreferredDate))
  {
    assert Schema[1..] == [Phone, Email, PreferredDate];
    assert Schema[1..][1..] == [Email, PreferredDate];
    assert Schema[1..][1..][1..] == [PreferredDate];
    assert Schema[1..][1..][1..][1..] == [];
    assert ReportsOver(verdict, [PreferredDate]) == ReportOf(PreferredDate, verdict(PreferredDate));
  }

  /** A pass makes the four field checks one after the other, as the four
      `if` blocks of `validateForm` do. */
  lemma ReportsInBlocks(s: Snapshot, today: int)
    ensures Reports(s, today)
      == ReportOf(FullName, Check(s, FullName, today)) + ReportOf(Phone, Check(s, Phone, today))
         + ReportOf(Email, Check(s, Email, today)) + ReportOf(PreferredDate, Check(s, PreferredDate, today))
  {
    SchemaPassInBlocks(Verdict(s, today));
  }

  /** `validateForm`'s verdict: no field was reported. */
  predicate FormValid(s: Snapshot, today: int) {
    Reports(s, today) == []
  }

  lemma FormValidIffAllValid(s: Snapshot, today: int)
    ensures FormValid(s, today) <==> forall f :: Check(s, f, today) == Valid
  {
    ReportsExact(s, today);
    if !FormValid(s, today) {
      assert Mentions(Reports(s, today), Reports(s, today)[0].field);
    }
  }

  /** `form.reset()`: every existing field goes back to empty. */
  function Cleared(s: Snapshot): (c: Snapshot)
    ensures Present(c) == Present(s)
  {
    Snapshot(
      if s.fullName.Some? then Some("") else None,
      if s.phone.Some? then Some("") else None,
      if s.email.Some? then Some("") else None,
      if s.preferredDate.Some? then Some(Empty) else None)
  }

  /** Submitting the emptied form reports the three required fields and
      nothing about the optional date. */
  lemma EmptyFormReports(s: Snapshot, today: int)
    ensures Reports(Cleared(s), today) == [
      Report(FullName, "Full name is required"),
      Report(Phone, "Phone number is required"),
      Report(Email, "Email address is required")]
  {
    var c := Cleared(s);
    ReportsInBlocks(c, today);
    assert CheckName(c.fullName) == Invalid(Required);
    assert CheckPhone(c.phone) == Invalid(Required);
    assert CheckEmail(c.email) == Invalid(Required);
  }

}
