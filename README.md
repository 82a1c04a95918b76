# Muskan Dental Clinic appointment form, modelled in Dafny

The site script `app.js` runs a landing page with an appointment request
form. This project models the logic of that script that decides what the
visitor sees:

- the four field rules of `validateForm`: full name, phone, email and
  preferred date;
- the list of error reports one validation pass produces;
- the error feedback that `showFieldError` and `clearErrorMessages` leave
  on the page: error texts, error borders and input focus;
- the submit handler, which clears, validates, and on success shows a
  success modal and resets the form;
- the live phone formatting on each `input` event;
- the scroll-driven header classes, the highlighted navigation link, and
  where `scrollToSection` scrolls the window.

Modules:

| file | module | what it holds |
|---|---|---|
| `wrappers.dfy` | `Wrappers` | `Option` |
| `text.dfy` | `Text` | the JavaScript whitespace and digit classes, `trim()`, `replace(/\s+/g, '')`, `replace(/\D/g, '')` |
| `validation.dfy` | `Validation` | field snapshot, rules, messages, the reports of one pass, `form.reset()` |
| `phone_input.dfy` | `PhoneInput` | the phone formatter |
| `error_display.dfy` | `ErrorDisplay` | the error feedback as a value, and what a submit does to it |
| `appointment_page.dfy` | `AppointmentPage` | class `Page`: the form's handlers as methods that change the page in place |
| `navigation.dfy` | `Navigation` | scroll thresholds, `scrollToSection`, class `Header` with `updateActiveNavLink` |

The field values come in as a `Snapshot`. In it, `None` stands for a field
whose element `getElementById` does not find. A missing name, phone or
email counts as `Required`, as in the code, while a missing date passes.

The page calendar enters as an integer day number, `today`. The date
input's value is `Empty`, `Picked(day)`, or `Unreadable`. `Unreadable` is a
non-empty value that `new Date` cannot parse. Such a date compares false
and so passes.

Two behaviours of the code are worth knowing, because a form of this kind
would usually do otherwise; the model follows the code:

- A form would usually focus the first invalid field. The code calls
  `focus()` for every invalid field that exists, so the LAST one keeps the
  focus. See `ErrorDisplay.AfterSubmitFocus`.
- A form would usually show at most one success notification. The code
  appends a new modal on every successful submit, so two successful submits
  more than 2 s apart, before the first modal is removed, stack two modals.
  See `AppointmentPage.Page.Submit`.

## Model

| member | source | states |
|---|---|---|
| Text.Trim | app.js:143 | `trim()` is a slice of the value with only whitespace before and after it; it is empty exactly when the value is blank, and otherwise starts and ends with a non-whitespace character |
| Text.StripWhitespace | app.js:156 | `replace(/\s+/g, '')` leaves no whitespace, keeps every other character with its multiplicity, and is empty exactly when the value is blank |
| Text.Digits | app.js:342 | `replace(/\D/g, '')` keeps only digits, and every digit with its multiplicity |
| Text.FilterAppend | app.js:342 | the removal of a character class distributes over concatenation, so kept characters keep their order |
| Text.StripSplice | app.js:156 | whitespace inserted anywhere leaves the stripped value unchanged |
| Validation.Present | app.js:137-140 | a field counts as existing exactly when its element is found |
| Validation.Check | app.js:142-181 | every failure of a rule has a message (`Admissible`) |
| Validation.EmailShapeIsPattern | app.js:162 | the email pattern accepts exactly the values without whitespace that have one '@', not first, followed by a part with a '.' that is neither its first nor its last character |
| Validation.ShapeMatchesPattern | app.js:162 | every value of the character-by-character shape matches the email pattern |
| Validation.PatternHasShape | app.js:162 | every value the email pattern matches has the shape |
| Validation.NameRule | app.js:143-149 | the name is Required iff missing or blank, TooShort iff it trims to one character, Valid iff it trims to at least two |
| Validation.PhoneRule | app.js:152-159 | the phone is Required iff missing or blank, Valid iff the value without whitespace matches `^[6-9]\d{9}$`, otherwise InvalidFormat |
| Validation.EmailRule | app.js:161-169 | the email is Required iff missing or blank, Valid iff the untrimmed value matches the email pattern, otherwise InvalidFormat |
| Validation.DateRule | app.js:171-181 | the date fails, with PastDate, iff a date before today is picked |
| Validation.NameBoundary | app.js:143-149 | a name without whitespace is Required at length 0, TooShort at length 1 and Valid from 2 |
| Validation.PhoneBoundary | app.js:152-159 | ten digits are Valid iff the first is 6 to 9, otherwise InvalidFormat |
| Validation.PhoneWithoutWhitespace | app.js:152-159 | on a value without whitespace the phone rule is the pattern test itself |
| Validation.PhoneIgnoresWhitespace | app.js:156 | whitespace inserted anywhere in the phone value does not change its outcome |
| Validation.ReportsOverFaithful | app.js:142-181 | every report of a pass is about a failing field, with that failure's message |
| Validation.ReportsOverComplete | app.js:142-181 | every failing field is reported |
| Validation.ReportsOverOrdered | app.js:142-181 | the reports follow the checked order of the fields |
| Validation.SchemaPassExact | app.js:142-181 | for any outcomes, a pass over the four fields reports exactly the failing ones, each once, in schema order, with their messages |
| Validation.ReportsExact | app.js:133-184 | one pass reports exactly the failing fields, each once, in schema order, with the message of its reason; a failure never stops the later checks |
| Validation.SchemaPassInBlocks | app.js:142-181 | for any outcomes, a pass is the four fields' reports one after the other |
| Validation.ReportsInBlocks | app.js:142-181 | a pass is the four `if` blocks one after the other |
| Validation.FormValidIffAllValid | app.js:133-184 | `validateForm` returns true iff every rule passes |
| Validation.Cleared | app.js:127 | `form.reset()` empties the existing fields and no others |
| Validation.EmptyFormReports | app.js:142-181 | a submit of the reset form reports exactly the three required fields, with their Required messages |
| PhoneInput.SanitizePhone | app.js:341-347 | the formatted value is at most ten digits and a prefix of the typed digits, of length min(10, digits typed) |
| PhoneInput.SanitizeKeepsPhoneDigits | app.js:341-347 | a value of at most ten digits is left unchanged |
| PhoneInput.SanitizeIdempotent | app.js:341-347 | formatting a formatted value changes nothing |
| PhoneInput.SanitizeAppend | app.js:341-347 | formatting depends only on the digits typed, in order |
| PhoneInput.SanitizeWhileTyping | app.js:341-347 | formatting after each keystroke gives the same value as formatting once at the end |
| PhoneInput.SanitizedPhoneRule | app.js:341-347 | a formatted value is Required when no digit was typed, Valid when at least ten were typed and the first is 6 to 9, otherwise InvalidFormat |
| ErrorDisplay.ShowAllAppend | app.js:142-181 | showing two report lists one after the other is showing their concatenation |
| ErrorDisplay.ShowAllBorders | app.js:191-194 | after `showFieldError` calls, exactly the reported existing fields are added to the bordered ones |
| ErrorDisplay.ShowAllKeepsFocus | app.js:191-194 | calls on missing fields do not move the focus |
| ErrorDisplay.ShowAllFocus | app.js:191-194 | the focus ends on the last reported field that exists |
| ErrorDisplay.ShowAllErrors | app.js:196-214 | an error element exists afterwards iff it existed or its field was reported, exists and has a parent; reported elements show their message; others are untouched |
| ErrorDisplay.ClearAll | app.js:218-230 | every error element is hidden and emptied, none is added or removed, no border remains, the focus is kept |
| ErrorDisplay.ClearIdempotent | app.js:218-230 | clearing twice is clearing once |
| ErrorDisplay.FocusOnLastReported | app.js:191-194 | with reports in schema order, the focus ends on the existing reported field with no later existing reported field |
| ErrorDisplay.AfterSubmitErrors | app.js:115-129 | after a submit, exactly the failing fields show their message, the others are hidden and empty, new elements appear only for existing parented fields, and exactly the existing failing fields are bordered |
| ErrorDisplay.AfterSubmitFocus | app.js:115-129 | after a submit the focus is on the last existing failing field in schema order, and does not move when no existing field fails |
| ErrorDisplay.ValidSubmitShowsNothing | app.js:115-129 | a valid submit leaves exactly the cleared display |
| AppointmentPage.Page.ShowFieldError | app.js:187-215 | the method changes the display as `ShowError` specifies and touches neither the values nor the modals |
| AppointmentPage.Page.ClearErrorMessages | app.js:218-230 | the two loops leave the display `ClearAll` of the old one |
| AppointmentPage.Page.ValidateField | app.js:142-149 | one rule's block: the result is true iff the field passes; a failing field is shown with the message of its failure, a passing one changes nothing |
| AppointmentPage.Page.ValidateForm | app.js:133-184 | the result is true iff the form is valid, and the display is the old one with every report of the pass shown in order |
| AppointmentPage.Page.ShowSuccessMessage | app.js:233-247 | one new hidden, attached modal is appended after the existing ones |
| AppointmentPage.Page.RevealModal | app.js:239-241 | the modal gets `show`; nothing else changes |
| AppointmentPage.Page.HideModal | app.js:329-330 | the modal loses `show`; nothing else changes |
| AppointmentPage.Page.RemoveModal | app.js:331-335 | the modal is detached, and detaching a detached modal changes nothing |
| AppointmentPage.Page.ResetForm | app.js:127 | the values become `Cleared` of the old ones |
| AppointmentPage.Page.Submit | app.js:115-129 | the display becomes `AfterSubmit` of the old one; a valid form is reset and gets one more modal; an invalid one keeps its values and modals |
| AppointmentPage.Page.PhoneInput | app.js:339-347 | an existing phone value is replaced by its formatting; nothing else changes |
| Navigation.ScrollTarget | app.js:415-429 | a missing section gives no scroll; otherwise the target is the larger of 0 and the section top less the header height less 20 |
| Navigation.ScrollTargetExact | app.js:418-422 | a section far enough down ends exactly 20 pixels below the header |
| Navigation.ScrollTargetMonotone | app.js:418-422 | a lower section is never scrolled to a smaller offset |
| Navigation.StripHash | app.js:89 | `replace('#', '')` leaves a value without '#' unchanged and otherwise removes exactly one character |
| Navigation.StripHashFragment | app.js:86-90 | the link `#id` leads to section `id` |
| Navigation.StripHashFirst | app.js:89 | only the first '#' is removed |
| Navigation.LastCovering | app.js:98-108 | it is the index of the last section covering the probe, or none covers it |
| Navigation.StackedCoverUnique | app.js:98-108 | on non-overlapping sections in page order at most one section covers the probe |
| Navigation.Header.UpdateActiveNavLink | app.js:94-110 | the last covering section decides the highlighted link (its own, or none when it has no link); with no covering section the highlight is unchanged |
| Navigation.Header.OnScroll | app.js:53-71 | on a page with a header element, the header is scrolled iff the scroll offset is over 100, the button visible iff it is over 300, so a visible button always comes with a scrolled header, and the highlight is updated |

## Left out

- The mobile navigation toggle, the close-on-link-click, and the resize handler (app.js:13-49 and 432-451): these are class toggles with nothing to compute.
- The click handlers and the `IntersectionObserver` animations, which only call `window.scrollTo` or set styles. The scroll target is modelled by `Navigation.ScrollTarget`.
- The Enter-key handler (app.js:453-462): it only clicks the submit button, which leads to the modelled submit handler when the button is enabled.
- The call-link logging (app.js:395-402).
- Smooth scrolling, the style element injected once, the modal's markup, and console output.
- Timer delays: the model's modal methods are the timer callbacks, without the times at which they run.
- The submit button's loading state (app.js:465-484): every submit disables the submit button and changes its text, and a 2 s timer restores both. While it is disabled, neither the button nor the Enter key can submit again. The model does not capture this lock: `AppointmentPage.Page.Submit` may run at any time, which admits more submit sequences than the page allows.
- The `min` attribute of the date input (app.js:351-357) and all `Date` parsing, time zones and the clock. The day numbers `today` and `Picked(day)` replace them.
- `Validation.DateRule`: `new Date("YYYY-MM-DD")` is midnight UTC while `today` is local midnight (app.js:173-177), so west of UTC the source rejects today's date with PastDate; the model compares day numbers and accepts it.
- `AppointmentPage.Page.ResetForm`: it resets fields to empty, not to any default values the HTML may declare.
- `Validation.NameRule`: JavaScript's `length` counts UTF-16 code units, but the model counts characters. A name of one character outside the Basic Multilingual Plane is TooShort in the model but has length 2 in JavaScript.
- The error elements are taken to be exactly the `.error-message` elements, and the fields exactly the `.form-control` elements.
- `Navigation.Header.UpdateActiveNavLink`: `querySelector('a[href="#id"]')` returns the first such anchor in the document. The model takes that anchor to be the section's navigation link.
- `Navigation.Header.OnScroll`: it requires the header element, whose absence makes the handler throw at app.js:56-58; it also takes the back-to-top button to exist, whose absence makes the handler throw at app.js:63-65 before the highlight is updated.
