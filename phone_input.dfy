/**
 * The live formatting of the phone field (app.js:341-347): on every input
 * event the value keeps only its digits, cut to the first ten.
 */
module PhoneInput {
  import opened Wrappers
  import opened Text
  import opened Validation

  const MaxDigits := 10

  /** `value.replace(/\D/g, '')`, then `slice(0, 10)` when longer than ten. */
  function SanitizePhone(s: string): (r: string)
    ensures |r| <= MaxDigits
    ensures forall k :: 0 <= k < |r| ==> IsDigit(r[k])
    ensures r <= Digits(s)
    ensures |r| == if |Digits(s)| < MaxDigits then |Digits(s)| else MaxDigits
  {
    var value := Digits(s);
    if |value| > MaxDigits then value[..MaxDigits] else value
  }

  /** A value that is already at most ten digits is left as it is. */
  lemma SanitizeKeepsPhoneDigits(s: string)
    requires |s| <= MaxDigits && forall k :: 0 <= k < |s| ==> IsDigit(s[k])
    ensures SanitizePhone(s) == s
  {
    FilterKeepsAll(s, IsDigit);
  }

  /** Formatting an already formatted value changes nothing, so repeated
      input events settle at once. */
  lemma SanitizeIdempotent(s: string)
    ensures SanitizePhone(SanitizePhone(s)) == SanitizePhone(s)
  {
    SanitizeKeepsPhoneDigits(SanitizePhone(s));
  }

  /** The formatted value depends only on the digits typed, in their
      order: non-digits anywhere are ignored. */
  lemma SanitizeAppend(a: string, b: string)
    ensures SanitizePhone(a + b) == SanitizePhone(Digits(a) + Digits(b))
  {
    FilterAppend(a, b, IsDigit);
    FilterKeepsAll(Digits(a) + Digits(b), IsDigit);
  }

  /** Formatting commutes with typing: formatting after every keystroke
      gives what formatting once at the end gives, so digits typed after the
      first ten are dropped. */
  lemma SanitizeWhileTyping(a: string, b: string)
    ensures SanitizePhone(SanitizePhone(a) + b) == SanitizePhone(a + b)
  {
    var p := SanitizePhone(a);
    FilterAppend(a, b, IsDigit);
    FilterAppend(p, b, IsDigit);
    FilterKeepsAll(p, IsDigit);
    CutWhileTyping(Digits(a), Digits(b));
  }

  /** The cut to ten digits, on digit strings: cutting before appending
      more digits and cutting again gives what one cut at the end gives. */
  lemma CutWhileTyping(x: string, y: string)
    ensures var p := if |x| > MaxDigits then x[..MaxDigits] else x;
      var q := p + y;
      var xy := x + y;
      (if |q| > MaxDigits then q[..MaxDigits] else q)
      == (if |xy| > MaxDigits then xy[..MaxDigits] else xy)
  {
    if |x| > MaxDigits {
      assert (x[..MaxDigits] + y)[..MaxDigits] == x[..MaxDigits];
      assert (x + y)[..MaxDigits] == x[..MaxDigits];
    }
  }

  /** What the submit-time rule makes of a formatted value: required when no
      digit was typed, a valid mobile number when at least ten digits were
      typed and the first is 6 to 9, and the format message otherwise. */
  lemma SanitizedPhoneRule(s: string)
    ensures var d := Digits(s);
      CheckPhone(Some(SanitizePhone(s)))
      == if d == [] then Invalid(Required)
         else if |d| >= MaxDigits && '6' <= d[0] <= '9' then Valid
         else Invalid(InvalidFormat)
  {
    var r := SanitizePhone(s);
    assert NoWhitespace(r);
    PhoneWithoutWhitespace(r);
    if Digits(s) != [] {
      assert r[0] == Digits(s)[0];
    }
  }

}
