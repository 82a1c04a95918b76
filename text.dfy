/**
 * Character classes and the string operations the form code applies to
 * field values: `String.prototype.trim`, `replace(/\s+/g, '')` and
 * `replace(/\D/g, '')`.
 */
module Text {

  /** The characters JavaScript's `\s` matches and `trim()` removes:
      WhiteSpace and LineTerminator of ECMAScript. */
  predicate IsWhitespace(c: char) {
    || c == '\t' || c == '\n' || c == '\U{B}' || c == '\U{C}' || c == '\r'
    || c == ' ' || c == '\U{A0}' || c == '\U{1680}'
    || ('\U{2000}' <= c <= '\U{200A}')
    || c == '\U{2028}' || c == '\U{2029}' || c == '\U{202F}' || c == '\U{205F}'
    || c == '\U{3000}' || c == '\U{FEFF}'
  }

  predicate NotWhitespace(c: char) {
    !IsWhitespace(c)
  }

  /** The characters JavaScript's `\d` matches (ASCII digits only). */
  predicate IsDigit(c: char) {
    '0' <= c <= '9'
  }

  /** Every character of `s` is whitespace (true of the empty string). */
  predicate Blank(s: string) {
    forall k :: 0 <= k < |s| ==> IsWhitespace(s[k])
  }

  /** No character of `s` is whitespace. */
  predicate NoWhitespace(s: string) {
    forall k :: 0 <= k < |s| ==> !IsWhitespace(s[k])
  }

  // ---------------------------------------------------------------------
  // Filtering: the global `replace(/class/g, '')` calls.
  // ---------------------------------------------------------------------

  /** The characters of `s` that satisfy `keep`, in their original order. */
  function Filter(s: string, keep: char -> bool): (r: string)
    ensures |r| <= |s|
    ensures forall k :: 0 <= k < |r| ==> keep(r[k])
    ensures forall c :: keep(c) ==> multiset(r)[c] == multiset(s)[c]
  {
    if s == [] then []
    else
      assert s == [s[0]] + s[1..];
      (if keep(s[0]) then [s[0]] else []) + Filter(s[1..], keep)
  }

  /** Filtering distributes over concatenation, so the kept characters keep
      their relative order. */
  lemma {:induction false} FilterAppend(a: string, b: string, keep: char -> bool)
    ensures Filter(a + b, keep) == Filter(a, keep) + Filter(b, keep)
  {
    if a == [] {
      assert a + b == b;
    } else {
      assert (a + b)[0] == a[0];
      assert (a + b)[1..] == a[1..] + b;
      FilterAppend(a[1..], b, keep);
    }
  }

  /** A string whose every character is kept is its own filtering. */
  lemma {:induction false} FilterKeepsAll(s: string, keep: char -> bool)
    requires forall k :: 0 <= k < |s| ==> keep(s[k])
    ensures Filter(s, keep) == s
  {
    if s != [] {
      FilterKeepsAll(s[1..], keep);
    }
  }

  /** Filtering is idempotent. */
  lemma FilterIdempotent(s: string, keep: char -> bool)
    ensures Filter(Filter(s, keep), keep) == Filter(s, keep)
  {
    FilterKeepsAll(Filter(s, keep), keep);
  }

  /** The filtering is empty exactly when no character of `s` is kept. */
  lemma {:induction false} FilterEmpty(s: string, keep: char -> bool)
    ensures Filter(s, keep) == [] <==> forall k :: 0 <= k < |s| ==> !keep(s[k])
  {
    if s != [] {
      FilterEmpty(s[1..], keep);
      assert forall k :: 1 <= k < |s| ==> s[k] == s[1..][k - 1];
    }
  }

  /** `value.replace(/\s+/g, '')`: every whitespace run removed. */
  function StripWhitespace(s: string): (r: string)
    ensures NoWhitespace(r)
    ensures forall c :: !IsWhitespace(c) ==> multiset(r)[c] == multiset(s)[c]
    ensures r == [] <==> Blank(s)
  {
    FilterEmpty(s, NotWhitespace);
    Filter(s, NotWhitespace)
  }

  /** `value.replace(/\D/g, '')`: only the ASCII digits are kept. */
  function Digits(s: string): (r: string)
    ensures forall k :: 0 <= k < |r| ==> IsDigit(r[k])
    ensures forall c :: IsDigit(c) ==> multiset(r)[c] == multiset(s)[c]
  {
    Filter(s, IsDigit)
  }

  // ---------------------------------------------------------------------
  // Trimming: `String.prototype.trim`.
  // ---------------------------------------------------------------------

  /** `s` without its leading whitespace. */
  function TrimStart(s: string): (r: string)
    ensures |r| <= |s| && r == s[|s| - |r|..]
    ensures forall k :: 0 <= k < |s| - |r| ==> IsWhitespace(s[k])
    ensures r == [] || !IsWhitespace(r[0])
  {
    if s != [] && IsWhitespace(s[0]) then TrimStart(s[1..]) else s
  }

  /** `s` without its trailing whitespace. */
  function TrimEnd(s: string): (r: string)
    ensures |r| <= |s| && r == s[..|r|]
    ensures forall k :: |r| <= k < |s| ==> IsWhitespace(s[k])
    ensures r == [] || !IsWhitespace(r[|r| - 1])
  {
    if s != [] && IsWhitespace(s[|s| - 1]) then TrimEnd(s[..|s| - 1]) else s
  }

  /** `r` is the slice of `s` starting at `i`, with only whitespace before
      and after it. */
  predicate FramedByWhitespace(s: string, r: string, i: nat) {
    i + |r| <= |s| && r == s[i..i + |r|] && Blank(s[..i]) && Blank(s[i + |r|..])
  }

  /** Dropping a whitespace prefix of `s` and then a whitespace suffix of
      the rest leaves a slice of `s` with only whitespace around it. */
  lemma WhitespaceAround(s: string, t: string, r: string)
    requires |t| <= |s| && t == s[|s| - |t|..]
    requires forall k :: 0 <= k < |s| - |t| ==> IsWhitespace(s[k])
    requires |r| <= |t| && r == t[..|r|]
    requires forall k :: |r| <= k < |t| ==> IsWhitespace(t[k])
    ensures FramedByWhitespace(s, r, |s| - |t|)
  {
    var i := |s| - |t|;
    assert r == s[i..i + |r|];
    assert Blank(s[..i]);
    var tail := s[i + |r|..];
    assert Blank(tail) by {
      forall k | 0 <= k < |tail| ensures IsWhitespace(tail[k]) {
        assert tail[k] == t[|r| + k];
      }
    }
  }

  /** `s.trim()`: the part of `s` between its leading and trailing
      whitespace, that is, a slice of `s` with only whitespace around it. It
      is empty exactly when `s` is blank, and otherwise starts and ends with
      a non-whitespace character. */
  function Trim(s: string): (r: string)
    ensures |r| <= |s|
    ensures exists i :: FramedByWhitespace(s, r, i)
    ensures r == [] <==> Blank(s)
    ensures r != [] ==> !IsWhitespace(r[0]) && !IsWhitespace(r[|r| - 1])
  {
    var t := TrimStart(s);
    var r := TrimEnd(t);
    WhitespaceAround(s, t, r);
    assert r != [] ==> !IsWhitespace(r[|r| - 1]);
    assert r == [] ==> Blank(s) by {
      if r == [] {
        assert t == [];
      }
    }
    assert Blank(s) ==> t == [];
    r
  }

  /** A string without whitespace is left as it is by `trim()`. */
  lemma TrimNoWhitespace(s: string)
    requires NoWhitespace(s)
    ensures Trim(s) == s
  {
    assert TrimStart(s) == s;
    assert TrimEnd(s) == s;
  }

  /** Inserting whitespace into a string does not change whether it is
      blank. */
  lemma BlankSplice(a: string, w: string, b: string)
    requires Blank(w)
    ensures Blank(a + w + b) <==> Blank(a + b)
  {
    if Blank(a + b) {
      forall k | 0 <= k < |a + w + b| ensures IsWhitespace((a + w + b)[k]) {
        if k < |a| {
          assert (a + w + b)[k] == (a + b)[k];
        } else if k >= |a| + |w| {
          assert (a + w + b)[k] == (a + b)[k - |w|];
        } else {
          assert (a + w + b)[k] == w[k - |a|];
        }
      }
    }
    if Blank(a + w + b) {
      forall k | 0 <= k < |a + b| ensures IsWhitespace((a + b)[k]) {
        if k < |a| {
          assert (a + w + b)[k] == (a + b)[k];
        } else {
          assert (a + w + b)[k + |w|] == (a + b)[k];
        }
      }
    }
  }

  /** Inserting whitespace into a string does not change it once its
      whitespace is stripped. */
  lemma StripSplice(a: string, w: string, b: string)
    requires Blank(w)
    ensures StripWhitespace(a + w + b) == StripWhitespace(a + b)
  {
    FilterAppend(a + w, b, NotWhitespace);
    FilterAppend(a, w, NotWhitespace);
    FilterAppend(a, b, NotWhitespace);
    FilterEmpty(w, NotWhitespace);
  }

}
