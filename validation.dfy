/** The form-field validator of `FormOptimizer`: the trim step of `validateInput`
    and the decision made by `checkValidity`. The two regular expressions the
    source uses are written as predicates of the same shape, and each is proved
    equivalent to a structural description of the strings it accepts. */
module Validation {
  import opened Text

  // ---------------------------------------------------------------------
  // The email pattern  ^[^\s@]+@[^\s@]+\.[^\s@]+$
  // ---------------------------------------------------------------------

  /** `[^\s@]+`: a non-empty run of characters that are neither whitespace nor '@'. */
  predicate IsPlainRun(s: string) {
    |s| > 0 && forall k :: 0 <= k < |s| ==> !IsWhitespace(s[k]) && s[k] != '@'
  }

  /** The email regular expression: some '@' at index `i` and some '.' at index
      `j` split the value into three plain runs. */
  predicate EmailPattern(s: string) {
    exists i, j :: 0 <= i < j < |s| && s[i] == '@' && s[j] == '.'
      && IsPlainRun(s[..i]) && IsPlainRun(s[i + 1..j]) && IsPlainRun(s[j + 1..])
  }

  /** A '.' that is neither the first nor the last character of `d`. */
  predicate HasInnerDot(d: string) {
    exists k :: 0 < k < |d| - 1 && d[k] == '.'
  }

  /** What an accepted email looks like, described without the pattern: no
      whitespace, exactly one '@', a non-empty part before it, and after it a
      part with a '.' that is neither its first nor its last character. */
  predicate IsEmailShaped(s: string) {
    NoWhitespace(s) && CountOf(s, '@') == 1
    && exists i :: 0 < i < |s| && s[i] == '@' && HasInnerDot(s[i + 1..])
  }

  /** When `s[i]` is the only '@' of `s`, no other index holds one. */
  lemma OnlyAt(s: string, i: nat)
    requires i < |s| && s[i] == '@' && CountOf(s, '@') == 1
    ensures forall k :: 0 <= k < |s| && k != i ==> s[k] != '@'
  {
    var left, right := s[..i], s[i + 1..];
    assert s == left + [s[i]] + right;
    CountOfConcat(left + [s[i]], right, '@');
    CountOfConcat(left, [s[i]], '@');
    CountOfZero(left, '@');
    CountOfZero(right, '@');
    forall k | 0 <= k < |s| && k != i ensures s[k] != '@' {
      if k < i { assert left[k] == s[k]; } else { assert right[k - i - 1] == s[k]; }
    }
  }

  /** An '@' at index `i` and none elsewhere make exactly one '@'. */
  lemma OneAt(s: string, i: nat)
    requires i < |s| && s[i] == '@'
    requires forall k :: 0 <= k < |s| && k != i ==> s[k] != '@'
    ensures CountOf(s, '@') == 1
  {
    var left, right := s[..i], s[i + 1..];
    assert s == left + [s[i]] + right;
    CountOfConcat(left + [s[i]], right, '@');
    CountOfConcat(left, [s[i]], '@');
    assert forall k :: 0 <= k < |left| ==> left[k] == s[k];
    assert forall k :: 0 <= k < |right| ==> right[k] == s[i + 1 + k];
    CountOfZero(left, '@');
    CountOfZero(right, '@');
  }

  /** Every character of a plain run is neither whitespace nor '@'. */
  lemma PlainRunAt(s: string, lo: nat, hi: nat, k: nat)
    requires lo <= k < hi <= |s| && IsPlainRun(s[lo..hi])
    ensures !IsWhitespace(s[k]) && s[k] != '@'
  {
    assert s[lo..hi][k - lo] == s[k];
  }

  /** A stretch of `s` free of whitespace and '@' is a plain run. */
  lemma PlainRunFrom(s: string, lo: nat, hi: nat)
    requires lo < hi <= |s|
    requires forall k :: lo <= k < hi ==> !IsWhitespace(s[k]) && s[k] != '@'
    ensures IsPlainRun(s[lo..hi])
  {
    var run := s[lo..hi];
    forall m | 0 <= m < |run| ensures !IsWhitespace(run[m]) && run[m] != '@' {
      assert run[m] == s[lo + m];
    }
  }

  /** Soundness of the structural description: what the pattern accepts is
      email-shaped. */
  lemma EmailPatternShaped(s: string)
    requires EmailPattern(s)
    ensures IsEmailShaped(s)
  {
    var i, j :| 0 <= i < j < |s| && s[i] == '@' && s[j] == '.'
      && IsPlainRun(s[..i]) && IsPlainRun(s[i + 1..j]) && IsPlainRun(s[j + 1..]);
    assert s[..i] == s[0..i] && s[j + 1..] == s[j + 1..|s|];
    forall k | 0 <= k < |s| ensures !IsWhitespace(s[k]) && (k != i ==> s[k] != '@') {
      if k < i {
        PlainRunAt(s, 0, i, k);
      } else if i < k < j {
        PlainRunAt(s, i + 1, j, k);
      } else if j < k {
        PlainRunAt(s, j + 1, |s|, k);
      }
    }
    OneAt(s, i);
    assert s[i + 1..][j - i - 1] == '.';
  }

  /** Completeness of the structural description: every email-shaped value is
      accepted by the pattern. */
  lemma ShapedEmailPattern(s: string)
    requires IsEmailShaped(s)
    ensures EmailPattern(s)
  {
    var i :| 0 < i < |s| && s[i] == '@' && HasInnerDot(s[i + 1..]);
    var d := s[i + 1..];
    var k :| 0 < k < |d| - 1 && d[k] == '.';
    var j := i + 1 + k;
    OnlyAt(s, i);
    assert s[j] == '.';
    PlainRunFrom(s, 0, i);
    PlainRunFrom(s, i + 1, j);
    PlainRunFrom(s, j + 1, |s|);
    assert s[..i] == s[0..i] && s[j + 1..] == s[j + 1..|s|];
  }

  /** The email pattern accepts exactly the email-shaped values. */
  lemma EmailPatternIsShape(s: string)
    ensures EmailPattern(s) <==> IsEmailShaped(s)
  {
    if EmailPattern(s) { EmailPatternShaped(s); }
    if IsEmailShaped(s) { ShapedEmailPattern(s); }
  }

  // ---------------------------------------------------------------------
  // The telephone pattern  ^[\+]?[1-9][\d]{0,15}$
  // ---------------------------------------------------------------------

  /** `\d` in a JavaScript regular expression: an ASCII digit only. */
  predicate IsDigit(c: char) {
    '0' <= c <= '9'
  }

  /** `[1-9][\d]{0,15}`: a non-zero digit followed by up to fifteen digits. */
  predicate IsTelNumber(d: string) {
    1 <= |d| <= 16 && '1' <= d[0] <= '9'
    && forall k :: 1 <= k < |d| ==> IsDigit(d[k])
  }

  /** The telephone regular expression: an optional '+' and then a number. A
      leading '+' can only be taken by the optional '+', never by `[1-9]`. */
  predicate TelPattern(s: string) {
    (|s| > 0 && s[0] == '+' && IsTelNumber(s[1..])) || IsTelNumber(s)
  }

  /** Number of ASCII digits in `s`. */
  function DigitCount(s: string): (n: nat)
    ensures n <= |s|
  {
    if s == [] then 0 else (if IsDigit(s[0]) then 1 else 0) + DigitCount(s[1..])
  }

  lemma {:induction false} DigitCountAll(s: string)
    requires forall k :: 0 <= k < |s| ==> IsDigit(s[k])
    ensures DigitCount(s) == |s|
  {
    if s != [] {
      DigitCountAll(s[1..]);
    }
  }

  /** What an accepted telephone number looks like: after an optional '+'
      every character is a digit, there are 1 to 16 of them and the first is
      not '0'; so the whole value is at most 17 characters long. */
  lemma TelPatternShape(s: string)
    ensures TelPattern(s) <==>
      var d := if |s| > 0 && s[0] == '+' then s[1..] else s;
      1 <= |d| <= 16 && d[0] != '0' && forall k :: 0 <= k < |d| ==> IsDigit(d[k])
    ensures TelPattern(s) ==> |s| <= 17 && 1 <= DigitCount(s) <= 16
  {
    if TelPattern(s) {
      var d := if |s| > 0 && s[0] == '+' then s[1..] else s;
      DigitCountAll(d);
      if |s| > 0 && s[0] == '+' {
        assert s == [s[0]] + d;
        assert DigitCount(s) == DigitCount(d);
      }
    }
  }

  // ---------------------------------------------------------------------
  // checkValidity and validateInput
  // ---------------------------------------------------------------------

  /** `checkValidity(input, value)`: `kind` is the input's `type`, `required`
      whether it carries the `required` attribute, `value` the trimmed value.
      A required field with an empty value is invalid; otherwise an email or
      tel field must match its pattern and every other field is valid. */
  predicate CheckValidity(kind: string, required: bool, value: string) {
    if required && value == [] then false
    else if kind == "email" then EmailPattern(value)
    else if kind == "tel" then TelPattern(value)
    else true
  }

  /** The decision of `validateInput`: the raw value is trimmed and then checked. */
  predicate ValidateInput(kind: string, required: bool, raw: string) {
    CheckValidity(kind, required, Trim(raw))
  }

  /** A required field whose value is empty after trimming is invalid, whatever
      its type. */
  lemma RequiredBlankInvalid(kind: string, raw: string)
    ensures AllWhitespace(raw) ==> !ValidateInput(kind, true, raw)
  {
    TrimEmpty(raw);
  }

  /** A field that is neither email nor tel is valid unless it is required and empty. */
  lemma OtherKindsValid(kind: string, required: bool, value: string)
    requires kind != "email" && kind != "tel"
    ensures CheckValidity(kind, required, value) <==> !(required && value == [])
  {
  }

  /** An email field is valid exactly when its value is email-shaped, required
      or not; in particular an empty email field is invalid even when optional. */
  lemma EmailRule(required: bool, value: string)
    ensures CheckValidity("email", required, value) <==> IsEmailShaped(value)
    ensures !CheckValidity("email", required, [])
  {
    EmailPatternIsShape(value);
    EmailPatternIsShape([]);
  }

  /** A tel field is valid exactly when its value is an optional '+' followed by
      1 to 16 digits that do not start with '0', required or not. */
  lemma TelRule(required: bool, value: string)
    ensures CheckValidity("tel", required, value) <==>
      var d := if |value| > 0 && value[0] == '+' then value[1..] else value;
      1 <= |d| <= 16 && d[0] != '0' && forall k :: 0 <= k < |d| ==> IsDigit(d[k])
  {
    TelPatternShape(value);
  }

  /** Whitespace around the raw value never changes the decision of
      `validateInput`. */
  lemma ValidateIgnoresPadding(kind: string, required: bool, pre: string, raw: string, post: string)
    requires AllWhitespace(pre) && AllWhitespace(post)
    ensures ValidateInput(kind, required, pre + raw + post) == ValidateInput(kind, required, raw)
  {
    TrimIgnoresPadding(pre, raw, post);
  }
}
