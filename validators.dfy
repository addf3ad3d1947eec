/** The field validators: the phone pattern `^\d{9}$` and the e-mail pattern
    `^[a-zA-Z0-9_.+-]+@[a-zA-Z0-9-]+\.[a-zA-Z0-9-.]+$`, read over ASCII.
    Birthdate validity is Calendar.ValidDate. */
module Validators {
  import opened Text

  /** `^\d{9}$`: exactly nine decimal digits. */
  predicate ValidatePhone(value: string)
  {
    |value| == 9 && forall i :: 0 <= i < |value| ==> IsDigit(value[i])
  }

  /** `[a-zA-Z0-9_.+-]`, the characters of the part before the `@`. */
  predicate LocalChar(c: char) { IsAsciiAlnum(c) || c == '_' || c == '.' || c == '+' || c == '-' }

  /** `[a-zA-Z0-9-]`, the characters of the label between `@` and the first `.`. */
  predicate LabelChar(c: char) { IsAsciiAlnum(c) || c == '-' }

  /** `[a-zA-Z0-9-.]`, the characters after that `.`. */
  predicate TailChar(c: char) { IsAsciiAlnum(c) || c == '.' || c == '-' }

  /** s splits as local + "@" + label + "." + tail at positions at and dot,
      each part non-empty and over its own character class. */
  predicate EmailSplit(s: string, at: int, dot: int)
  {
    && 0 < at && at + 1 < dot && dot + 1 < |s|
    && s[at] == '@' && s[dot] == '.'
    && (forall k :: 0 <= k < at ==> LocalChar(s[k]))
    && (forall k :: at < k < dot ==> LabelChar(s[k]))
    && (forall k :: dot < k < |s| ==> TailChar(s[k]))
  }

  /** The language of the e-mail regular expression: some way of splitting s. */
  ghost predicate EmailPattern(s: string)
  {
    exists at, dot :: EmailSplit(s, at, dot)
  }

  /** The validator as a scan: the part before the first `@` is the local part,
      and the first `.` after it ends the label. */
  predicate ValidateEmail(value: string)
  {
    var at := Find(value, '@');
    at < |value| && EmailSplit(value, at, at + 1 + Find(value[at + 1..], '.'))
  }

  /** The scan accepts exactly the strings the regular expression matches. No
      character class holds `@`, and the label class lacks `.`, so the split
      points of any match are the first `@` and the first `.` after it. */
  lemma ValidateEmailMatchesPattern(s: string)
    ensures ValidateEmail(s) <==> EmailPattern(s)
  {
    if EmailPattern(s) {
      var at, dot :| EmailSplit(s, at, dot);
      var a := Find(s, '@');
      assert !LocalChar('@');
      assert a == at;
      var rest := s[at + 1..];
      var f := Find(rest, '.');
      assert rest[dot - at - 1] == '.';
      assert f == dot - at - 1;
    }
  }

  /** A label needs something after its dot: "a@b." is rejected, "a@b.." is accepted. */
  lemma ValidateEmailDotExamples()
    ensures ValidateEmail("a@b..")
    ensures !ValidateEmail("a@b.")
  {
    assert Find("a@b..", '@') == 1 && Find("b..", '.') == 1;
    assert Find("a@b.", '@') == 1 && Find("b.", '.') == 1;
  }

  lemma ValidateEmailAtExamples()
    ensures !ValidateEmail("a@b@c.d")
    ensures !ValidateEmail("@b.c")
  {
    assert Find("a@b@c.d", '@') == 1 && Find("b@c.d", '.') == 3;
    assert Find("@b.c", '@') == 0;
  }

  /** "a@b.c", a shortest accepted address. */
  lemma ValidateEmailSample()
    ensures ValidateEmail("a@b.c")
  {
    assert Find("a@b.c", '@') == 1 && Find("b.c", '.') == 1;
  }

  lemma ValidatePhoneExamples()
    ensures ValidatePhone("123456789")
    ensures !ValidatePhone("12345678")
    ensures !ValidatePhone("1234567890")
    ensures !ValidatePhone("12345678a")
  {
    assert !IsDigit("12345678a"[8]);
  }
}
