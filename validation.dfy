/** The per-field rules of the creation form: the three patterns, the
    required keys, `isValid`, `allValid` and `errorShown`. */
module Validation {
  import opened Text
  import opened Providers

  /** One character of `[a-zA-Z\s'-]`. */
  predicate IsNameChar(c: char) {
    ('a' <= c <= 'z') || ('A' <= c <= 'Z') || IsSpace(c) || c == '\'' || c == '-'
  }

  /** `/^[a-zA-Z\s'-]{2,}$/`, used for both names and the specialty. */
  predicate NamePattern(s: string) {
    |s| >= 2 && forall c | c in s :: IsNameChar(c)
  }

  /** One character of `[^\s@]`. */
  predicate IsRunChar(c: char) {
    !IsSpace(c) && c != '@'
  }

  /** `[^\s@]+` */
  predicate Run(s: string) {
    |s| > 0 && forall c | c in s :: IsRunChar(c)
  }

  /** `s` splits as run, `@` at `at`, run, `.` at `dot`, run. */
  predicate EmailSplit(s: string, at: int, dot: int) {
    0 <= at < dot < |s| && s[at] == '@' && s[dot] == '.'
    && Run(s[..at]) && Run(s[at + 1..dot]) && Run(s[dot + 1..])
  }

  /** `/^[^\s@]+@[^\s@]+\.[^\s@]+$/`: the `.` may be any dot after the `@`
      that leaves a non-empty run on either side. */
  predicate EmailPattern(s: string) {
    exists at, dot | 0 <= at < dot < |s| :: EmailSplit(s, at, dot)
  }

  /** `/^.{2,}$/`: at least two characters, none a line terminator. */
  predicate PracticePattern(s: string) {
    |s| >= 2 && forall c | c in s :: !IsLineTerminator(c)
  }

  /** The `regexes` table. */
  predicate Pattern(k: Field, v: string) {
    match k
    case LastName => NamePattern(v)
    case FirstName => NamePattern(v)
    case EmailAddress => EmailPattern(v)
    case Specialty => NamePattern(v)
    case PracticeName => PracticePattern(v)
  }

  /** `REQUIRED_FIELDS` */
  predicate IsRequired(k: Field) {
    k in [FirstName, LastName, EmailAddress]
  }

  /** `isValid(key)`: a blank required field is invalid, a blank optional
      field is valid, anything else must match the field's pattern as
      typed (untrimmed). */
  function FieldValid(k: Field, v: string): (r: bool)
    ensures IsRequired(k) ==> (r <==> !AllSpace(v) && Pattern(k, v))
    ensures !IsRequired(k) ==> (r <==> AllSpace(v) || Pattern(k, v))
  {
    TrimEmptyIff(v);
    if IsRequired(k) && Trim(v) == "" then false
    else if !IsRequired(k) && Trim(v) == "" then true
    else Pattern(k, v)
  }

  /** `allValid`: every key of the record passes `isValid`. */
  function AllValid(f: Provider): (r: bool)
    ensures r <==> forall k :: FieldValid(k, f.Get(k))
  {
    if forall i :: 0 <= i < |AllFields| ==> FieldValid(AllFields[i], f.Get(AllFields[i])) then
      assert forall k :: FieldValid(k, f.Get(k)) by {
        forall k ensures FieldValid(k, f.Get(k)) {
          AllFieldsComplete(k);
          var i :| 0 <= i < |AllFields| && AllFields[i] == k;
        }
      }
      true
    else
      false
  }

  /** `errorShown(key)`: the form passes `k`'s message text to the widget. */
  function ErrorShown(k: Field, fields: Provider, touched: ByField<bool>): (r: bool)
    ensures r ==> touched.Get(k)
    ensures touched.Get(k) ==> (r <==> !FieldValid(k, fields.Get(k)))
  {
    !FieldValid(k, fields.Get(k)) && touched.Get(k)
  }

  /** A required field left blank keeps the whole form from submitting. */
  lemma RequiredBlankBlocksSubmit(f: Provider, k: Field)
    requires IsRequired(k) && AllSpace(f.Get(k))
    ensures !AllValid(f)
  {
    assert !FieldValid(k, f.Get(k));
  }

  /** A valid e-mail address holds exactly one `@` and no white space. */
  lemma EmailShape(s: string)
    requires EmailPattern(s)
    ensures '@' in s && multiset(s)['@'] == 1
    ensures forall c | c in s :: !IsSpace(c)
  {
    var at, dot :| 0 <= at < dot < |s| && EmailSplit(s, at, dot);
    var a, b, c := s[..at], s[at + 1..dot], s[dot + 1..];
    SplitTwice(s, at, dot);
    RunShape(a);
    RunShape(b);
    RunShape(c);
  }

  /** A run holds neither `@` nor white space. */
  lemma RunShape(s: string)
    requires Run(s)
    ensures multiset(s)['@'] == 0
    ensures forall c | c in s :: !IsSpace(c)
  {
    assert '@' !in s;
  }

  lemma SplitTwice(s: string, i: int, j: int)
    requires 0 <= i < j < |s|
    ensures s == s[..i] + [s[i]] + s[i + 1..j] + [s[j]] + s[j + 1..]
    ensures multiset(s) == multiset(s[..i]) + multiset{s[i]} + multiset(s[i + 1..j]) + multiset{s[j]} + multiset(s[j + 1..])
  {
    assert s == s[..i] + [s[i]] + s[i + 1..j] + [s[j]] + s[j + 1..];
  }

  /** Test evidence: a one-letter first name is rejected. */
  lemma ShortFirstNameRejected()
    ensures !FieldValid(FirstName, "J")
  {
  }

  /** Test evidence: a last name with `@` and a digit is rejected. */
  lemma SymbolLastNameRejected()
    ensures !FieldValid(LastName, "@-1Smith")
  {
    assert !IsNameChar("@-1Smith"[0]);
  }

  /** An address without `@` never matches, whatever else it holds. */
  lemma AddressNeedsAt(s: string)
    requires '@' !in s
    ensures !FieldValid(EmailAddress, s)
  {
    if EmailPattern(s) {
      EmailShape(s);
    }
  }

  /** Test evidence: an address without `@` is rejected. */
  lemma AddressWithoutAtRejected()
    ensures !FieldValid(EmailAddress, "not-an-email")
  {
    AddressNeedsAt("not-an-email");
  }

  /** Three runs joined by `@` and `.` form an address. */
  lemma EmailFromRuns(a: string, b: string, c: string)
    requires Run(a) && Run(b) && Run(c)
    ensures EmailPattern(a + "@" + b + "." + c)
  {
    var s := a + "@" + b + "." + c;
    assert s[..|a|] == a;
    assert s[|a| + 1..|a| + 1 + |b|] == b;
    assert s[|a| + 1 + |b| + 1..] == c;
    assert EmailSplit(s, |a|, |a| + 1 + |b|);
  }

  lemma SampleRuns()
    ensures Run("john") && Run("smith") && Run("com")
  {
  }

  /** The sample address splits as `john`, `@`, `smith`, `.`, `com`. */
  lemma SampleAddressMatches()
    ensures EmailPattern("john@smith.com")
  {
    SampleRuns();
    EmailFromRuns("john", "smith", "com");
    assert "john" + "@" + "smith" + "." + "com" == "john@smith.com";
  }

  /** A value that is not blank and matches its pattern is valid, whether
      or not the field is required. */
  lemma MatchingValueValid(k: Field, v: string)
    requires !AllSpace(v) && Pattern(k, v)
    ensures FieldValid(k, v)
  {
  }

  /** Any practice name of two or more characters with no white space is
      valid: no such character is a line terminator. */
  lemma SpaceFreePracticeName(v: string)
    requires |v| >= 2 && forall i :: 0 <= i < |v| ==> !IsSpace(v[i])
    ensures FieldValid(PracticeName, v)
  {
    forall c | c in v ensures !IsLineTerminator(c) {
      if IsLineTerminator(c) {
        LineTerminatorIsSpace(c);
      }
    }
    assert !IsSpace(v[0]);
  }

  /** The record that the form's tests fill in. */
  const SampleProvider: Provider := ByField("Smith", "John", "john@smith.com", "Cardiology", "Smith Clinic")

  lemma SampleFieldValid(k: Field)
    ensures FieldValid(k, SampleProvider.Get(k))
  {
    match k
    case LastName =>
      assert !IsSpace("Smith"[0]);
      MatchingValueValid(LastName, "Smith");
    case FirstName =>
      assert !IsSpace("John"[0]);
      MatchingValueValid(FirstName, "John");
    case EmailAddress =>
      assert !IsSpace("john@smith.com"[0]);
      SampleAddressMatches();
      MatchingValueValid(EmailAddress, "john@smith.com");
    case Specialty =>
      assert !IsSpace("Cardiology"[0]);
      MatchingValueValid(Specialty, "Cardiology");
    case PracticeName =>
      assert !IsSpace("Smith Clinic"[0]);
      MatchingValueValid(PracticeName, "Smith Clinic");
  }

  /** Test evidence: the sample provider passes every rule, so the form
      enables its submit button. */
  lemma SampleProviderAccepted()
    ensures AllValid(SampleProvider)
  {
    forall k ensures FieldValid(k, SampleProvider.Get(k)) {
      SampleFieldValid(k);
    }
  }
}
