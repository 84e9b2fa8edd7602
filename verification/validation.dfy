/** The contact form's per-field check (`validateField` and `isValidEmail`):
    a verdict and at most one error message for one field, plus what the
    field's error element then displays. */
module Validation {
  import opened Wrappers
  import opened Text

  /** The outcome of validating one field: `isValid` and `errorMessage`. */
  datatype Verdict = Verdict(valid: bool, error: string)

  const EmailMessage := "Please enter a valid email address"
  const LengthMessage := "Message must be at least 10 characters long"
  const MinMessageLength := 10

  /** The message for an empty field, built from the field's `name` attribute. */
  function RequiredMessage(fieldName: string): string {
    Capitalise(fieldName) + " is required"
  }

  /** One character of the pattern's class `[^\s@]`. */
  predicate InClass(c: char) {
    c != '@' && !IsWhitespace(c)
  }

  /** One run `[^\s@]+`. */
  predicate ClassRun(t: string) {
    |t| > 0 && forall i :: 0 <= i < |t| ==> InClass(t[i])
  }

  /** What it means for the whole string to match `^[^\s@]+@[^\s@]+\.[^\s@]+$`:
      three non-empty runs of the class, the first two separated by `@` and
      the last two by `.`. This is the reference the hand-written check is
      proved against. */
  ghost predicate MatchesEmailPattern(s: string)
    // the shortest match is `x@y.z`, and the pattern's anchors admit neither
    // white space nor `@` at either end
    ensures MatchesEmailPattern(s) ==> 5 <= |s| && InClass(s[0]) && InClass(s[|s| - 1])
  {
    exists at, dot | 0 <= at < dot < |s| ::
      && s[at] == '@' && s[dot] == '.'
      && ClassRun(s[..at]) && ClassRun(s[at + 1..dot]) && ClassRun(s[dot + 1..])
  }

  /** A `.` with at least one character on either side of it. */
  predicate HasInnerDot(d: string) {
    exists k :: 0 < k < |d| - 1 && d[k] == '.'
  }

  /** The email check as a plain string test: exactly one `@`, no white space,
      something before the `@`, and a domain with an inner `.`. */
  predicate IsValidEmail(s: string)
    ensures IsValidEmail(s) ==> 5 <= |s| && '@' in s && Trimmed(s)
  {
    var at := IndexOf(s, '@');
    && Count(s, '@') == 1
    && NoWhitespace(s)
    && 0 < at < |s|
    && HasInnerDot(s[at + 1..])
  }

  /** A slice all of whose characters are in the class is a run. */
  lemma SliceIsRun(s: string, lo: nat, hi: nat)
    requires lo < hi <= |s|
    requires forall i :: lo <= i < hi ==> InClass(s[i])
    ensures ClassRun(s[lo..hi])
  {
    forall i | 0 <= i < hi - lo ensures InClass(s[lo..hi][i]) {
      assert s[lo..hi][i] == s[lo + i];
    }
  }

  lemma ValidEmailMatchesPattern(s: string)
    requires IsValidEmail(s)
    ensures MatchesEmailPattern(s)
  {
    var at := IndexOf(s, '@');
    var d := s[at + 1..];
    var k :| 0 < k < |d| - 1 && d[k] == '.';
    var dot := at + 1 + k;
    CountOnce(s, '@', at);
    assert s[dot] == d[k];
    SliceIsRun(s, 0, at);
    SliceIsRun(s, at + 1, dot);
    SliceIsRun(s, dot + 1, |s|);
    assert s[..at] == s[0..at] && s[dot + 1..] == s[dot + 1..|s|];
  }

  /** No character of a run is an `@`. */
  lemma RunHasNoAt(t: string)
    requires ClassRun(t)
    ensures '@' !in t
  {
    forall i | 0 <= i < |t| ensures t[i] != '@' { assert InClass(t[i]); }
  }

  /** The characters of a match are all in the class, except the `@` and the `.`. */
  lemma PatternCharacters(s: string, at: nat, dot: nat)
    requires 0 <= at < dot < |s|
    requires ClassRun(s[..at]) && ClassRun(s[at + 1..dot]) && ClassRun(s[dot + 1..])
    ensures forall i :: 0 <= i < |s| && i != at && i != dot ==> InClass(s[i])
  {
    forall i | 0 <= i < |s| && i != at && i != dot ensures InClass(s[i]) {
      if i < at { assert s[i] == s[..at][i]; }
      else if i < dot { assert s[i] == s[at + 1..dot][i - at - 1]; }
      else { assert s[i] == s[dot + 1..][i - dot - 1]; }
    }
  }

  /** An address assembled from a local part and a domain, neither holding
      an `@`, passes the check when the parts are as the check wants them. */
  lemma AssembledIsValidEmail(s: string, local: string, domain: string)
    requires s == local + ['@'] + domain
    requires '@' !in local && '@' !in domain
    requires local != [] && HasInnerDot(domain)
    requires NoWhitespace(s)
    ensures IsValidEmail(s)
  {
    CountSingle(local, '@', domain);
    IndexOfAfter(local, '@', domain);
    assert s[|local| + 1..] == domain;
  }

  /** Outside its `@`, a match holds no `@` and no white space at all. */
  lemma PatternSeparators(s: string, at: nat, dot: nat)
    requires 0 <= at < dot < |s| && s[at] == '@' && s[dot] == '.'
    requires forall i :: 0 <= i < |s| && i != at && i != dot ==> InClass(s[i])
    ensures '@' !in s[..at] && '@' !in s[at + 1..]
    ensures NoWhitespace(s)
  {
    var local, domain := s[..at], s[at + 1..];
    forall i | 0 <= i < |local| ensures local[i] != '@' { assert local[i] == s[i]; }
    forall i | 0 <= i < |domain| ensures domain[i] != '@' { assert domain[i] == s[at + 1 + i]; }
    forall i | 0 <= i < |s| ensures !IsWhitespace(s[i]) {
      if i != at && i != dot { assert InClass(s[i]); }
    }
  }

  lemma PatternMatchIsValidEmail(s: string)
    requires MatchesEmailPattern(s)
    ensures IsValidEmail(s)
  {
    var at, dot :| 0 <= at < dot < |s|
      && s[at] == '@' && s[dot] == '.'
      && ClassRun(s[..at]) && ClassRun(s[at + 1..dot]) && ClassRun(s[dot + 1..]);
    WitnessIsValidEmail(s, at, dot);
  }

  /** A match with its `@` at `at` and its `.` at `dot` passes the
      hand-written check. */
  lemma WitnessIsValidEmail(s: string, at: nat, dot: nat)
    requires at < dot < |s| && s[at] == '@' && s[dot] == '.'
    requires ClassRun(s[..at]) && ClassRun(s[at + 1..dot]) && ClassRun(s[dot + 1..])
    ensures IsValidEmail(s)
  {
    PatternCharacters(s, at, dot);
    PatternSeparators(s, at, dot);
    var local, domain := s[..at], s[at + 1..];
    assert s == local + [s[at]] + domain;
    assert domain[dot - at - 1] == '.';
    AssembledIsValidEmail(s, local, domain);
  }

  /** The hand-written check accepts exactly the strings the pattern matches. */
  lemma EmailCheckMatchesPattern(s: string)
    ensures IsValidEmail(s) <==> MatchesEmailPattern(s)
  {
    if IsValidEmail(s) { ValidEmailMatchesPattern(s); }
    if MatchesEmailPattern(s) { PatternMatchIsValidEmail(s); }
  }

  /** `validateField` on a field named `fieldName` holding `raw`. The rules
      apply, in this order, to the trimmed value: it must not be empty; an
      `email` field must match the email pattern; a `message` field must be
      at least ten UTF-16 code units long. */
  function Validate(fieldName: string, raw: string): (r: Verdict)
    // the verdict's two halves agree: valid exactly when there is no message
    ensures r.valid <==> r.error == []
  {
    var value := Trim(raw);
    if value == [] then Verdict(false, RequiredMessage(fieldName))
    else if fieldName == "email" && !IsValidEmail(value) then Verdict(false, EmailMessage)
    else if fieldName == "message" && Utf16Length(value) < MinMessageLength then Verdict(false, LengthMessage)
    else Verdict(true, [])
  }

  /** The rules `Validate` applies, stated field by field and against the
      email pattern itself. */
  lemma ValidateRules(fieldName: string, raw: string)
    ensures var r := Validate(fieldName, raw);
      // emptiness is checked first, whatever the field
      && (Trim(raw) == [] ==> r == Verdict(false, RequiredMessage(fieldName)))
      // the rule for each kind of field, as a whole
      && (fieldName == "email" ==> (r.valid <==> Trim(raw) != [] && MatchesEmailPattern(Trim(raw))))
      && (fieldName == "message" ==> (r.valid <==> Utf16Length(Trim(raw)) >= MinMessageLength))
      && (fieldName != "email" && fieldName != "message" ==> (r.valid <==> Trim(raw) != []))
      // a non-empty value that fails is blamed on its field's own rule
      && (Trim(raw) != [] && !r.valid ==>
            r.error == (if fieldName == "email" then EmailMessage else LengthMessage))
  {
    EmailCheckMatchesPattern(Trim(raw));
  }

  /** What a field must hold to pass, stated without the order of the
      checks: a non-empty trimmed value, which for `email` matches the email
      pattern and for `message` is at least ten UTF-16 code units long. */
  ghost predicate Satisfies(fieldName: string, raw: string) {
    && Trim(raw) != []
    && (fieldName == "email" ==> MatchesEmailPattern(Trim(raw)))
    && (fieldName == "message" ==> Utf16Length(Trim(raw)) >= MinMessageLength)
  }

  /** A field other than `email` and `message` need only be non-blank. */
  lemma PlainRule(fieldName: string, raw: string)
    requires fieldName != "email" && fieldName != "message"
    ensures Satisfies(fieldName, raw) <==> Trim(raw) != []
  {
  }

  /** A verdict passes exactly when the field satisfies its rule. */
  lemma ValidIffSatisfies(fieldName: string, raw: string)
    ensures Validate(fieldName, raw).valid <==> Satisfies(fieldName, raw)
  {
    EmailCheckMatchesPattern(Trim(raw));
  }

  /** The message for a field name starting with a lower-case letter: that
      letter in upper case, the rest of the name as written, then
      ` is required`. */
  lemma RequiredMessageOf(c: char, rest: string)
    requires 'a' <= c <= 'z'
    ensures RequiredMessage([c] + rest) == [(c as int - 32) as char] + rest + " is required"
  {
    assert ([c] + rest)[1..] == rest;
  }

  /** Padding with white space never changes a verdict. */
  lemma ValidateIgnoresPadding(fieldName: string, front: string, raw: string, back: string)
    requires AllWhitespace(front) && AllWhitespace(back)
    ensures Validate(fieldName, front + raw + back) == Validate(fieldName, raw)
  {
    TrimIgnoresPadding(front, raw, back);
  }

  /** The error element next to a field: its text, whether it is shown
      (class `show`), and whether the field's border is painted in the error
      colour. */
  datatype ErrorDisplay = ErrorDisplay(text: string, shown: bool, flagged: bool)

  /** The display half of `validateField`; a field without an error element
      shows nothing. */
  function ShowVerdict(display: Option<ErrorDisplay>, v: Verdict): (r: Option<ErrorDisplay>)
    ensures r.None? <==> display.None?
    ensures r.Some? ==> r.value.text == (if v.valid then [] else v.error)
    ensures r.Some? ==> (r.value.shown <==> !v.valid) && (r.value.flagged <==> !v.valid)
  {
    match display
    case None => None
    case Some(_) =>
      if v.valid then Some(ErrorDisplay([], false, false))
      else Some(ErrorDisplay(v.error, true, true))
  }

  /** `clearFieldError`, run on every keystroke: once the field holds
      something other than white space, the error is hidden and the border
      reset, but its text is left in place. */
  function ClearFieldError(display: Option<ErrorDisplay>, raw: string): (r: Option<ErrorDisplay>)
    ensures r.None? <==> display.None?
    ensures r.Some? ==> r.value.text == display.value.text
    ensures Trim(raw) == [] ==> r == display
    ensures Trim(raw) != [] && r.Some? ==> !r.value.shown && !r.value.flagged
  {
    match display
    case None => None
    case Some(d) => if Trim(raw) != [] then Some(d.(shown := false, flagged := false)) else display
  }

  /** After a field is checked, its error element shows text exactly when the
      field is invalid, and the text is one of the three messages. */
  lemma DisplayedErrorMatchesVerdict(display: ErrorDisplay, fieldName: string, raw: string)
    ensures var v := Validate(fieldName, raw);
      var r := ShowVerdict(Some(display), v).value;
      && (r.shown <==> r.text != [])
      && (r.shown <==> !v.valid)
      && (r.shown ==> r.text in {RequiredMessage(fieldName), EmailMessage, LengthMessage})
  {
    ValidateRules(fieldName, raw);
  }

  /** The required message of the `name` field, spelled out. */
  lemma NameRequiredMessage()
    ensures RequiredMessage("name") == "Name is required"
  {
    calc {
      RequiredMessage("name");
      { assert "name" == ['n'] + "ame"; }
      RequiredMessage(['n'] + "ame");
      { RequiredMessageOf('n', "ame"); }
      [(('n' as int) - 32) as char] + "ame" + " is required";
      "Name is required";
    }
  }

  /** A name of blanks only is refused as required. */
  lemma BlankNameIsRequired()
    ensures Validate("name", "   ") == Verdict(false, "Name is required")
  {
    assert AllWhitespace("   ");
    ValidateRules("name", "   ");
    NameRequiredMessage();
  }

  /** "not-an-email" has no `@` and is refused. */
  lemma NotAnEmailIsRefused()
    ensures Validate("email", "not-an-email") == Verdict(false, EmailMessage)
  {
    var bad := "not-an-email";
    assert !IsWhitespace(bad[0]) && !IsWhitespace(bad[|bad| - 1]);
    TrimKeepsTrimmed(bad);
    assert '@' !in bad;
  }

  /** A nine-letter message is too short. */
  lemma NineLetterMessageIsRefused()
    ensures Validate("message", "too short") == Verdict(false, LengthMessage)
  {
    var short := "too short";
    assert !IsWhitespace(short[0]) && !IsWhitespace(short[|short| - 1]);
    TrimKeepsTrimmed(short);
    assert |short| == 9;
  }

  lemma ShortAddressMatches()
    ensures MatchesEmailPattern("a@b.co")
  {
    var good := "a@b.co";
    assert good[1] == '@' && good[3] == '.';
    SliceIsRun(good, 0, 1);
    SliceIsRun(good, 2, 3);
    SliceIsRun(good, 4, 6);
    assert good[..1] == good[0..1] && good[4..] == good[4..6];
  }

  lemma PaddedAddressTrims()
    ensures Trim(" a@b.co ") == "a@b.co"
  {
    var good := "a@b.co";
    assert " " + good + " " == " a@b.co ";
    assert AllWhitespace(" ");
    assert Trimmed(good);
    TrimRecoversCore(" ", good, " ");
  }

  /** A well-formed address is accepted even with spaces around it. */
  lemma PaddedAddressIsAccepted()
    ensures Validate("email", " a@b.co ").valid
  {
    PaddedAddressTrims();
    ShortAddressMatches();
    EmailCheckMatchesPattern("a@b.co");
  }
}
