/** The contact form's validator: `validateField`, `showFieldError` and
    `validateForm`, with the email pattern written out as a string predicate. */
module FormValidation {
  import opened Wrappers
  import opened Text

  const RequiredMessage := "This field is required"
  const EmailMessage := "Please enter a valid email address"

  // ----- the email pattern `^[^\s@]+@[^\s@]+\.[^\s@]+$` -----

  /** A character of the class `[^\s@]`. */
  predicate IsPlain(c: char) { !IsWhitespace(c) && c != '@' }

  predicate AllPlain(s: string) {
    forall k :: 0 <= k < |s| ==> IsPlain(s[k])
  }

  /** The pattern read literally: `s` splits into a non-empty plain run, `@`,
      a non-empty plain run, `.` and a non-empty plain run. */
  ghost predicate MatchesEmailPattern(s: string) {
    exists i, j :: 0 < i && i + 1 < j < |s| - 1 && s[i] == '@' && s[j] == '.'
      && AllPlain(s[..i]) && AllPlain(s[i + 1..j]) && AllPlain(s[j + 1..])
  }

  /** A `.` that is neither the first nor the last character of `domain`. */
  predicate HasInnerDot(domain: string) {
    exists j :: 0 < j < |domain| - 1 && domain[j] == '.'
  }

  /** The email test: an `@` at `i` leaves a non-empty plain local part before
      it and a plain domain after it that has an inner dot. */
  predicate IsEmail(s: string) {
    exists i :: 0 < i < |s| && s[i] == '@'
      && AllPlain(s[..i]) && AllPlain(s[i + 1..]) && HasInnerDot(s[i + 1..])
  }

  lemma AllPlainSlice(s: string, lo: int, hi: int)
    requires AllPlain(s) && 0 <= lo <= hi <= |s|
    ensures AllPlain(s[lo..hi])
  {
    forall k | 0 <= k < hi - lo ensures IsPlain(s[lo..hi][k]) {
      assert s[lo..hi][k] == s[lo + k];
    }
  }

  lemma AllPlainJoin(a: string, c: char, b: string)
    requires AllPlain(a) && IsPlain(c) && AllPlain(b)
    ensures AllPlain(a + [c] + b)
  {
    var s := a + [c] + b;
    forall k | 0 <= k < |s| ensures IsPlain(s[k]) {
      if k < |a| {
        assert s[k] == a[k];
      } else if k > |a| {
        assert s[k] == b[k - |a| - 1];
      }
    }
  }

  /** An email split at `i` and a dot at `i + 1 + j` is a match of the pattern. */
  lemma EmailToPattern(s: string, i: int, j: int)
    requires 0 < i < |s| && s[i] == '@' && AllPlain(s[..i]) && AllPlain(s[i + 1..])
    requires 0 < j < |s| - i - 2 && s[i + 1 + j] == '.'
    ensures MatchesEmailPattern(s)
  {
    var d := s[i + 1..];
    AllPlainSlice(d, 0, j);
    AllPlainSlice(d, j + 1, |d|);
    assert s[i + 1..i + 1 + j] == d[0..j];
    assert s[i + 1 + j + 1..] == d[j + 1..|d|];
  }

  /** A match of the pattern with `@` at `i` and `.` at `j` passes the test. */
  lemma PatternToEmail(s: string, i: int, j: int)
    requires 0 < i && i + 1 < j < |s| - 1 && s[i] == '@' && s[j] == '.'
    requires AllPlain(s[..i]) && AllPlain(s[i + 1..j]) && AllPlain(s[j + 1..])
    ensures IsEmail(s)
  {
    var d := s[i + 1..];
    assert d == s[i + 1..j] + [s[j]] + s[j + 1..];
    AllPlainJoin(s[i + 1..j], s[j], s[j + 1..]);
    assert d[j - (i + 1)] == '.';
  }

  /** The hand-written test accepts exactly the strings the pattern matches. */
  lemma EmailTestIsPattern(s: string)
    ensures IsEmail(s) <==> MatchesEmailPattern(s)
  {
    if IsEmail(s) {
      var i :| 0 < i < |s| && s[i] == '@' && AllPlain(s[..i]) && AllPlain(s[i + 1..]) && HasInnerDot(s[i + 1..]);
      var j :| 0 < j < |s[i + 1..]| - 1 && s[i + 1..][j] == '.';
      EmailToPattern(s, i, j);
    }
    if MatchesEmailPattern(s) {
      var i, j :| 0 < i && i + 1 < j < |s| - 1 && s[i] == '@' && s[j] == '.'
        && AllPlain(s[..i]) && AllPlain(s[i + 1..j]) && AllPlain(s[j + 1..]);
      PatternToEmail(s, i, j);
    }
  }

  predicate NoWhitespace(s: string) {
    forall k :: 0 <= k < |s| ==> !IsWhitespace(s[k])
  }

  /** The email test in words: no whitespace anywhere, exactly one `@`, a
      non-empty part before it, and a `.` inside the part after it. */
  lemma EmailTestInWords(s: string)
    ensures IsEmail(s) <==>
      && NoWhitespace(s)
      && multiset(s)['@'] == 1
      && exists i :: 0 < i < |s| && s[i] == '@' && HasInnerDot(s[i + 1..])
  {
    if IsEmail(s) {
      var i :| 0 < i < |s| && s[i] == '@' && AllPlain(s[..i]) && AllPlain(s[i + 1..]) && HasInnerDot(s[i + 1..]);
      EmailSplit(s, i);
    }
    if NoWhitespace(s) && multiset(s)['@'] == 1 && exists i :: 0 < i < |s| && s[i] == '@' && HasInnerDot(s[i + 1..]) {
      var i :| 0 < i < |s| && s[i] == '@' && HasInnerDot(s[i + 1..]);
      EmailSplit(s, i);
    }
  }

  /** Around an `@` at `i`, the two sides are plain exactly when the whole
      string has no whitespace and no other `@`. */
  lemma EmailSplit(s: string, i: int)
    requires 0 <= i < |s| && s[i] == '@'
    ensures AllPlain(s[..i]) && AllPlain(s[i + 1..]) <==> NoWhitespace(s) && multiset(s)['@'] == 1
  {
    var a, b := s[..i], s[i + 1..];
    assert s == a + [s[i]] + b;
    assert multiset(s) == multiset(a) + multiset{'@'} + multiset(b);
    if AllPlain(a) && AllPlain(b) {
      assert '@' !in a && '@' !in b;
      forall k | 0 <= k < |s| ensures !IsWhitespace(s[k]) {
        if k < i {
          assert s[k] == a[k];
        } else if k > i {
          assert s[k] == b[k - i - 1];
        }
      }
    }
    if NoWhitespace(s) && multiset(s)['@'] == 1 {
      assert multiset(a)['@'] == 0 && multiset(b)['@'] == 0;
      forall k | 0 <= k < |a| ensures IsPlain(a[k]) {
        assert a[k] == s[k];
        assert a[k] in multiset(a);
      }
      forall k | 0 <= k < |b| ensures IsPlain(b[k]) {
        assert b[k] == s[i + 1 + k];
        assert b[k] in multiset(b);
      }
    }
  }

  /** The two addresses of the validator's own examples. */
  lemma EmailExamples()
    ensures IsEmail("a@b.co")
    ensures !IsEmail("not-an-email")
  {
    var d := "a@b.co"[2..];
    assert d[1] == '.';
    assert "a@b.co"[..1] == "a";
    var t := "not-an-email";
    assert forall i :: 0 <= i < |t| ==> t[i] != '@';
  }

  // ----- one field -----

  /** The message `validateField` leaves on a field with this value, type
      attribute and required flag, or `None` when the field passes. */
  function FieldError(value: string, inputType: string, required: bool): (e: Option<string>)
    ensures required && AllWhitespace(value) ==> e == Some(RequiredMessage)
    ensures !required && AllWhitespace(value) ==> e == None
    ensures !AllWhitespace(value) ==>
      e == if inputType == "email" && !IsEmail(Trim(value)) then Some(EmailMessage) else None
  {
    var v := Trim(value);
    if required && v == [] then Some(RequiredMessage)
    else if inputType == "email" && v != [] && !IsEmail(v) then Some(EmailMessage)
    else None
  }

  /** The validator's examples on a required `email` field: `not-an-email`
      gets the email message, `a@b.co` passes, and a blank value gets the
      required message. */
  lemma FieldExamples()
    ensures FieldError("not-an-email", "email", true) == Some(EmailMessage)
    ensures FieldError("a@b.co", "email", true) == None
    ensures FieldError(" ", "email", true) == Some(RequiredMessage)
  {
    EmailExamples();
    TrimKeeps("not-an-email");
    TrimKeeps("a@b.co");
    assert AllWhitespace(" ");
  }

  /** The feedback elements an error leaves after the field: none or one. */
  function Notes(e: Option<string>): (notes: seq<string>)
    ensures |notes| <= 1 && (notes == [] <==> e == None)
    ensures forall m :: e == Some(m) ==> notes == [m]
  {
    match e
    case None => []
    case Some(m) => [m]
  }

  /** A form control. `feedback` lists the `.invalid-feedback` elements that
      directly follow it, nearest first; `isInvalid` is its `is-invalid` class. */
  class Field {
    const value: string
    const inputType: string
    const required: bool
    var isInvalid: bool
    var feedback: seq<string>

    /** What the handlers keep: at most one feedback element, present exactly
        when the field is marked invalid. */
    ghost predicate Valid()
      reads this
    {
      |feedback| <= 1 && (isInvalid <==> |feedback| == 1)
    }

    /** The error the field's own attributes call for. */
    function Error(): Option<string> {
      FieldError(value, inputType, required)
    }

    predicate Passes() {
      Error() == None
    }

    /** The decoration the last validation left: the class and the one message. */
    ghost predicate Decorated()
      reads this
    {
      isInvalid == !Passes() && feedback == Notes(Error())
    }

    constructor (value: string, inputType: string, required: bool)
      ensures this.value == value && this.inputType == inputType && this.required == required
      ensures !isInvalid && feedback == [] && Valid()
    {
      this.value, this.inputType, this.required := value, inputType, required;
      isInvalid, feedback := false, [];
    }

    /** `showFieldError`: mark the field invalid and insert the message right after it. */
    method ShowError(message: string)
      modifies this`isInvalid, this`feedback
      ensures isInvalid && feedback == [message] + old(feedback)
    {
      isInvalid := true;
      feedback := [message] + feedback;
    }

    /** `validateField`: drop the old decoration (the class and the one
        feedback element right after the field), then apply the required
        check and the email check, each attaching its message on failure. */
    method Validate() returns (ok: bool)
      modifies this`isInvalid, this`feedback
      ensures ok <==> Passes()
      ensures isInvalid == !ok
      ensures feedback == Notes(Error())
        + (if old(feedback) == [] then [] else old(feedback)[1..])
      ensures old(Valid()) ==> Valid() && Decorated()
    {
      var v := Trim(value);
      ok := true;
      isInvalid := false;
      if feedback != [] {
        feedback := feedback[1..];
      }
      ghost var rest := feedback;
      if required && v == [] {
        ok := false;
        ShowError(RequiredMessage);
      }
      if inputType == "email" && v != [] {
        if !IsEmail(v) {
          ok := false;
          ShowError(EmailMessage);
        }
      }
      assert feedback == Notes(Error()) + rest;
    }
  }

  /** Validating a field whose decoration is consistent a second time leaves
      it exactly as the first validation did. */
  method ValidateTwice(f: Field) returns (first: bool, second: bool)
    requires f.Valid()
    modifies f
    ensures first == second && f.Valid() && f.Decorated()
  {
    first := f.Validate();
    ghost var invalidOnce, feedbackOnce := f.isInvalid, f.feedback;
    second := f.Validate();
    assert f.isInvalid == invalidOnce && f.feedback == feedbackOnce;
  }

  // ----- the whole form -----

  /** `validateForm`: validate every required control in document order, with
      no short-circuit, and report whether all of them passed. Controls that
      are not required are never looked at. */
  method ValidateForm(controls: seq<Field>) returns (ok: bool)
    requires forall f :: f in controls ==> f.Valid()
    modifies controls
    ensures ok <==> forall f :: f in controls && f.required ==> f.Passes()
    ensures forall f :: f in controls ==> f.Valid()
    ensures forall f :: f in controls && f.required ==> f.Decorated()
    ensures forall f :: f in controls && !f.required ==>
      f.isInvalid == old(f.isInvalid) && f.feedback == old(f.feedback)
  {
    ok := true;
    for i := 0 to |controls|
      invariant forall f :: f in controls ==> f.Valid()
      invariant ok <==> forall f :: f in controls[..i] && f.required ==> f.Passes()
      invariant forall f :: f in controls[..i] && f.required ==> f.Decorated()
      invariant forall f :: f in controls && !f.required ==>
        f.isInvalid == old(f.isInvalid) && f.feedback == old(f.feedback)
    {
      var field := controls[i];
      assert controls[..i + 1] == controls[..i] + [field];
      if field.required {
        var valid := field.Validate();
        if !valid {
          ok := false;
        }
      }
    }
    assert controls[..|controls|] == controls;
  }

  /** The submit button of the contact form: `disabled` and showing the
      "Sending..." label while the simulated submission runs. */
  class SubmitButton {
    var disabled: bool
    var sending: bool

    constructor ()
      ensures !disabled && !sending
    {
      disabled, sending := false, false;
    }
  }

  /** The submit handler up to its timer: validate the form; when it passes,
      put the button in its sending state, otherwise block the submission and
      leave the button as it was. */
  method OnSubmit(controls: seq<Field>, button: SubmitButton) returns (accepted: bool)
    requires forall f :: f in controls ==> f.Valid()
    modifies controls, button
    ensures accepted <==> forall f :: f in controls && f.required ==> f.Passes()
    ensures forall f :: f in controls ==> f.Valid()
    ensures forall f :: f in controls && f.required ==> f.Decorated()
    ensures forall f :: f in controls && !f.required ==>
      f.isInvalid == old(f.isInvalid) && f.feedback == old(f.feedback)
    ensures accepted ==> button.disabled && button.sending
    ensures !accepted ==> button.disabled == old(button.disabled) && button.sending == old(button.sending)
  {
    accepted := ValidateForm(controls);
    if accepted {
      button.sending := true;
      button.disabled := true;
    }
  }
}
