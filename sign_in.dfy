/**
 * The sign-in form (src/components/SignIn.tsx): its validation, the gate
 * in front of the `signIn` call and the change handler. The React state is a
 * plain record that every handler takes and returns; the `signIn` call of
 * the authentication context is a parameter saying how it settles.
 */
module SignInForm {
  import opened Wrappers
  import opened EmailPattern
  import opened FormErrors

  /** The keys of the form record. */
  datatype Field = Email | Password | RememberMe

  /** The value a change handler receives: an input's text or a checkbox's
      `checked`. */
  datatype Value = Text(text: string) | Checked(on: bool)

  datatype FormData = FormData(email: string, password: string, rememberMe: bool)

  const InitialForm := FormData("", "", false)

  /** The component's state: the record, the per-field errors and the
      message of a failed sign-in. */
  datatype State = State(form: FormData, errors: map<Field, ErrorValue>, signInError: string)

  const InitialState := State(InitialForm, map[], "")

  /** The value stored under a key. */
  function Get(d: FormData, f: Field): Value {
    match f
    case Email => Text(d.email)
    case Password => Text(d.password)
    case RememberMe => Checked(d.rememberMe)
  }

  /** Every call site passes text to a text field and `checked` to the
      checkbox. */
  predicate Fits(f: Field, v: Value) {
    if f == RememberMe then v.Checked? else v.Text?
  }

  /** `{ ...prev, [field]: value }`. */
  function Set(d: FormData, f: Field, v: Value): (r: FormData)
    requires Fits(f, v)
    ensures forall g :: Get(r, g) == if g == f then v else Get(d, g)
  {
    match f
    case Email => d.(email := v.text)
    case Password => d.(password := v.text)
    case RememberMe => d.(rememberMe := v.on)
  }

  const EmailRequired := "Email is required"
  const EmailInvalid := "Email is invalid"
  const PasswordRequired := "Password is required"
  const SignInFailed := "Sign in failed"

  /** The error record `validateForm` produces: an e-mail error when the
      e-mail is empty or fails the pattern, a password error only when the
      password is empty, and nothing else. */
  ghost function FormErrorsOf(d: FormData): (r: map<Field, ErrorValue>)
    ensures r.Keys <= {Email, Password}
    ensures Email in r <==> d.email == [] || !EmailLike(d.email)
    ensures Email in r ==> r[Email] == Message(if d.email == [] then EmailRequired else EmailInvalid)
    ensures Password in r <==> d.password == []
    ensures Password in r ==> r[Password] == Message(PasswordRequired)
  {
    var emailErrors: map<Field, ErrorValue> :=
      if d.email == [] then map[Email := Message(EmailRequired)]
      else if !EmailLike(d.email) then map[Email := Message(EmailInvalid)]
      else map[];
    if d.password == [] then emailErrors[Password := Message(PasswordRequired)] else emailErrors
  }

  /** The form passes exactly when the e-mail passes the pattern and the
      password is not empty; the password has no other rule. */
  lemma FormPassesIff(d: FormData)
    ensures FormErrorsOf(d) == map[] <==> EmailLike(d.email) && d.password != []
  {
    if FormErrorsOf(d) == map[] {
      assert Email !in FormErrorsOf(d);
      assert Password !in FormErrorsOf(d);
    }
  }

  /** `validateForm`: fills a fresh record field by field, stores it, and
      reports whether it stayed empty. */
  method ValidateForm(s: State) returns (valid: bool, r: State)
    ensures r == s.(errors := FormErrorsOf(s.form))
    ensures valid <==> EmailLike(s.form.email) && s.form.password != []
  {
    var newErrors: map<Field, ErrorValue> := map[];
    TestIffEmailLike(s.form.email);
    if s.form.email == [] {
      newErrors := newErrors[Email := Message(EmailRequired)];
    } else if !Test(s.form.email) {
      newErrors := newErrors[Email := Message(EmailInvalid)];
    }
    if s.form.password == [] {
      newErrors := newErrors[Password := Message(PasswordRequired)];
    }
    r := s.(errors := newErrors);
    valid := |newErrors| == 0;
    FormPassesIff(s.form);
  }

  /** The arguments `signIn` is called with. */
  datatype SignInCall = SignInCall(email: string, password: string, rememberMe: bool)

  /** `handleSubmit`: only a form that validates calls `signIn`, with the
      record's three values. A resolved call closes the dialog; a rejected
      one shows the error's message, or the fallback for a thrown
      non-`Error`. */
  method HandleSubmit(s: State, outcome: AuthOutcome) returns (r: State, call: Option<SignInCall>, closed: bool)
    ensures call.Some? <==> EmailLike(s.form.email) && s.form.password != []
    ensures call.Some? ==> call.value == SignInCall(s.form.email, s.form.password, s.form.rememberMe)
    ensures closed <==> call.Some? && outcome.Resolved?
    ensures r.form == s.form && r.errors == FormErrorsOf(s.form)
    ensures r.signInError ==
      if call.Some? && outcome.Rejected? then ShownMessage(outcome.thrown, SignInFailed) else s.signInError
  {
    var valid;
    valid, r := ValidateForm(s);
    call := None;
    closed := false;
    if !valid {
      return;
    }
    call := Some(SignInCall(s.form.email, s.form.password, s.form.rememberMe));
    match outcome {
      case Resolved =>
        closed := true;
      case Rejected(thrown) =>
        r := r.(signInError := ShownMessage(thrown, SignInFailed));
    }
  }

  /** `handleChange`: stores the value under the named key, hides that
      field's error and the sign-in error, and touches nothing else. */
  method HandleChange(s: State, field: Field, value: Value) returns (r: State)
    requires Fits(field, value)
    ensures forall g :: Get(r.form, g) == if g == field then value else Get(s.form, g)
    ensures !HasError(r.errors, field)
    ensures r.errors.Keys == s.errors.Keys
    ensures forall g | g in r.errors && g != field :: r.errors[g] == s.errors[g]
    ensures r.signInError == []
  {
    r := s.(form := Set(s.form, field, value));
    if HasError(s.errors, field) {
      r := r.(errors := s.errors[field := Cleared]);
    }
    if s.signInError != [] {
      r := r.(signInError := []);
    }
  }
}
