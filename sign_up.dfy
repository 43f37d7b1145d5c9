/**
 * The two-step sign-up form (src/components/SignUp.tsx): the password
 * requirement list, the validation of each step, the step navigation, the
 * change handler and the submit gate. The React state of the component is a
 * plain record that every handler takes and returns; the `signUp` call of
 * the authentication context is a parameter saying how it settles.
 */
module SignUpForm {
  import opened Wrappers
  import opened JsText
  import opened EmailPattern
  import opened FormErrors

  /** The keys of the form record. */
  datatype Field = Name | Email | Password | ConfirmPassword | AcceptTerms | AcceptNewsletter

  /** The value a change handler receives: an input's text or a checkbox's
      `checked`. */
  datatype Value = Text(text: string) | Checked(on: bool)

  datatype FormData = FormData(
    name: string, email: string, password: string, confirmPassword: string,
    acceptTerms: bool, acceptNewsletter: bool)

  /** The initial record: everything empty, newsletter ticked. */
  const InitialForm := FormData("", "", "", "", false, true)

  /** The component's state: the record, the per-field errors, the step shown
      (1 or 2) and the message of a failed sign-up. */
  datatype State = State(form: FormData, errors: map<Field, ErrorValue>, step: nat, signUpError: string)

  const InitialState := State(InitialForm, map[], 1, "")

  /** The value stored under a key. */
  function Get(d: FormData, f: Field): Value {
    match f
    case Name => Text(d.name)
    case Email => Text(d.email)
    case Password => Text(d.password)
    case ConfirmPassword => Text(d.confirmPassword)
    case AcceptTerms => Checked(d.acceptTerms)
    case AcceptNewsletter => Checked(d.acceptNewsletter)
  }

  /** Every call site passes text to a text field and `checked` to a
      checkbox. */
  predicate Fits(f: Field, v: Value) {
    if f == AcceptTerms || f == AcceptNewsletter then v.Checked? else v.Text?
  }

  /** `{ ...prev, [field]: value }`: the named key takes the value and every
      other key keeps its own. */
  function Set(d: FormData, f: Field, v: Value): (r: FormData)
    requires Fits(f, v)
    ensures forall g :: Get(r, g) == if g == f then v else Get(d, g)
  {
    match f
    case Name => d.(name := v.text)
    case Email => d.(email := v.text)
    case Password => d.(password := v.text)
    case ConfirmPassword => d.(confirmPassword := v.text)
    case AcceptTerms => d.(acceptTerms := v.on)
    case AcceptNewsletter => d.(acceptNewsletter := v.on)
  }

  // ---------------------------------------------------------------------
  // Password requirements

  /** The character classes the requirement list tests for. */
  datatype CharClass = UpperCase | LowerCase | DecimalDigit | SpecialChar

  /** The members of the special-character class. */
  const SpecialChars: string := "!@#$%^&*(),.?\":{}|<>"

  predicate InClass(c: char, k: CharClass) {
    match k
    case UpperCase => 'A' <= c <= 'Z'
    case LowerCase => 'a' <= c <= 'z'
    case DecimalDigit => '0' <= c <= '9'
    case SpecialChar => c in SpecialChars
  }

  /** `/[…]/.test(p)`: a scan for the first character of the class. */
  function ContainsClass(p: string, k: CharClass): bool {
    if p == [] then false else InClass(p[0], k) || ContainsClass(p[1..], k)
  }

  /** Some character of `p` is in the class. */
  predicate HasChar(p: string, k: CharClass) {
    exists i | 0 <= i < |p| :: InClass(p[i], k)
  }

  lemma {:induction false} ContainsClassIffHasChar(p: string, k: CharClass)
    ensures ContainsClass(p, k) <==> HasChar(p, k)
  {
    if p != [] {
      ContainsClassIffHasChar(p[1..], k);
      if HasChar(p, k) && !InClass(p[0], k) {
        var i :| 0 <= i < |p| && InClass(p[i], k);
        assert p[1..][i - 1] == p[i];
      }
      if HasChar(p[1..], k) {
        var i :| 0 <= i < |p[1..]| && InClass(p[1..][i], k);
        assert p[i + 1] == p[1..][i];
      }
    }
  }

  datatype Requirement = Requirement(text: string, met: bool)

  /** The requirement list shown under the password field. */
  function PasswordRequirements(p: string): seq<Requirement> {
    [ Requirement("At least 8 characters", |p| >= 8),
      Requirement("One uppercase letter", ContainsClass(p, UpperCase)),
      Requirement("One lowercase letter", ContainsClass(p, LowerCase)),
      Requirement("One number", ContainsClass(p, DecimalDigit)),
      Requirement("One special character", ContainsClass(p, SpecialChar)) ]
  }

  /** `passwordRequirements.every(req => req.met)`. */
  predicate AllRequirementsMet(p: string) {
    forall r | r in PasswordRequirements(p) :: r.met
  }

  /** The requirement list is met exactly by a password of eight or more
      characters with an upper-case letter, a lower-case letter, a digit and
      a special character. */
  lemma AllRequirementsMetIff(p: string)
    ensures AllRequirementsMet(p) <==>
      |p| >= 8 && HasChar(p, UpperCase) && HasChar(p, LowerCase)
      && HasChar(p, DecimalDigit) && HasChar(p, SpecialChar)
  {
    ContainsClassIffHasChar(p, UpperCase);
    ContainsClassIffHasChar(p, LowerCase);
    ContainsClassIffHasChar(p, DecimalDigit);
    ContainsClassIffHasChar(p, SpecialChar);
    var reqs := PasswordRequirements(p);
    if |p| >= 8 && HasChar(p, UpperCase) && HasChar(p, LowerCase)
      && HasChar(p, DecimalDigit) && HasChar(p, SpecialChar)
    {
      forall r | r in reqs
        ensures r.met
      {
      }
    } else {
      assert !reqs[0].met || !reqs[1].met || !reqs[2].met || !reqs[3].met || !reqs[4].met;
    }
  }

  // ---------------------------------------------------------------------
  // Validation

  const NameRequired := "Name is required"
  const NameTooShort := "Name must be at least 2 characters"
  const EmailRequired := "Email is required"
  const EmailInvalid := "Email is invalid"
  const PasswordRequired := "Password is required"
  const PasswordWeak := "Password does not meet requirements"
  const ConfirmRequired := "Please confirm your password"
  const PasswordsDiffer := "Passwords do not match"
  const SignUpFailed := "Sign up failed"

  /** The error record step 1 produces: a name error when the trimmed name
      has fewer than two characters, an e-mail error when the e-mail is empty
      or fails the pattern, and nothing else. */
  ghost function Step1Errors(d: FormData): (r: map<Field, ErrorValue>)
    ensures r.Keys <= {Name, Email}
    ensures Name in r <==> |Trim(d.name)| < 2
    ensures Name in r ==> r[Name] == Message(if Trim(d.name) == [] then NameRequired else NameTooShort)
    ensures Email in r <==> d.email == [] || !EmailLike(d.email)
    ensures Email in r ==> r[Email] == Message(if d.email == [] then EmailRequired else EmailInvalid)
  {
    var name := Trim(d.name);
    var nameErrors: map<Field, ErrorValue> :=
      if name == [] then map[Name := Message(NameRequired)]
      else if |name| < 2 then map[Name := Message(NameTooShort)]
      else map[];
    if d.email == [] then nameErrors[Email := Message(EmailRequired)]
    else if !EmailLike(d.email) then nameErrors[Email := Message(EmailInvalid)]
    else nameErrors
  }

  /** The error record step 2 produces: a password error when the password
      is empty or misses a requirement, a confirmation error when the
      confirmation is empty or differs, the flag when the terms are not
      accepted, and nothing else. */
  function Step2Errors(d: FormData): (r: map<Field, ErrorValue>)
    ensures r.Keys <= {Password, ConfirmPassword, AcceptTerms}
    ensures Password in r <==> d.password == [] || !AllRequirementsMet(d.password)
    ensures Password in r ==> r[Password] == Message(if d.password == [] then PasswordRequired else PasswordWeak)
    ensures ConfirmPassword in r <==> d.confirmPassword == [] || d.password != d.confirmPassword
    ensures ConfirmPassword in r ==>
      r[ConfirmPassword] == Message(if d.confirmPassword == [] then ConfirmRequired else PasswordsDiffer)
    ensures AcceptTerms in r <==> !d.acceptTerms
    ensures AcceptTerms in r ==> r[AcceptTerms] == Flag
  {
    var passwordErrors: map<Field, ErrorValue> :=
      if d.password == [] then map[Password := Message(PasswordRequired)]
      else if !AllRequirementsMet(d.password) then map[Password := Message(PasswordWeak)]
      else map[];
    var confirmErrors :=
      if d.confirmPassword == [] then passwordErrors[ConfirmPassword := Message(ConfirmRequired)]
      else if d.password != d.confirmPassword then passwordErrors[ConfirmPassword := Message(PasswordsDiffer)]
      else passwordErrors;
    if !d.acceptTerms then confirmErrors[AcceptTerms := Flag] else confirmErrors
  }

  /** Step 1 passes exactly when the trimmed name has two or more characters
      and the untrimmed e-mail passes the pattern. */
  lemma Step1PassesIff(d: FormData)
    ensures Step1Errors(d) == map[] <==> |Trim(d.name)| >= 2 && EmailLike(d.email)
  {
    if Step1Errors(d) == map[] {
      assert Email !in Step1Errors(d);
    }
  }

  /** Step 2 passes exactly when the password meets every requirement, the
      confirmation repeats it and the terms are accepted. */
  lemma Step2PassesIff(d: FormData)
    ensures Step2Errors(d) == map[] <==>
      AllRequirementsMet(d.password) && d.confirmPassword == d.password && d.acceptTerms
  {
    AllRequirementsMetIff(d.password);
    if Step2Errors(d) == map[] {
      assert Password !in Step2Errors(d);
      assert ConfirmPassword !in Step2Errors(d);
      assert AcceptTerms !in Step2Errors(d);
    }
  }

  /** `validateStep1`: fills a fresh record field by field, stores it, and
      reports whether it stayed empty. */
  method ValidateStep1(s: State) returns (valid: bool, r: State)
    ensures r == s.(errors := Step1Errors(s.form))
    ensures valid <==> Step1Errors(s.form) == map[]
  {
    var newErrors: map<Field, ErrorValue> := map[];
    var name := Trim(s.form.name);
    if name == [] {
      newErrors := newErrors[Name := Message(NameRequired)];
    } else if |name| < 2 {
      newErrors := newErrors[Name := Message(NameTooShort)];
    }
    TestIffEmailLike(s.form.email);
    if s.form.email == [] {
      newErrors := newErrors[Email := Message(EmailRequired)];
    } else if !Test(s.form.email) {
      newErrors := newErrors[Email := Message(EmailInvalid)];
    }
    r := s.(errors := newErrors);
    valid := |newErrors| == 0;
  }

  /** `validateStep2`. */
  method ValidateStep2(s: State) returns (valid: bool, r: State)
    ensures r == s.(errors := Step2Errors(s.form))
    ensures valid <==> Step2Errors(s.form) == map[]
  {
    var newErrors: map<Field, ErrorValue> := map[];
    var allMet := forall req | req in PasswordRequirements(s.form.password) :: req.met;
    if s.form.password == [] {
      newErrors := newErrors[Password := Message(PasswordRequired)];
    } else if !allMet {
      newErrors := newErrors[Password := Message(PasswordWeak)];
    }
    if s.form.confirmPassword == [] {
      newErrors := newErrors[ConfirmPassword := Message(ConfirmRequired)];
    } else if s.form.password != s.form.confirmPassword {
      newErrors := newErrors[ConfirmPassword := Message(PasswordsDiffer)];
    }
    if !s.form.acceptTerms {
      newErrors := newErrors[AcceptTerms := Flag];
    }
    r := s.(errors := newErrors);
    valid := |newErrors| == 0;
  }

  // ---------------------------------------------------------------------
  // Handlers

  /** `handleNext`: validates step 1 and moves to step 2 only if it passed. */
  method HandleNext(s: State) returns (r: State)
    ensures r.form == s.form && r.signUpError == s.signUpError
    ensures r.errors == Step1Errors(s.form)
    ensures r.step == if |Trim(s.form.name)| >= 2 && EmailLike(s.form.email) then 2 else s.step
  {
    var valid;
    valid, r := ValidateStep1(s);
    Step1PassesIff(s.form);
    if valid {
      r := r.(step := 2);
    }
  }

  /** `handleBack`: back to step 1, whatever was shown. */
  method HandleBack(s: State) returns (r: State)
    ensures r.step == 1
    ensures r.form == s.form && r.errors == s.errors && r.signUpError == s.signUpError
  {
    r := s.(step := 1);
  }

  /** `handleChange`: stores the value under the named key, hides that
      field's error and the sign-up error, and touches nothing else. */
  method HandleChange(s: State, field: Field, value: Value) returns (r: State)
    requires Fits(field, value)
    ensures forall g :: Get(r.form, g) == if g == field then value else Get(s.form, g)
    ensures !HasError(r.errors, field)
    ensures r.errors.Keys == s.errors.Keys
    ensures forall g | g in r.errors && g != field :: r.errors[g] == s.errors[g]
    ensures r.signUpError == [] && r.step == s.step
  {
    r := s.(form := Set(s.form, field, value));
    if HasError(s.errors, field) {
      r := r.(errors := s.errors[field := Cleared]);
    }
    if s.signUpError != [] {
      r := r.(signUpError := []);
    }
  }

  /** The arguments `signUp` is called with. */
  datatype SignUpCall = SignUpCall(email: string, password: string, name: string)

  /** `handleSubmit`: validates step 2; only a passing form calls `signUp`,
      with the untrimmed e-mail, the password and the untrimmed name. A
      resolved call closes the dialog; a rejected one shows the error's
      message, or the fallback for a thrown non-`Error`. */
  method HandleSubmit(s: State, outcome: AuthOutcome) returns (r: State, call: Option<SignUpCall>, closed: bool)
    ensures call.Some? <==>
      AllRequirementsMet(s.form.password) && s.form.confirmPassword == s.form.password && s.form.acceptTerms
    ensures call.Some? ==> call.value == SignUpCall(s.form.email, s.form.password, s.form.name)
    ensures closed <==> call.Some? && outcome.Resolved?
    ensures r.form == s.form && r.step == s.step && r.errors == Step2Errors(s.form)
    ensures r.signUpError ==
      if call.Some? && outcome.Rejected? then ShownMessage(outcome.thrown, SignUpFailed) else s.signUpError
  {
    var valid;
    valid, r := ValidateStep2(s);
    Step2PassesIff(s.form);
    call := None;
    closed := false;
    if !valid {
      return;
    }
    call := Some(SignUpCall(s.form.email, s.form.password, s.form.name));
    match outcome {
      case Resolved =>
        closed := true;
      case Rejected(thrown) =>
        r := r.(signUpError := ShownMessage(thrown, SignUpFailed));
    }
  }

  /** The `disabled` attribute of the create-account button. */
  predicate SubmitDisabled(isLoading: bool, d: FormData) {
    isLoading || !AllRequirementsMet(d.password) || !d.acceptTerms
  }

  /** The button guard and step 2 agree: a form that passes step 2 leaves
      the button enabled unless a request is loading, and with the button
      enabled step 2 turns only on whether the confirmation repeats the
      password. */
  lemma SubmitGateAgreesWithStep2(isLoading: bool, d: FormData)
    ensures Step2Errors(d) == map[] && !isLoading ==> !SubmitDisabled(isLoading, d)
    ensures !SubmitDisabled(isLoading, d) ==>
      (Step2Errors(d) == map[] <==> d.confirmPassword == d.password)
  {
    Step2PassesIff(d);
  }
}
