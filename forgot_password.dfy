/**
 * The reset-password form (src/components/ForgotPassword.tsx): the guarded
 * early returns of its submit handler, the state they leave behind, and the
 * error reset of the e-mail input. The React state is a plain record that
 * every handler takes and returns; the `forgotPassword` call of the
 * authentication context is a parameter saying how it settles.
 */
module ForgotPasswordForm {
  import opened Wrappers
  import opened EmailPattern
  import opened FormErrors

  /** The component's state: the e-mail typed, the error shown and whether
      the confirmation screen replaced the form. */
  datatype State = State(email: string, error: string, isSubmitted: bool)

  const InitialState := State("", "", false)

  const EmailRequired := "Email is required"
  const EmailInvalid := "Email is invalid"
  const SendFailed := "Failed to send reset email"

  /** `handleSubmit`: an empty e-mail and then one that fails the pattern
      each set their message and return before `forgotPassword` is called;
      otherwise the call is made with the untrimmed e-mail, and it either
      switches to the confirmation screen or shows the failure message. The
      error already shown stays unless one of these steps overwrites it. */
  method HandleSubmit(s: State, outcome: AuthOutcome) returns (r: State, requested: Option<string>)
    ensures requested.Some? <==> EmailLike(s.email)
    ensures requested.Some? ==> requested.value == s.email
    ensures r.email == s.email
    ensures r.isSubmitted <==> s.isSubmitted || (requested.Some? && outcome.Resolved?)
    ensures s.email == [] ==> r.error == EmailRequired
    ensures s.email != [] && !EmailLike(s.email) ==> r.error == EmailInvalid
    ensures requested.Some? && outcome.Rejected? ==> r.error == SendFailed
    ensures requested.Some? && outcome.Resolved? ==> r.error == s.error
  {
    r := s;
    requested := None;
    TestIffEmailLike(s.email);
    if s.email == [] {
      r := r.(error := EmailRequired);
      return;
    }
    if !Test(s.email) {
      r := r.(error := EmailInvalid);
      return;
    }
    requested := Some(s.email);
    match outcome {
      case Resolved =>
        r := r.(isSubmitted := true);
      case Rejected(_) =>
        r := r.(error := SendFailed);
    }
  }

  /** The input's `onChange`: stores the text and always clears the error. */
  method OnChange(s: State, value: string) returns (r: State)
    ensures r == State(value, [], s.isSubmitted)
  {
    r := s.(email := value);
    r := r.(error := []);
  }

  /** The empty check comes first: an empty e-mail never shows the
      invalid-format message, and never reaches `forgotPassword`. */
  lemma EmptyEmailNeverReachesTheCall(s: State)
    requires s.email == []
    ensures !EmailLike(s.email)
  {
    if EmailLike(s.email) {
      EmailLikeNeedsAtThenDot(s.email);
    }
  }
}
