/**
 * The first-admin signup page: whether the form is offered at all, and the
 * ordered checks a submission passes before the account is requested.
 */
module Signup {
  import opened Common

  /** `String.prototype.length`: UTF-16 code units, two for a character outside the BMP. */
  function Utf16Length(s: string): (n: nat)
    ensures |s| <= n <= 2 * |s|
    decreases |s|
  {
    if s == [] then 0 else (if s[0] as int > 0xFFFF then 2 else 1) + Utf16Length(s[1..])
  }

  const MinPasswordLength: nat := 6

  /** The outcome of the form checks, in the order they run. */
  datatype Check = MissingField | Mismatch | TooShort | Proceed

  /** The guard chain of `handleSignup`: empty fields, then mismatch, then length. */
  function ValidateSignup(email: string, password: string, confirmPassword: string): (c: Check)
    ensures c == MissingField <==> email == "" || password == ""
    ensures c == Mismatch <==> email != "" && password != "" && password != confirmPassword
    ensures c == TooShort <==> email != "" && password != "" && password == confirmPassword
                               && Utf16Length(password) < MinPasswordLength
    ensures c == Proceed <==> email != "" && password != "" && password == confirmPassword
                              && Utf16Length(password) >= MinPasswordLength
  {
    if email == "" || password == "" then MissingField
    else if password != confirmPassword then Mismatch
    else if Utf16Length(password) < MinPasswordLength then TooShort
    else Proceed
  }

  /** A password that is long enough by code units can still be short by characters. */
  lemma AstralPasswordCounts()
    ensures ValidateSignup("a@b", "\U{1F600}\U{1F600}\U{1F600}", "\U{1F600}\U{1F600}\U{1F600}") == Proceed
  {
    var p := "\U{1F600}\U{1F600}\U{1F600}";
    assert p[1..][1..][1..] == [];
    assert Utf16Length(p) == 6;
  }

  /** The text of the error toast for a failed check. */
  function CheckMessage(c: Check): (m: string)
    ensures m == "" <==> c == Proceed
  {
    match c
    case MissingField => "Please fill in all fields"
    case Mismatch => "Passwords do not match"
    case TooShort => "Password must be at least 6 characters"
    case Proceed => ""
  }

  datatype Toast = Toast(title: string, description: string)

  /** What the count query gave back: an exception, or a count that may be `null`. */
  datatype CountReply = CountThrew | CountResult(count: Option<nat>)

  /** The page's decision on the admin count: offer the form, and send the visitor to login. */
  datatype AdminDecision = AdminDecision(allowSignup: bool, redirect: bool)

  function DecideAdmin(reply: CountReply): (d: AdminDecision)
    ensures d.allowSignup <==> reply == CountThrew || reply == CountResult(Some(0))
    ensures d.redirect <==> reply.CountResult? && reply.count.Some? && reply.count.value > 0
  {
    match reply
    case CountThrew => AdminDecision(true, false)
    case CountResult(None) => AdminDecision(false, false)
    case CountResult(Some(n)) => AdminDecision(n == 0, n > 0)
  }

  /** The form is never both offered and left; a `null` count does neither. */
  lemma DecisionExclusive(reply: CountReply)
    ensures !(DecideAdmin(reply).allowSignup && DecideAdmin(reply).redirect)
    ensures reply == CountResult(None) ==> DecideAdmin(reply) == AdminDecision(false, false)
  {
  }

  /** What `signUp` gave back: an error (its message may be empty), or data with or without a user. */
  datatype SignUpReply = SignUpError(message: string) | SignUpData(hasUser: bool)

  const DefaultFailure: string := "Failed to create admin account"
  const SuccessText: string := "Admin account created successfully. You can now log in."

  /** The toast after `signUp`, and whether the redirect to login is scheduled. */
  function SignUpOutcome(reply: SignUpReply): (r: (Option<Toast>, bool))
    ensures r.1 <==> reply == SignUpData(true)
    ensures reply.SignUpError? ==> r.0 == Some(Toast("Error", if reply.message == "" then DefaultFailure else reply.message))
    ensures reply == SignUpData(true) ==> r.0 == Some(Toast("Success!", SuccessText))
    ensures reply == SignUpData(false) ==> r.0 == None
    ensures r.0.Some? && r.0.value.title == "Error" ==> r.0.value.description != ""
  {
    match reply
    case SignUpError(m) => (Some(Toast("Error", if m == "" then DefaultFailure else m)), false)
    case SignUpData(true) => (Some(Toast("Success!", SuccessText)), true)
    case SignUpData(false) => (None, false)
  }

  class SignupPage {
    var email: string
    var password: string
    var confirmPassword: string
    var loading: bool
    var allowSignup: bool
    /** Set when the page navigates, or schedules navigation, to the login page. */
    var redirectToLogin: bool
    var toast: Option<Toast>

    constructor()
      ensures email == "" && password == "" && confirmPassword == ""
      ensures !loading && !allowSignup && !redirectToLogin && toast == None
    {
      email, password, confirmPassword := "", "", "";
      loading, allowSignup, redirectToLogin := false, false, false;
      toast := None;
    }

    /** The inputs' `onChange` handlers. */
    method Edit(newEmail: string, newPassword: string, newConfirm: string)
      modifies this
      ensures email == newEmail && password == newPassword && confirmPassword == newConfirm
      ensures loading == old(loading) && allowSignup == old(allowSignup)
      ensures redirectToLogin == old(redirectToLogin) && toast == old(toast)
    {
      email, password, confirmPassword := newEmail, newPassword, newConfirm;
    }

    /** `checkAdminExists`. */
    method CheckAdminExists(reply: CountReply)
      modifies this
      ensures allowSignup == DecideAdmin(reply).allowSignup
      ensures redirectToLogin == (old(redirectToLogin) || DecideAdmin(reply).redirect)
      ensures email == old(email) && password == old(password) && confirmPassword == old(confirmPassword)
      ensures loading == old(loading) && toast == old(toast)
    {
      match reply {
        case CountThrew =>
          allowSignup := true;
        case CountResult(count) =>
          allowSignup := count == Some(0);
          if count.Some? && count.value > 0 {
            redirectToLogin := true;
          }
      }
    }

    /**
     * `handleSignup`: a failed check shows its message and returns; otherwise
     * the account is requested and `loading` is cleared on every way out.
     * Returns whether `signUp` was called.
     */
    method HandleSignup(reply: SignUpReply) returns (calledSignUp: bool)
      modifies this
      ensures calledSignUp <==> ValidateSignup(email, password, confirmPassword) == Proceed
      ensures !calledSignUp ==> toast == Some(Toast("Error", CheckMessage(ValidateSignup(email, password, confirmPassword))))
                                && loading == old(loading) && redirectToLogin == old(redirectToLogin)
      ensures calledSignUp ==> !loading
      ensures calledSignUp ==> (SignUpOutcome(reply).0.Some? ==> toast == SignUpOutcome(reply).0)
                               && (SignUpOutcome(reply).0.None? ==> toast == old(toast))
                               && redirectToLogin == (old(redirectToLogin) || SignUpOutcome(reply).1)
      ensures email == old(email) && password == old(password) && confirmPassword == old(confirmPassword)
      ensures allowSignup == old(allowSignup)
    {
      var check := ValidateSignup(email, password, confirmPassword);
      if check != Proceed {
        toast := Some(Toast("Error", CheckMessage(check)));
        return false;
      }
      loading := true;
      var (t, go) := SignUpOutcome(reply);
      if t.Some? {
        toast := t;
      }
      if go {
        redirectToLogin := true;
      }
      loading := false;
      return true;
    }
  }
}
