/**
 * The password-reset view: three fields, the reset chain (the registration chain without
 * the name), the resets that follow most failures, the e-mail existence check, and the
 * code dialog that opens before the send-code request is answered.
 */
module ForgotPassword {
  import opened Options
  import opened Text
  import opened Validation
  import opened CreateAccount

  /** The reset chain on the normalised e-mail and the two trimmed passwords. */
  function ResetGuards(correo: string, pass: string, pass2: string): seq<Guard> {
    [ Guard(correo != [] && pass != [] && pass2 != [], Required),
      Guard(!HasSpaceChar(correo) && !HasSpaceChar(pass) && !HasSpaceChar(pass2), InternalSpace),
      Guard(IsInstitutionalEmail(correo), NotInstitutional),
      Guard(pass == pass2, PasswordMismatch) ]
  }

  /** The local verdict on the raw fields; the e-mail is always lower-cased here. */
  function ResetCheck(email: string, password: string, confirm: string): Option<Failure> {
    FirstFailure(ResetGuards(NormalizeEmail(email, true), Trim(password), Trim(confirm)))
  }

  /**
   * The reset chain is the registration chain with the name left out: with any non-blank
   * name, the account-creation view gives the same verdict on the same three fields.
   */
  lemma ResetIsRegisterWithoutName(name: string, email: string, password: string, confirm: string)
    requires !AllSpace(name)
    ensures ResetCheck(email, password, confirm) == RegisterCheck(name, email, password, confirm, true)
  {
    var correo, pass, pass2 := NormalizeEmail(email, true), Trim(password), Trim(confirm);
    assert Trim(name) != [];
    assert ResetGuards(correo, pass, pass2) == RegisterGuards(Trim(name), correo, pass, pass2);
  }

  /** The failures after which `resetCampos` runs: all but the password mismatch. */
  predicate ResetsFields(f: Failure) {
    f != PasswordMismatch
  }

  /** The body of the send-code request, with `type: "forgot"`. */
  datatype ForgotRequest = ForgotRequest(email: string)

  /** The body of the reset-password request. */
  datatype ResetBody = ResetBody(email: string, password: string)

  class ForgotPasswordView {
    var email: string
    var password: string
    var confirmPassword: string
    var showConfirm: bool

    constructor ()
      ensures email == [] && password == [] && confirmPassword == [] && !showConfirm
    {
      email, password, confirmPassword := [], [], [];
      showConfirm := false;
    }

    /** `resetCampos`: the three fields become empty; the dialog flag is not touched. */
    method ResetFields()
      modifies this`email, this`password, this`confirmPassword
      ensures email == [] && password == [] && confirmPassword == []
    {
      email, password, confirmPassword := [], [], [];
    }

    /**
     * `handleSubmitRegister`. A local failure resets the fields unless the passwords only
     * differ. When the local checks pass, an e-mail the server reports as unknown
     * (`exist === false`, `unknownEmail`) resets the fields; otherwise the dialog opens
     * first and the code is requested, and a failed send (`!sent`) resets the fields while
     * the dialog stays open.
     */
    method HandleSubmitRegister(unknownEmail: bool, sent: bool) returns (failure: Option<Failure>, request: Option<ForgotRequest>)
      modifies this
      ensures failure == ResetCheck(old(email), old(password), old(confirmPassword))
      ensures request.Some? <==> failure.None? && !unknownEmail
      ensures request.Some? ==> request.value == ForgotRequest(NormalizeEmail(old(email), true))
      ensures showConfirm == (old(showConfirm) || request.Some?)
      ensures var reset := (failure.Some? && ResetsFields(failure.value)) || (failure.None? && (unknownEmail || !sent));
        if reset then email == [] && password == [] && confirmPassword == []
        else email == old(email) && password == old(password) && confirmPassword == old(confirmPassword)
    {
      failure := ResetCheck(email, password, confirmPassword);
      if failure.Some? {
        if ResetsFields(failure.value) {
          ResetFields();
        }
        return failure, None;
      }
      if unknownEmail {
        ResetFields();
        return None, None;
      }
      showConfirm := true;
      request := Some(ForgotRequest(NormalizeEmail(email, true)));
      if !sent {
        ResetFields();
      }
    }

    /** `handleVerifySuccess`: the reset body from the fields as they stand. */
    method HandleVerifySuccess() returns (body: ResetBody)
      ensures body == ResetBody(NormalizeEmail(email, true), Trim(password))
    {
      body := ResetBody(ToLower(Trim(email)), Trim(password));
    }
  }

  /**
   * Unlike account creation, the code dialog is open once the code is requested even when
   * the send fails; the fields are then empty, so a verification from that dialog sends an
   * empty e-mail and password.
   */
  method FailedSendLeavesDialogOpen(view: ForgotPasswordView) returns (body: ResetBody)
    requires ResetCheck(view.email, view.password, view.confirmPassword).None?
    modifies view
    ensures view.showConfirm
    ensures body == ResetBody([], [])
  {
    var failure, request := view.HandleSubmitRegister(false, false);
    body := view.HandleVerifySuccess();
    TrimUnchanged([]);
  }
}
