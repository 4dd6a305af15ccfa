/**
 * The back-end-free account-creation view: the registration chain on a trimmed but not
 * lower-cased e-mail, where every failure, a password mismatch included, empties all four
 * fields; success only moves on to the sign-in page.
 */
module CreateAccountPrueba {
  import opened Options
  import opened Text
  import opened Validation
  import opened CreateAccount

  lemma GuardsPass(nombre: string, correo: string, pass: string, pass2: string)
    requires nombre != [] && correo != [] && pass != [] && pass == pass2
    requires !HasSpaceChar(correo) && !HasSpaceChar(pass) && IsInstitutionalEmail(correo)
    ensures FirstFailure(RegisterGuards(nombre, correo, pass, pass2)).None?
  {
    FirstFailureNone(RegisterGuards(nombre, correo, pass, pass2));
  }

  /**
   * This view runs the registration chain with lower-casing off. Everything it accepts
   * the account-creation view accepts too.
   */
  lemma AcceptsLessThanCreateAccount(name: string, email: string, password: string, confirm: string)
    requires RegisterCheck(name, email, password, confirm, false).None?
    ensures RegisterCheck(name, email, password, confirm, true).None?
  {
    var t := Trim(email);
    AllGuardsHold(Trim(name), t, Trim(password), Trim(confirm));
    LowerKeepsValidEmail(t);
    GuardsPass(Trim(name), ToLower(t), Trim(password), Trim(confirm));
  }

  /** The view's outcome: stay with an error toast, or move on to the sign-in page. */
  datatype Outcome = Stay(failure: Failure) | GoToSignIn

  class CreateAccountPruebaView {
    var name: string
    var email: string
    var password: string
    var confirmPassword: string

    constructor ()
      ensures name == [] && email == [] && password == [] && confirmPassword == []
    {
      name, email, password, confirmPassword := [], [], [], [];
    }

    /** `resetCampos`: all four fields become empty. */
    method ResetFields()
      modifies this
      ensures name == [] && email == [] && password == [] && confirmPassword == []
    {
      name, email, password, confirmPassword := [], [], [], [];
    }

    /**
     * `handleSubmitRegister`: any failing guard, the password comparison included, empties
     * every field; when all pass the fields are kept and the view moves on.
     */
    method HandleSubmitRegister() returns (outcome: Outcome)
      modifies this
      ensures outcome.Stay? <==> RegisterCheck(old(name), old(email), old(password), old(confirmPassword), false).Some?
      ensures outcome.Stay? ==> outcome.failure == RegisterCheck(old(name), old(email), old(password), old(confirmPassword), false).value
      ensures outcome.Stay? ==> name == [] && email == [] && password == [] && confirmPassword == []
      ensures outcome.GoToSignIn? ==>
        name == old(name) && email == old(email) && password == old(password) && confirmPassword == old(confirmPassword)
    {
      var failure := RegisterCheck(name, email, password, confirmPassword, false);
      if failure.Some? {
        ResetFields();
        return Stay(failure.value);
      }
      outcome := GoToSignIn;
    }
  }
}
