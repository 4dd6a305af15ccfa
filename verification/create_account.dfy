/**
 * The account-creation view: four fields, the four guards of the registration chain
 * (none of which resets the form), the send-code request whose success opens the code
 * dialog, and the registration body sent once the code is verified.
 */
module CreateAccount {
  import opened Options
  import opened Text
  import opened Validation

  /** The registration chain on the trimmed name, the normalised e-mail and the trimmed passwords. */
  function RegisterGuards(nombre: string, correo: string, pass: string, pass2: string): seq<Guard> {
    [ Guard(nombre != [] && correo != [] && pass != [] && pass2 != [], Required),
      Guard(!HasSpaceChar(correo) && !HasSpaceChar(pass) && !HasSpaceChar(pass2), InternalSpace),
      Guard(IsInstitutionalEmail(correo), NotInstitutional),
      Guard(pass == pass2, PasswordMismatch) ]
  }

  /** The local verdict on the raw fields; `lower` is whether the e-mail is lower-cased. */
  function RegisterCheck(name: string, email: string, password: string, confirm: string, lower: bool): Option<Failure> {
    FirstFailure(RegisterGuards(Trim(name), NormalizeEmail(email, lower), Trim(password), Trim(confirm)))
  }

  lemma EmptyFieldFirst(nombre: string, correo: string, pass: string, pass2: string)
    requires nombre == [] || correo == [] || pass == [] || pass2 == []
    ensures FirstFailure(RegisterGuards(nombre, correo, pass, pass2)) == Some(Required)
  {
    FirstFailureAt(RegisterGuards(nombre, correo, pass, pass2), 0);
  }

  /** A field that is blank after trimming fails first, whatever the others hold. */
  lemma RegisterBlankFirst(name: string, email: string, password: string, confirm: string, lower: bool)
    requires AllSpace(name) || AllSpace(email) || AllSpace(password) || AllSpace(confirm)
    ensures RegisterCheck(name, email, password, confirm, lower) == Some(Required)
  {
    NormalizedEmail(email, lower);
    EmptyFieldFirst(Trim(name), NormalizeEmail(email, lower), Trim(password), Trim(confirm));
  }

  lemma MismatchGuardLast(nombre: string, correo: string, pass: string, pass2: string)
    requires FirstFailure(RegisterGuards(nombre, correo, pass, pass2)) == Some(PasswordMismatch)
    ensures nombre != [] && pass != [] && !HasSpaceChar(pass) && IsInstitutionalEmail(correo) && pass != pass2
  {
    var gs := RegisterGuards(nombre, correo, pass, pass2);
    var k := FailingIndex(gs);
    assert k == 3;
    assert gs[0].holds && gs[1].holds && gs[2].holds;
  }

  lemma AllGuardsHold(nombre: string, correo: string, pass: string, pass2: string)
    requires FirstFailure(RegisterGuards(nombre, correo, pass, pass2)).None?
    ensures nombre != [] && pass != [] && !HasSpaceChar(pass) && pass == pass2
    ensures correo != [] && !HasSpaceChar(correo) && IsInstitutionalEmail(correo)
  {
    var gs := RegisterGuards(nombre, correo, pass, pass2);
    FirstFailureSpec(gs);
    assert gs[0].holds && gs[1].holds && gs[2].holds && gs[3].holds;
  }

  /** A password mismatch is reported only once every other field has passed its checks. */
  lemma RegisterMismatchLast(name: string, email: string, password: string, confirm: string, lower: bool)
    requires RegisterCheck(name, email, password, confirm, lower) == Some(PasswordMismatch)
    ensures Trim(password) != Trim(confirm)
    ensures IsInstitutionalEmail(NormalizeEmail(email, lower))
    ensures !AllSpace(name) && !AllSpace(password) && !HasSpaceChar(Trim(password))
  {
    MismatchGuardLast(Trim(name), NormalizeEmail(email, lower), Trim(password), Trim(confirm));
  }

  /**
   * An accepted form has an institutional, whitespace-free e-mail (lower case when
   * lower-casing is on), a non-blank name and two equal, non-empty, space-free passwords.
   */
  lemma RegisterAccepted(name: string, email: string, password: string, confirm: string, lower: bool)
    requires RegisterCheck(name, email, password, confirm, lower).None?
    ensures var correo := NormalizeEmail(email, lower);
      && IsInstitutionalEmail(correo)
      && (lower ==> IsLower(correo))
      && (forall i :: 0 <= i < |correo| ==> !IsSpace(correo[i]))
    ensures Trim(password) == Trim(confirm) != [] && !HasSpaceChar(Trim(password))
    ensures !AllSpace(name)
  {
    var correo := NormalizeEmail(email, lower);
    AllGuardsHold(Trim(name), correo, Trim(password), Trim(confirm));
    InstitutionalHasNoSpace(correo);
    NormalizedEmail(email, lower);
  }

  /**
   * Spaces inside the name are never checked: any two names that are not blank give the
   * same verdict on the same other fields.
   */
  lemma NameNotChecked(name1: string, name2: string, email: string, password: string, confirm: string, lower: bool)
    requires !AllSpace(name1) && !AllSpace(name2)
    ensures RegisterCheck(name1, email, password, confirm, lower) == RegisterCheck(name2, email, password, confirm, lower)
  {
    var correo, pass, pass2 := NormalizeEmail(email, lower), Trim(password), Trim(confirm);
    assert RegisterGuards(Trim(name1), correo, pass, pass2) == RegisterGuards(Trim(name2), correo, pass, pass2);
  }

  /** The body of the send-code request, with `type: "register"`. */
  datatype CodeRequest = CodeRequest(name: string, email: string)

  /** The body of the registration request. */
  datatype RegistrationBody = RegistrationBody(name: string, email: string, password: string, role: string)

  const StudentRole: string := "2"

  /** `handleVerifySuccess`'s body, built again from the fields as they stand. */
  function RegistrationBodyOf(name: string, email: string, password: string): RegistrationBody {
    RegistrationBody(ToLower(Trim(name)), ToLower(Trim(email)), Trim(password), StudentRole)
  }

  /**
   * After an accepted form, the registration body carries the role "2", the e-mail the
   * code was sent to, a trimmed lower-case name that is the code request's name
   * lower-cased, and the password both fields agreed on.
   */
  lemma RegistrationFollowsCode(name: string, email: string, password: string, confirm: string)
    requires RegisterCheck(name, email, password, confirm, true).None?
    ensures var body := RegistrationBodyOf(name, email, password);
      && body.role == "2"
      && body.email == NormalizeEmail(email, true) && IsInstitutionalEmail(body.email)
      && body.name == ToLower(Trim(name)) && IsLower(body.name) && Trim(body.name) == body.name
      && body.name != []
      && body.password == Trim(password) == Trim(confirm)
  {
    RegisterAccepted(name, email, password, confirm, true);
    NormalizedEmail(name, true);
  }

  class CreateAccountView {
    var name: string
    var email: string
    var password: string
    var confirmPassword: string
    var showConfirm: bool

    constructor ()
      ensures name == [] && email == [] && password == [] && confirmPassword == [] && !showConfirm
    {
      name, email, password, confirmPassword := [], [], [], [];
      showConfirm := false;
    }

    /**
     * `handleSubmitRegister`: a local failure only raises its toast, keeping every field;
     * otherwise the code is requested, and the dialog opens only if the server reports
     * success (`sent`).
     */
    method HandleSubmitRegister(sent: bool) returns (failure: Option<Failure>, request: Option<CodeRequest>)
      modifies this`showConfirm
      ensures failure == RegisterCheck(old(name), old(email), old(password), old(confirmPassword), true)
      ensures request.Some? <==> failure.None?
      ensures request.Some? ==> request.value == CodeRequest(Trim(old(name)), NormalizeEmail(old(email), true))
      ensures showConfirm == (old(showConfirm) || (request.Some? && sent))
    {
      failure := RegisterCheck(name, email, password, confirmPassword, true);
      if failure.Some? {
        return failure, None;
      }
      request := Some(CodeRequest(Trim(name), NormalizeEmail(email, true)));
      if sent {
        showConfirm := true;
      }
    }

    /** `handleVerifySuccess`: the registration body from the current fields. */
    method HandleVerifySuccess() returns (body: RegistrationBody)
      ensures body == RegistrationBodyOf(name, email, password)
    {
      body := RegistrationBody(ToLower(Trim(name)), ToLower(Trim(email)), Trim(password), StudentRole);
    }
  }
}
