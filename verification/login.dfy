/**
 * The sign-in view: two fields, the local guard chain run on their normalised values, the
 * reset that follows every local failure, and the login request whose reply may set the
 * session.
 */
module Login {
  import opened Options
  import opened Text
  import opened Validation
  import opened SessionStore

  /** The body of the login request. */
  datatype Credentials = Credentials(email: string, password: string)

  /** What the server does with the request; the view reads only these four outcomes. */
  datatype LoginReply =
    | HttpError                                   // `!res.ok`
    | Rejected                                    // `data.success` is falsy
    | Accepted(session: Option<Session>)          // `data.success`, with `data.session`
    | Unreachable                                 // the request or the JSON parse throws

  /** The three local guards on the normalised e-mail and password, in order. */
  function LoginGuards(correo: string, pass: string): seq<Guard> {
    [ Guard(correo != [] && pass != [], Required),
      Guard(!HasSpaceChar(correo) && !HasSpaceChar(pass), InternalSpace),
      Guard(IsInstitutionalEmail(correo), NotInstitutional) ]
  }

  /** The local verdict on the raw fields; `lower` is whether the e-mail is lower-cased. */
  function LoginCheck(email: string, password: string, lower: bool): Option<Failure> {
    FirstFailure(LoginGuards(NormalizeEmail(email, lower), Trim(password)))
  }

  /**
   * A field that is blank after trimming fails first, whatever the other field holds; a
   * passing e-mail is trimmed, lower case when lower-casing is on, free of whitespace and
   * institutional, and a passing password is non-empty and free of plain spaces.
   */
  lemma LoginCheckSpec(email: string, password: string, lower: bool)
    ensures AllSpace(email) || AllSpace(password) ==> LoginCheck(email, password, lower) == Some(Required)
    ensures LoginCheck(email, password, lower).None? ==>
      var correo := NormalizeEmail(email, lower);
      && correo == Trim(correo)
      && (lower ==> IsLower(correo))
      && IsInstitutionalEmail(correo)
      && (forall i :: 0 <= i < |correo| ==> !IsSpace(correo[i]))
      && Trim(password) != [] && !HasSpaceChar(Trim(password))
  {
    NormalizedEmail(email, lower);
    var correo, pass := NormalizeEmail(email, lower), Trim(password);
    var gs := LoginGuards(correo, pass);
    if AllSpace(email) || AllSpace(password) {
      FirstFailureAt(gs, 0);
    }
    if FirstFailure(gs).None? {
      FirstFailureSpec(gs);
      assert gs[1].holds && gs[2].holds;
      InstitutionalHasNoSpace(correo);
    }
  }

  /**
   * Lower-casing never turns an accepted sign-in into a rejected one: whatever the
   * un-lowered chain accepts, the lowered chain accepts too.
   */
  lemma LoweringAcceptsMore(email: string, password: string)
    requires LoginCheck(email, password, false).None?
    ensures LoginCheck(email, password, true).None?
  {
    var t, pass := Trim(email), Trim(password);
    FirstFailureSpec(LoginGuards(t, pass));
    assert LoginGuards(t, pass)[0].holds && LoginGuards(t, pass)[1].holds && LoginGuards(t, pass)[2].holds;
    LowerKeepsValidEmail(t);
    FirstFailureSpec(LoginGuards(ToLower(t), pass));
  }

  lemma LoginGuardsPass(correo: string, pass: string)
    requires correo != [] && pass != [] && !HasSpaceChar(correo) && !HasSpaceChar(pass)
    requires IsInstitutionalEmail(correo)
    ensures FirstFailure(LoginGuards(correo, pass)) == None
  {
    FirstFailureNone(LoginGuards(correo, pass));
  }

  /** A lower-cased institutional address has an un-lowered counterpart that is just as non-blank and space-free. */
  lemma LoweredGuardFacts(t: string)
    requires IsInstitutionalEmail(ToLower(t))
    ensures ToLower(t) != [] && !HasSpaceChar(ToLower(t))
    ensures t != [] && !HasSpaceChar(t)
  {
    InstitutionalHasNoSpace(ToLower(t));
    LowerKeepsSpaces(t);
  }

  /**
   * An address that is institutional only once lower-cased, with a valid password, is
   * accepted where the e-mail is lower-cased and refused as non-institutional where it is not.
   */
  lemma LoweringDecides(email: string, password: string)
    requires IsInstitutionalEmail(ToLower(Trim(email))) && !IsInstitutionalEmail(Trim(email))
    requires Trim(password) != [] && !HasSpaceChar(Trim(password))
    ensures LoginCheck(email, password, true) == None
    ensures LoginCheck(email, password, false) == Some(NotInstitutional)
  {
    var t, pass := Trim(email), Trim(password);
    LoweredGuardFacts(t);
    LoginGuardsPass(ToLower(t), pass);
    LoginGuardsKept(t, pass);
  }

  lemma LoginGuardsKept(correo: string, pass: string)
    requires correo != [] && pass != [] && !HasSpaceChar(correo) && !HasSpaceChar(pass)
    requires !IsInstitutionalEmail(correo)
    ensures FirstFailure(LoginGuards(correo, pass)) == Some(NotInstitutional)
  {
    FirstFailureAt(LoginGuards(correo, pass), 2);
  }

  class LoginView {
    var email: string
    var password: string

    constructor ()
      ensures email == [] && password == []
    {
      email, password := [], [];
    }

    /** `resetCampos`: both fields become empty. */
    method ResetFields()
      modifies this
      ensures email == [] && password == []
    {
      email, password := [], [];
    }

    /**
     * `handleLoginClick`: normalise, run the guards in order, resetting both fields on the
     * first failure; only when all pass is the request sent, and only an accepted reply
     * sets the session, to exactly what the server sent. A server-side failure keeps the
     * fields as typed.
     */
    method HandleLoginClick(reply: LoginReply, store: Store) returns (failure: Option<Failure>, request: Option<Credentials>)
      modifies this, store
      ensures failure == LoginCheck(old(email), old(password), true)
      ensures request.Some? <==> failure.None?
      ensures request.Some? ==> request.value == Credentials(NormalizeEmail(old(email), true), Trim(old(password)))
      ensures failure.Some? ==> email == [] && password == []
      ensures failure.None? ==> email == old(email) && password == old(password)
      ensures store.session == if request.Some? && reply.Accepted? then reply.session else old(store.session)
    {
      failure := LoginCheck(email, password, true);
      if failure.Some? {
        request := None;
        ResetFields();
        return;
      }
      request := Some(Credentials(NormalizeEmail(email, true), Trim(password)));
      if reply.Accepted? {
        store.SetSession(reply.session);
      }
    }
  }
}
