/**
 * The define-administrator view: one e-mail field, a blank check on its trimmed value, the
 * institutional pattern on its raw value, and the field cleared after success.
 */
module DefineAdmin {
  import opened Options
  import opened Text
  import opened Validation

  /** The blank check looks at the trimmed field; the pattern at the field exactly as typed. */
  function AdminGuards(email: string): seq<Guard> {
    [ Guard(Trim(email) != [], Required),
      Guard(IsInstitutionalEmail(email), NotInstitutional) ]
  }

  function AdminCheck(email: string): Option<Failure> {
    FirstFailure(AdminGuards(email))
  }

  /** A field holding only whitespace fails as required. */
  lemma AdminBlankFirst(email: string)
    requires AllSpace(email)
    ensures AdminCheck(email) == Some(Required)
  {
    FirstFailureAt(AdminGuards(email), 0);
  }

  lemma AdminGuardsPass(email: string)
    requires Trim(email) != [] && IsInstitutionalEmail(email)
    ensures AdminCheck(email).None?
  {
    FirstFailureNone(AdminGuards(email));
  }

  /** The field is accepted exactly when it is an institutional address as typed. */
  lemma AdminAccepts(email: string)
    ensures AdminCheck(email).None? <==> IsInstitutionalEmail(email)
  {
    var gs := AdminGuards(email);
    if IsInstitutionalEmail(email) {
      InstitutionalHasNoSpace(email);
      AdminGuardsPass(email);
    } else {
      assert !gs[1].holds;
      assert FailingIndex(gs) < 2;
    }
  }

  /**
   * The pattern runs on the field as typed: whitespace around an address is refused, and
   * an accepted address has none for the blank check's trim to remove.
   */
  lemma AdminUntrimmed(email: string)
    ensures |email| > 0 && IsSpace(email[0]) ==> AdminCheck(email).Some?
    ensures |email| > 0 && IsSpace(email[|email| - 1]) ==> AdminCheck(email).Some?
    ensures AdminCheck(email).None? ==> Trim(email) == email
  {
    AdminAccepts(email);
    if IsInstitutionalEmail(email) {
      InstitutionalHasNoSpace(email);
    }
  }

  /** Upper case is not lowered here: an upper-case domain is refused as non-institutional. */
  lemma UpperCaseRefused()
    ensures AdminCheck("ana@UNAL.EDU.CO") == Some(NotInstitutional)
  {
    TrimUnchanged("ana@UNAL.EDU.CO");
    UpperDomainRefused();
    FirstFailureAt(AdminGuards("ana@UNAL.EDU.CO"), 1);
  }

  class DefineAdminView {
    var email: string

    constructor ()
      ensures email == []
    {
      email := [];
    }

    /** `handleSubmit`: a failure leaves the field as typed; success clears it. */
    method HandleSubmit() returns (failure: Option<Failure>)
      modifies this
      ensures failure == AdminCheck(old(email))
      ensures email == if failure.None? then [] else old(email)
    {
      failure := AdminCheck(email);
      if failure.None? {
        email := [];
      }
    }
  }
}
