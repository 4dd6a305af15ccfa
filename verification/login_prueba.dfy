/**
 * The back-end-free sign-in view: the same three guards as the sign-in view, run on a
 * trimmed but not lower-cased e-mail, each failure resetting both fields; success only
 * moves on to the map.
 */
module LoginPrueba {
  import opened Options
  import opened Text
  import opened Validation
  import opened Login

  /**
   * This view runs the sign-in chain with lower-casing off. Everything it accepts the
   * sign-in view accepts too (`Login.LoweringAcceptsMore`), but not the converse: some
   * address only the sign-in view accepts.
   */
  lemma AcceptsStrictlyLess()
    ensures exists e, p :: LoginCheck(e, p, false).Some? && LoginCheck(e, p, true).None?
  {
    var e := UpperDomainExample();
    var p := PlainPassword();
    LoweringDecides(e, p);
  }

  /** The view's outcome: stay with an error toast, or move on to `/mapPrueba`. */
  datatype Outcome = Stay(failure: Failure) | GoToMap

  class LoginPruebaView {
    var email: string
    var password: string

    constructor ()
      ensures email == [] && password == []
    {
      email, password := [], [];
    }

    /**
     * `handleLoginClick`: the first failing guard resets both fields; when none fails the
     * fields are kept and the view navigates, with no request sent.
     */
    method HandleLoginClick() returns (outcome: Outcome)
      modifies this
      ensures outcome.Stay? <==> LoginCheck(old(email), old(password), false).Some?
      ensures outcome.Stay? ==> outcome.failure == LoginCheck(old(email), old(password), false).value
      ensures outcome.Stay? ==> email == [] && password == []
      ensures outcome.GoToMap? ==> email == old(email) && password == old(password)
    {
      var failure := LoginCheck(email, password, false);
      if failure.Some? {
        email, password := [], [];
        return Stay(failure.value);
      }
      outcome := GoToMap;
    }
  }
}
