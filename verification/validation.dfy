/**
 * The shape shared by every form handler: an ordered chain of guards, each raising its
 * own toast, where the first guard that fails stops the handler; and the normalisation
 * the forms apply to an e-mail field before checking it.
 */
module Validation {
  import opened Options
  import opened Text

  /** The toast a failing guard raises. */
  datatype Failure =
    | Required          // an empty (or blank) required field
    | InternalSpace     // a plain space inside e-mail or password
    | NotInstitutional  // the e-mail does not match `^[^\s@]+@unal\.edu\.co$`
    | PasswordMismatch  // the two password fields differ
    | InvalidAge        // `isNaN(age) || Number(age) <= 0`
    | DateTooEarly      // the date is before 2000-01-01
    | DateInFuture      // the date is after now

  /** One `if (!ok) { toast.error(...); return; }` of a handler. */
  datatype Guard = Guard(holds: bool, failure: Failure)

  /** The position of the first guard that fails, or `|gs|` when all hold. */
  function FailingIndex(gs: seq<Guard>): (i: nat)
    ensures i <= |gs|
    ensures forall j :: 0 <= j < i ==> gs[j].holds
    ensures i < |gs| ==> !gs[i].holds
  {
    if gs == [] then 0
    else if !gs[0].holds then 0
    else 1 + FailingIndex(gs[1..])
  }

  /** The toast the chain ends on, or `None` when the handler runs to its end. */
  function FirstFailure(gs: seq<Guard>): Option<Failure> {
    var i := FailingIndex(gs);
    if i < |gs| then Some(gs[i].failure) else None
  }

  /**
   * A chain passes exactly when every guard holds; otherwise it fails with the failure of
   * a guard that does not hold, all guards before it holding.
   */
  lemma FirstFailureSpec(gs: seq<Guard>)
    ensures FirstFailure(gs).None? <==> forall j :: 0 <= j < |gs| ==> gs[j].holds
    ensures FirstFailure(gs).Some? ==>
      exists i :: 0 <= i < |gs| && !gs[i].holds && gs[i].failure == FirstFailure(gs).value
        && forall j :: 0 <= j < i ==> gs[j].holds
  {
    var i := FailingIndex(gs);
    if i < |gs| {
      assert !gs[i].holds && gs[i].failure == FirstFailure(gs).value;
    }
  }

  /** A chain fails at guard `i` when `i` is the first guard that does not hold. */
  lemma FirstFailureAt(gs: seq<Guard>, i: nat)
    requires i < |gs| && !gs[i].holds
    requires forall j :: 0 <= j < i ==> gs[j].holds
    ensures FirstFailure(gs) == Some(gs[i].failure)
  {
    var k := FailingIndex(gs);
    assert k == i;
  }

  /** A chain whose guards all hold lets the handler through. */
  lemma FirstFailureNone(gs: seq<Guard>)
    requires forall j :: 0 <= j < |gs| ==> gs[j].holds
    ensures FirstFailure(gs) == None
  {
    assert FailingIndex(gs) == |gs|;
  }

  /** Guards after the first `k` that all hold do not change the verdict. */
  lemma FirstFailurePrefix(gs: seq<Guard>, k: nat)
    requires k <= |gs|
    requires forall j :: k <= j < |gs| ==> gs[j].holds
    ensures FirstFailure(gs) == FirstFailure(gs[..k])
  {
    var b := FailingIndex(gs[..k]);
    if b < k {
      assert gs[..k][b] == gs[b];
      assert forall j :: 0 <= j < b ==> gs[..k][j] == gs[j];
      FirstFailureAt(gs, b);
    } else {
      forall j | 0 <= j < |gs|
        ensures gs[j].holds
      {
        if j < k {
          assert gs[..k][j] == gs[j];
        }
      }
      FirstFailureNone(gs);
    }
  }

  /** A chain whose first `k` guards hold fails as its remainder does. */
  lemma {:induction false} FirstFailureSkip(gs: seq<Guard>, k: nat)
    requires k <= |gs|
    requires forall j :: 0 <= j < k ==> gs[j].holds
    ensures FirstFailure(gs) == FirstFailure(gs[k..])
    decreases k
  {
    if k > 0 {
      assert gs[1..][k - 1..] == gs[k..];
      FirstFailureSkip(gs[1..], k - 1);
    }
  }

  /** `email.trim()`, followed by `.toLowerCase()` in the forms that call it. */
  function NormalizeEmail(email: string, lower: bool): string {
    if lower then ToLower(Trim(email)) else Trim(email)
  }

  /**
   * A normalised e-mail is already trimmed, is lower case when lower-casing is on, and is
   * empty exactly when the field held only whitespace.
   */
  lemma NormalizedEmail(email: string, lower: bool)
    ensures Trim(NormalizeEmail(email, lower)) == NormalizeEmail(email, lower)
    ensures lower ==> IsLower(NormalizeEmail(email, lower))
    ensures NormalizeEmail(email, lower) == [] <==> AllSpace(email)
  {
    TrimIdempotent(email);
    if lower {
      TrimLowerCommute(Trim(email));
      ToLowerIdempotent(Trim(email));
    }
  }

  /** Lower-casing neither adds nor removes a plain space. */
  lemma LowerKeepsSpaces(s: string)
    ensures HasSpaceChar(ToLower(s)) <==> HasSpaceChar(s)
  {
    var l := ToLower(s);
    if HasSpaceChar(s) {
      var i :| 0 <= i < |s| && s[i] == ' ';
      assert l[i] == ' ';
    }
    if HasSpaceChar(l) {
      var i :| 0 <= i < |l| && l[i] == ' ';
      assert s[i] == ' ';
    }
  }

  /**
   * Lower-casing keeps a field that passes the blank, space and institutional checks
   * passing them all.
   */
  lemma LowerKeepsValidEmail(s: string)
    requires s != [] && !HasSpaceChar(s) && IsInstitutionalEmail(s)
    ensures ToLower(s) != [] && !HasSpaceChar(ToLower(s)) && IsInstitutionalEmail(ToLower(s))
  {
    LowerKeepsSpaces(s);
    LowerKeepsInstitutional(s);
  }
}
