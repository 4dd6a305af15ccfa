/**
 * The report form: six text fields, the submission chain (five required fields, the
 * institutional e-mail, a positive age, a date between 2000-01-01 and now), the
 * confirmation dialog it opens, and the reset once the report is confirmed.
 */
module ReportForm {
  import opened Options
  import opened Text
  import opened Validation

  /** `new Date("2000-01-01")`: a date-only string is read as midnight UTC, in milliseconds. */
  const MinDate: int := 946_684_800_000

  predicate AllDigits(s: string) {
    forall i :: 0 <= i < |s| ==> IsDigit(s[i])
  }

  /** The value of a run of decimal digits. */
  function DigitsValue(s: string): nat
    requires AllDigits(s)
  {
    if s == [] then 0 else 10 * DigitsValue(s[..|s| - 1]) + (s[|s| - 1] as int - '0' as int)
  }

  /**
   * `Number(s)` on the integer forms a number input produces: surrounding whitespace is
   * ignored, a blank string is 0, an optional sign precedes the digits, and anything else
   * is `NaN` (`None`).
   */
  function NumberOf(s: string): Option<int> {
    var t := Trim(s);
    if t == [] then Some(0)
    else if |t| > 1 && (t[0] == '+' || t[0] == '-') && AllDigits(t[1..]) then
      var v: int := DigitsValue(t[1..]);
      Some(if t[0] == '-' then -v else v)
    else if AllDigits(t) then Some(DigitsValue(t))
    else None
  }

  function DigitChar(d: nat): char
    requires d < 10
  {
    ('0' as int + d) as char
  }

  /** The decimal numeral of `n`, as a number input shows it. */
  function Decimal(n: nat): (r: string)
    ensures |r| > 0 && AllDigits(r)
  {
    if n < 10 then [DigitChar(n)] else Decimal(n / 10) + [DigitChar(n % 10)]
  }

  lemma {:induction false} DigitsValueDecimal(n: nat)
    ensures DigitsValue(Decimal(n)) == n
  {
    if n >= 10 {
      DigitsValueDecimal(n / 10);
      assert Decimal(n)[..|Decimal(n)| - 1] == Decimal(n / 10);
    }
  }

  /** Reading the numeral of `n` back gives `n`: the age field's round trip. */
  lemma NumberOfDecimal(n: nat)
    ensures NumberOf(Decimal(n)) == Some(n)
  {
    var d := Decimal(n);
    DigitNotSpace(d[0]);
    DigitNotSpace(d[|d| - 1]);
    TrimUnchanged(d);
    DigitsValueDecimal(n);
    assert d[0] != '+' && d[0] != '-';
  }

  /** The six fields of the form, as typed. */
  datatype Fields = Fields(name: string, email: string, age: string, date: string, kind: string, description: string)

  const EmptyFields: Fields := Fields([], [], [], [], [], [])

  /** The five guards of the submission chain, in order, from the verdict of each check. */
  function ReportChain(filled: bool, institutional: bool, ageOk: bool, notEarly: bool, notLate: bool): seq<Guard> {
    [ Guard(filled, Required),
      Guard(institutional, NotInstitutional),
      Guard(ageOk, InvalidAge),
      Guard(notEarly, DateTooEarly),
      Guard(notLate, DateInFuture) ]
  }

  /** The chain reports the first check that fails, in the order the handler runs them. */
  lemma ReportChainOrder(filled: bool, institutional: bool, ageOk: bool, notEarly: bool, notLate: bool)
    ensures FirstFailure(ReportChain(filled, institutional, ageOk, notEarly, notLate)) ==
      if !filled then Some(Required)
      else if !institutional then Some(NotInstitutional)
      else if !ageOk then Some(InvalidAge)
      else if !notEarly then Some(DateTooEarly)
      else if !notLate then Some(DateInFuture)
      else None
  {
    var gs := ReportChain(filled, institutional, ageOk, notEarly, notLate);
    if !filled {
      FirstFailureAt(gs, 0);
    } else if !institutional {
      FirstFailureAt(gs, 1);
    } else if !ageOk {
      FirstFailureAt(gs, 2);
    } else if !notEarly {
      FirstFailureAt(gs, 3);
    } else if !notLate {
      FirstFailureAt(gs, 4);
    } else {
      FirstFailureNone(gs);
    }
  }

  predicate Filled(f: Fields) {
    Trim(f.name) != [] && Trim(f.email) != [] && Trim(f.age) != [] && Trim(f.date) != [] && Trim(f.kind) != []
  }

  predicate PositiveAge(age: string) {
    NumberOf(age).Some? && NumberOf(age).value > 0
  }

  /**
   * The submission chain. `parsed` is the date field read as a `Date` (`None` for an
   * invalid date) and `now` the current time, both in milliseconds. A comparison with an
   * invalid date is false, so neither date guard fails on one.
   */
  function ReportGuards(f: Fields, parsed: Option<int>, now: int): seq<Guard> {
    ReportChain(
      Filled(f),
      IsInstitutionalEmail(f.email),
      PositiveAge(f.age),
      !(parsed.Some? && parsed.value < MinDate),
      !(parsed.Some? && parsed.value > now))
  }

  function ReportCheck(f: Fields, parsed: Option<int>, now: int): Option<Failure> {
    FirstFailure(ReportGuards(f, parsed, now))
  }

  /** A required field that is blank after trimming fails first; the description is not required. */
  lemma ReportBlankFirst(f: Fields, parsed: Option<int>, now: int)
    requires AllSpace(f.name) || AllSpace(f.email) || AllSpace(f.age) || AllSpace(f.date) || AllSpace(f.kind)
    ensures ReportCheck(f, parsed, now) == Some(Required)
  {
    assert !Filled(f);
    ReportChainOrder(false, IsInstitutionalEmail(f.email), PositiveAge(f.age),
      !(parsed.Some? && parsed.value < MinDate), !(parsed.Some? && parsed.value > now));
  }

  /** The description is never checked: it does not change the verdict. */
  lemma DescriptionOptional(f: Fields, description: string, parsed: Option<int>, now: int)
    ensures ReportCheck(f.(description := description), parsed, now) == ReportCheck(f, parsed, now)
  {
    assert Filled(f.(description := description)) == Filled(f);
  }

  /**
   * An accepted form has an institutional e-mail exactly as typed (case-sensitive, no
   * surrounding whitespace), a positive age, and a date that is either between 2000-01-01
   * and now or not a valid date at all.
   */
  lemma ReportAccepted(f: Fields, parsed: Option<int>, now: int)
    requires ReportCheck(f, parsed, now).None?
    ensures IsInstitutionalEmail(f.email) && Trim(f.email) == f.email
    ensures NumberOf(f.age).Some? && NumberOf(f.age).value > 0
    ensures parsed.Some? ==> MinDate <= parsed.value <= now
  {
    ReportChainOrder(Filled(f), IsInstitutionalEmail(f.email), PositiveAge(f.age),
      !(parsed.Some? && parsed.value < MinDate), !(parsed.Some? && parsed.value > now));
    InstitutionalTrimmed(f.email);
  }

  /** An age the field reads as zero, negative or not a number fails, once the earlier checks pass. */
  lemma NonPositiveAgeRejected(f: Fields, parsed: Option<int>, now: int)
    requires Filled(f) && IsInstitutionalEmail(f.email)
    requires !PositiveAge(f.age)
    ensures ReportCheck(f, parsed, now) == Some(InvalidAge)
  {
    ReportChainOrder(Filled(f), IsInstitutionalEmail(f.email), PositiveAge(f.age),
      !(parsed.Some? && parsed.value < MinDate), !(parsed.Some? && parsed.value > now));
  }

  /**
   * An invalid date passes both date guards: the verdict does not depend on `now` and is
   * never a date failure.
   */
  lemma InvalidDatePasses(f: Fields, now1: int, now2: int)
    ensures ReportCheck(f, None, now1) == ReportCheck(f, None, now2)
    ensures ReportCheck(f, None, now1) != Some(DateTooEarly) && ReportCheck(f, None, now1) != Some(DateInFuture)
  {
    ReportChainOrder(Filled(f), IsInstitutionalEmail(f.email), PositiveAge(f.age), true, true);
  }

  /** A valid date before 2000-01-01 fails as too early, once the earlier checks pass. */
  lemma EarlyDateRejected(f: Fields, at: int, now: int)
    requires Filled(f) && IsInstitutionalEmail(f.email) && PositiveAge(f.age)
    requires at < MinDate
    ensures ReportCheck(f, Some(at), now) == Some(DateTooEarly)
  {
    ReportChainOrder(Filled(f), IsInstitutionalEmail(f.email), PositiveAge(f.age), !(at < MinDate), !(at > now));
  }

  /** A valid date after now fails as in the future, once every earlier check passes. */
  lemma FutureDateRejected(f: Fields, at: int, now: int)
    requires Filled(f) && IsInstitutionalEmail(f.email) && PositiveAge(f.age)
    requires MinDate <= at && at > now
    ensures ReportCheck(f, Some(at), now) == Some(DateInFuture)
  {
    ReportChainOrder(Filled(f), IsInstitutionalEmail(f.email), PositiveAge(f.age), !(at < MinDate), !(at > now));
  }

  class ReportView {
    var name: string
    var email: string
    var age: string
    var date: string
    var kind: string
    var description: string
    var showConfirm: bool

    function Form(): Fields
      reads this
    {
      Fields(name, email, age, date, kind, description)
    }

    constructor ()
      ensures Form() == EmptyFields && !showConfirm
    {
      name, email, age, date, kind, description := [], [], [], [], [], [];
      showConfirm := false;
    }

    /** `handleSubmit`: the confirmation opens only when every guard passes; no field changes. */
    method HandleSubmit(parsed: Option<int>, now: int) returns (failure: Option<Failure>)
      modifies this`showConfirm
      ensures failure == ReportCheck(Form(), parsed, now)
      ensures showConfirm == (old(showConfirm) || failure.None?)
    {
      failure := ReportCheck(Form(), parsed, now);
      if failure.None? {
        showConfirm := true;
      }
    }

    /** `confirmSubmit`: all six fields become empty and the confirmation closes. */
    method ConfirmSubmit()
      modifies this
      ensures Form() == EmptyFields && !showConfirm
    {
      name, email, age, date, kind, description := [], [], [], [], [], [];
      showConfirm := false;
    }
  }
}
