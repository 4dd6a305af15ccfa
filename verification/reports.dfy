/**
 * A violence-incident report as the views receive it from the backend, and the
 * resolution of its identifier (`extractId` in the personal history view).
 */
module Reports {
  import opened Options

  /** A local calendar month, 0 for January to 11 for December, as `Date.prototype.getMonth` gives it. */
  type Month = m: int | 0 <= m < 12

  /** What `new Date(text)` yields for a valid date: a millisecond timestamp and its local month. */
  datatype Instant = Instant(time: int, month: Month)

  /** A date field: its raw text ("" when absent) and what `new Date` makes of it (`None`: Invalid Date). */
  datatype Stamp = Stamp(text: string, parsed: Option<Instant>)

  /**
   * The shapes the `_id` field takes: absent or falsy, a plain string, or an object
   * that may carry a `$oid` string and always has a `toString()` result.
   */
  datatype IdField =
    | NoId
    | IdString(s: string)
    | IdObject(oid: Option<string>, text: string)

  /** The `age` field as a stored record holds it: absent (`undefined`), `null`, or a number of years. */
  datatype Age = Undefined | Null | Years(n: int)

  /**
   * The number a relational comparison such as `age <= 18` coerces an age to:
   * `undefined` becomes `NaN` (`None`, failing every comparison) and `null` becomes 0.
   */
  function AgeNumber(a: Age): Option<int> {
    match a
    case Undefined => None
    case Null => Some(0)
    case Years(n) => Some(n)
  }

  /**
   * A report record; `id` is the legacy identifier some records carry instead of `_id`.
   * A text field the record lacks (`category`, `zone`, `userEmail`, `description`) is
   * modelled as the empty text "", which every view here treats like a missing value.
   */
  datatype Report = Report(
    dbId: IdField,
    id: Option<string>,
    userEmail: string,
    age: Age,
    date: Stamp,
    creationTime: Stamp,
    category: string,
    description: string,
    zone: string
  )

  /** A JavaScript string is truthy when it is not empty. */
  predicate Truthy(s: Option<string>) {
    s.Some? && s.value != ""
  }

  /**
   * `extractId`: a non-empty string `_id` as it is, else `_id.$oid`, else `_id.toString()`,
   * else the legacy `id`, else nothing.
   */
  function ExtractId(dbId: IdField, legacy: Option<string>): (r: Option<string>)
    ensures r.None? <==> (dbId.NoId? || dbId == IdString("")) && !Truthy(legacy)
    ensures dbId.IdString? && dbId.s != "" ==> r == Some(dbId.s)
    ensures dbId.IdObject? ==> r == (if Truthy(dbId.oid) then dbId.oid else Some(dbId.text))
    ensures (dbId.NoId? || dbId == IdString("")) && Truthy(legacy) ==> r == legacy
  {
    match dbId
    case IdString(s) =>
      if s != "" then Some(s) else if Truthy(legacy) then legacy else None
    case IdObject(oid, text) =>
      if Truthy(oid) then oid else Some(text)
    case NoId =>
      if Truthy(legacy) then legacy else None
  }

  /** `extractId(report)` on a possibly null report. */
  function ReportId(report: Option<Report>): (r: Option<string>)
    ensures report.None? ==> r.None?
  {
    if report.None? then None else ExtractId(report.value.dbId, report.value.id)
  }

  /** The guard `if (!id)`: a missing or empty identifier is refused before any request. */
  predicate UsableId(id: Option<string>) {
    Truthy(id)
  }

  /** An `_id` object always resolves to some text, so the legacy `id` is never consulted for it. */
  lemma ObjectIdIgnoresLegacy(oid: Option<string>, text: string, a: Option<string>, b: Option<string>)
    ensures ExtractId(IdObject(oid, text), a) == ExtractId(IdObject(oid, text), b)
    ensures ExtractId(IdObject(oid, text), a).Some?
  {
  }

  /** A resolved identifier always comes from one of the four shapes. */
  lemma ExtractIdSource(dbId: IdField, legacy: Option<string>)
    requires ExtractId(dbId, legacy).Some?
    ensures var v := ExtractId(dbId, legacy).value;
      || (dbId.IdString? && v == dbId.s)
      || (dbId.IdObject? && (dbId.oid == Some(v) || v == dbId.text))
      || legacy == Some(v)
  {
  }
}
