/**
 * The statistics dashboard: per-category and per-zone counts cut to the top five, the
 * monthly trend over the trailing year, the yearly trend, the age-range distribution,
 * the peak month, and the summary fallbacks. Every figure is a counting dictionary
 * built by `reduce` and read back with `Object.entries`.
 */
module Statistics {
  import opened Options
  import opened Text
  import opened Reports
  import opened Histogram
  import Seqs

  const NotSpecified: string := "Not specified"
  const NotAvailable: string := "N/A"

  /** The report fields the dashboard groups by. */
  datatype Field = CategoryOf | ZoneOf | MonthOf | YearOf | AgeGroupOf

  /** `s.slice(0, n)`. */
  function Prefix(s: string, n: nat): (r: string)
    ensures |r| <= n && r <= s
    ensures |s| >= n ==> |r| == n
  {
    if |s| <= n then s else s[..n]
  }

  /** `groupAge(age)`; an undefined age fails every `<=` comparison, a `null` age compares as 0. */
  function GroupAge(age: Age): string {
    var n := AgeNumber(age);
    if n.Some? && n.value <= 18 then "Under 18"
    else if n.Some? && n.value <= 22 then "18-22 years"
    else if n.Some? && n.value <= 26 then "23-26 years"
    else if n.Some? && n.value <= 30 then "27-30 years"
    else "Over 30"
  }

  /** The order in which the age ranges are listed. */
  const AgeOrder: seq<string> := ["Under 18", "18-22 years", "23-26 years", "27-30 years", "Over 30"]

  /** The dictionary key a report is counted under, for each grouping. */
  function KeyOf(r: Report, f: Field): string {
    match f
    case CategoryOf => if r.category == "" then NotSpecified else r.category
    case ZoneOf => if r.zone == "" then NotSpecified else r.zone
    case MonthOf => Prefix(r.date.text, 7)
    case YearOf => Prefix(r.date.text, 4)
    case AgeGroupOf => GroupAge(r.age)
  }

  function Keys(rs: seq<Report>, f: Field): (keys: seq<string>)
    ensures |keys| == |rs| && forall i :: 0 <= i < |rs| ==> keys[i] == KeyOf(rs[i], f)
  {
    seq(|rs|, i requires 0 <= i < |rs| => KeyOf(rs[i], f))
  }

  /** The counting dictionary for one grouping, entries in first-encountered order. */
  function Counts(rs: seq<Report>, f: Field): seq<Bucket<string>> {
    Tallied(Keys(rs, f))
  }

  // ---------------------------------------------------------------------------
  // Top five categories and locations
  // ---------------------------------------------------------------------------

  function Top5(rs: seq<Report>, f: Field): seq<Bucket<string>> {
    Top(Counts(rs, f), 5)
  }

  /** Counting one more report bumps its key in the dictionary built so far. */
  lemma CountsSnoc(rs: seq<Report>, r: Report, f: Field)
    ensures Counts(rs + [r], f) == Bump(Counts(rs, f), KeyOf(r, f))
  {
    var keys := Keys(rs + [r], f);
    assert keys[..|rs|] == Keys(rs, f);
    assert Tallied(keys) == Bump(Tallied(keys[..|rs|]), keys[|rs|]);
  }

  /**
   * Each report adds one to exactly its own key: a report without a category (or zone)
   * adds one under "Not specified", and the counts always sum to the number of reports.
   */
  lemma CountsStep(rs: seq<Report>, r: Report, f: Field)
    requires f == CategoryOf || f == ZoneOf
    ensures Total(Counts(rs + [r], f)) == |rs| + 1
    ensures forall k :: CountOf(Counts(rs + [r], f), k) == CountOf(Counts(rs, f), k) + (if k == KeyOf(r, f) then 1 else 0)
    ensures f == CategoryOf && r.category == "" ==> KeyOf(r, f) == NotSpecified
    ensures f == ZoneOf && r.zone == "" ==> KeyOf(r, f) == NotSpecified
  {
    CountsSnoc(rs, r, f);
    BumpTotal(Counts(rs, f), KeyOf(r, f));
    TalliedTotal(Keys(rs, f));
    forall k
      ensures CountOf(Counts(rs + [r], f), k) == CountOf(Counts(rs, f), k) + (if k == KeyOf(r, f) then 1 else 0)
    {
      BumpCount(Counts(rs, f), KeyOf(r, f), k);
    }
  }

  /**
   * `top5Categories`/`top5Locations`: at most five entries, non-increasing by count, each a
   * dictionary entry, none smaller than an entry left out, ties in first-encountered order;
   * the dictionary's counts sum to the number of reports.
   */
  lemma Top5Spec(rs: seq<Report>, f: Field)
    ensures Total(Counts(rs, f)) == |rs|
    ensures |Top5(rs, f)| <= 5
    ensures |rs| > 0 ==> |Top5(rs, f)| > 0
    ensures SortedByCount(Top5(rs, f))
    ensures forall b :: b in Top5(rs, f) ==> b in Counts(rs, f) && b.count == multiset(Keys(rs, f))[b.key]
    ensures forall b, i :: b in Counts(rs, f) && b !in Top5(rs, f) && 0 <= i < |Top5(rs, f)| ==>
              b.count <= Top5(rs, f)[i].count
    ensures forall c :: WithCount(Top5(rs, f), c) <= WithCount(Counts(rs, f), c)
  {
    TopSpec(Counts(rs, f), 5);
    TalliedTotal(Keys(rs, f));
    Top5NonEmpty(rs, f);
    Top5Counts(rs, f);
  }

  lemma Top5NonEmpty(rs: seq<Report>, f: Field)
    ensures |rs| > 0 ==> |Top5(rs, f)| > 0
  {
    if |rs| > 0 {
      var h := Counts(rs, f);
      TalliedKeys(Keys(rs, f));
      assert Keys(rs, f)[0] in Keys(rs, f);
      assert |h| > 0 by {
        assert Keys(rs, f)[0] in KeysOf(h);
      }
    }
  }

  lemma Top5Counts(rs: seq<Report>, f: Field)
    ensures forall b :: b in Top5(rs, f) ==> b.count == multiset(Keys(rs, f))[b.key]
  {
    var h := Counts(rs, f);
    TopFromDictionary(h, 5);
    TalliedKeys(Keys(rs, f));
    forall b | b in Top5(rs, f)
      ensures b.count == multiset(Keys(rs, f))[b.key]
    {
      var j :| 0 <= j < |h| && h[j] == b;
      TalliedEntry(Keys(rs, f), j);
    }
  }

  /** A category or zone key is never empty, since an empty field is counted as "Not specified". */
  lemma KeyNotEmpty(r: Report, f: Field)
    requires f == CategoryOf || f == ZoneOf
    ensures KeyOf(r, f) != ""
  {
    assert NotSpecified[0] == 'N';
  }

  /** `top5[0]?.key || 'N/A'`. */
  function MostCommon(rs: seq<Report>, f: Field): string {
    var t := Top5(rs, f);
    if t == [] || t[0].key == "" then NotAvailable else t[0].key
  }

  /**
   * The summary's most common category (or location) is "N/A" when there are no reports;
   * otherwise it is the first-encountered key among those with the largest count (which
   * may itself be the text "N/A").
   */
  lemma MostCommonSpec(rs: seq<Report>, f: Field)
    requires f == CategoryOf || f == ZoneOf
    ensures rs == [] ==> MostCommon(rs, f) == NotAvailable
    ensures rs != [] ==>
      && Counts(rs, f) != []
      && MostCommon(rs, f) == Counts(rs, f)[FirstMax(Counts(rs, f))].key
      && MostCommon(rs, f) in Keys(rs, f)
      && forall k :: multiset(Keys(rs, f))[k] <= multiset(Keys(rs, f))[MostCommon(rs, f)]
  {
    var keys := Keys(rs, f);
    var h := Counts(rs, f);
    if rs != [] {
      assert keys != [];
      TalliedFirstMax(keys);
      SortByCountHead(h);
      var m := h[FirstMax(h)].key;
      assert Top5(rs, f)[0] == h[FirstMax(h)];
      assert m != "" by {
        var j :| 0 <= j < |keys| && keys[j] == m;
        KeyNotEmpty(rs[j], f);
      }
    }
  }

  // ---------------------------------------------------------------------------
  // Monthly and yearly trends
  // ---------------------------------------------------------------------------

  /** `incDate >= oneYearAgo && incDate <= today`; an Invalid Date fails both comparisons. */
  predicate InWindow(r: Report, oneYearAgo: int, today: int) {
    r.date.parsed.Some? && oneYearAgo <= r.date.parsed.value.time <= today
  }

  /** `lastYearIncidents`. */
  function LastYear(rs: seq<Report>, oneYearAgo: int, today: int): seq<Report> {
    if rs == [] then []
    else (if InWindow(rs[0], oneYearAgo, today) then [rs[0]] else []) + LastYear(rs[1..], oneYearAgo, today)
  }

  /** The trailing-year reports are, in order, exactly the reports dated within the window. */
  lemma {:induction false} LastYearSpec(rs: seq<Report>, oneYearAgo: int, today: int, r: Report)
    ensures r in LastYear(rs, oneYearAgo, today) <==> r in rs && InWindow(r, oneYearAgo, today)
    ensures Seqs.IsSubsequence(LastYear(rs, oneYearAgo, today), rs)
  {
    if rs != [] {
      LastYearSpec(rs[1..], oneYearAgo, today, r);
      Seqs.ConsSubsequence(LastYear(rs[1..], oneYearAgo, today), rs, InWindow(rs[0], oneYearAgo, today));
      assert rs == [rs[0]] + rs[1..];
    }
  }

  const MonthAbbrev: seq<string> := ["Jan", "Feb", "Mar", "Apr", "May", "Jun", "Jul", "Aug", "Sep", "Oct", "Nov", "Dec"]

  /** A `YYYY-MM` key. */
  predicate IsMonthKey(k: string) {
    |k| == 7 && k[4] == '-' && IsDigit(k[0]) && IsDigit(k[1]) && IsDigit(k[2]) && IsDigit(k[3])
    && IsDigit(k[5]) && IsDigit(k[6])
  }

  /** The number written by a `YYYY-MM` key's two month digits. */
  function MonthNumber(k: string): int
    requires IsMonthKey(k)
  {
    10 * (k[5] as int - '0' as int) + (k[6] as int - '0' as int)
  }

  /**
   * The label `${monthNames[parseInt(MM) - 1]} ${YYYY.slice(2)}`: an out-of-range month
   * number indexes past the names and prints "undefined". Keys that are not `YYYY-MM`
   * are outside this model (`None`).
   */
  function MonthLabel(k: string): (r: Option<string>)
    ensures r.Some? <==> IsMonthKey(k)
  {
    if !IsMonthKey(k) then None
    else
      var m := MonthNumber(k);
      var name := if 1 <= m <= 12 then MonthAbbrev[m - 1] else "undefined";
      Some(name + " " + k[2..4])
  }

  /** Labels for three keys: an ordinary month, December, and a month number that names nothing. */
  lemma MonthLabelExamples()
    ensures MonthLabel("2024-05") == Some("May 24")
    ensures MonthLabel("1999-12") == Some("Dec 99")
    ensures MonthLabel("2023-13") == Some("undefined 23")
    ensures MonthLabel("2024-5") == None
  {
    var may, dec, bad := "2024-05", "1999-12", "2023-13";
    assert IsMonthKey(may) && MonthNumber(may) == 5 && may[2..4] == "24";
    assert MonthLabel(may) == Some(MonthAbbrev[4] + " " + "24");
    assert MonthAbbrev[4] + " " + "24" == "May 24";
    assert IsMonthKey(dec) && MonthNumber(dec) == 12 && dec[2..4] == "99";
    assert MonthLabel(dec) == Some(MonthAbbrev[11] + " " + "99");
    assert MonthAbbrev[11] + " " + "99" == "Dec 99";
    assert IsMonthKey(bad) && MonthNumber(bad) == 13 && bad[2..4] == "23";
    assert MonthLabel(bad) == Some("undefined" + " " + "23");
    assert "undefined" + " " + "23" == "undefined 23";
  }

  /** One point of the monthly trend. */
  datatype MonthPoint = MonthPoint(month: Option<string>, count: nat, fullDate: string)

  /** One point of the yearly trend. */
  datatype YearPoint = YearPoint(year: string, count: nat)

  function MonthlyCount(rs: seq<Report>, oneYearAgo: int, today: int): seq<Bucket<string>> {
    Counts(LastYear(rs, oneYearAgo, today), MonthOf)
  }

  /** `monthlyTrend`: the monthly dictionary sorted by key, each entry labelled. */
  function MonthlyTrend(rs: seq<Report>, oneYearAgo: int, today: int): (t: seq<MonthPoint>)
    ensures |t| == |MonthlyCount(rs, oneYearAgo, today)|
  {
    var s := SortByKey(MonthlyCount(rs, oneYearAgo, today));
    seq(|s|, i requires 0 <= i < |s| => MonthPoint(MonthLabel(s[i].key), s[i].count, s[i].key))
  }

  /** `yearlyTrend`: the yearly dictionary over all reports, sorted by key. */
  function YearlyTrend(rs: seq<Report>): (t: seq<YearPoint>)
    ensures |t| == |Counts(rs, YearOf)|
  {
    var s := SortByKey(Counts(rs, YearOf));
    seq(|s|, i requires 0 <= i < |s| => YearPoint(s[i].key, s[i].count))
  }

  function MonthPointsTotal(t: seq<MonthPoint>): nat {
    if t == [] then 0 else t[0].count + MonthPointsTotal(t[1..])
  }

  function YearPointsTotal(t: seq<YearPoint>): nat {
    if t == [] then 0 else t[0].count + YearPointsTotal(t[1..])
  }

  /** A dictionary sorted by key is strictly ascending and keeps the total. */
  lemma SortedTallyOrder(keys: seq<string>)
    ensures AscendingByKey(SortByKey(Tallied(keys)))
    ensures Total(SortByKey(Tallied(keys))) == |keys|
  {
    TalliedKeys(keys);
    TalliedSpec(keys);
    SortByKeySpec(Tallied(keys));
  }

  /** Each entry of a dictionary sorted by key holds a key that occurs, with its number of occurrences. */
  lemma SortedTallyEntry(keys: seq<string>, i: nat)
    requires i < |SortByKey(Tallied(keys))|
    ensures var b := SortByKey(Tallied(keys))[i];
      b.key in keys && b.count == multiset(keys)[b.key]
  {
    var h := Tallied(keys);
    var s := SortByKey(h);
    TalliedKeys(keys);
    PermutedEntry(h, s, i);
    TalliedSpec(keys);
  }

  lemma {:induction false} MonthPointsTotalIs(s: seq<Bucket<string>>, t: seq<MonthPoint>)
    requires |t| == |s| && forall i :: 0 <= i < |s| ==> t[i].count == s[i].count
    ensures MonthPointsTotal(t) == Total(s)
  {
    if s != [] {
      MonthPointsTotalIs(s[1..], t[1..]);
    }
  }

  lemma {:induction false} YearPointsTotalIs(s: seq<Bucket<string>>, t: seq<YearPoint>)
    requires |t| == |s| && forall i :: 0 <= i < |s| ==> t[i].count == s[i].count
    ensures YearPointsTotal(t) == Total(s)
  {
    if s != [] {
      YearPointsTotalIs(s[1..], t[1..]);
    }
  }

  /**
   * The monthly trend counts only reports dated within `[oneYearAgo, today]`: its points
   * are keyed by the 7-character date prefix, in strictly ascending key order, each
   * labelled from its key and counting the in-window reports with that prefix; their
   * counts sum to the number of in-window reports.
   */
  lemma MonthlyTrendSpec(rs: seq<Report>, oneYearAgo: int, today: int)
    ensures var t := MonthlyTrend(rs, oneYearAgo, today);
      var window := LastYear(rs, oneYearAgo, today);
      && (forall i :: 0 <= i < |t| - 1 ==> Precedes(t[i].fullDate, t[i + 1].fullDate))
      && MonthPointsTotal(t) == |window|
      && (forall i :: 0 <= i < |t| ==>
            && t[i].month == MonthLabel(t[i].fullDate)
            && t[i].fullDate in Keys(window, MonthOf)
            && t[i].count == multiset(Keys(window, MonthOf))[t[i].fullDate])
      && (forall r :: r in window ==> exists i :: 0 <= i < |t| && t[i].fullDate == Prefix(r.date.text, 7))
  {
    MonthlyTrendOrder(rs, oneYearAgo, today);
    MonthlyTrendPoints(rs, oneYearAgo, today);
    MonthlyTrendCovers(rs, oneYearAgo, today);
  }

  lemma MonthlyTrendOrder(rs: seq<Report>, oneYearAgo: int, today: int)
    ensures var t := MonthlyTrend(rs, oneYearAgo, today);
      && (forall i :: 0 <= i < |t| - 1 ==> Precedes(t[i].fullDate, t[i + 1].fullDate))
      && MonthPointsTotal(t) == |LastYear(rs, oneYearAgo, today)|
  {
    var keys := Keys(LastYear(rs, oneYearAgo, today), MonthOf);
    var s := SortByKey(Tallied(keys));
    var t := MonthlyTrend(rs, oneYearAgo, today);
    assert forall i :: 0 <= i < |t| ==> t[i] == MonthPoint(MonthLabel(s[i].key), s[i].count, s[i].key);
    SortedTallyOrder(keys);
    MonthPointsTotalIs(s, t);
  }

  lemma MonthlyTrendPoints(rs: seq<Report>, oneYearAgo: int, today: int)
    ensures var t := MonthlyTrend(rs, oneYearAgo, today);
      var keys := Keys(LastYear(rs, oneYearAgo, today), MonthOf);
      forall i :: 0 <= i < |t| ==>
        t[i].month == MonthLabel(t[i].fullDate) && t[i].fullDate in keys && t[i].count == multiset(keys)[t[i].fullDate]
  {
    var keys := Keys(LastYear(rs, oneYearAgo, today), MonthOf);
    var s := SortByKey(Tallied(keys));
    var t := MonthlyTrend(rs, oneYearAgo, today);
    assert forall i :: 0 <= i < |t| ==> t[i] == MonthPoint(MonthLabel(s[i].key), s[i].count, s[i].key);
    forall i | 0 <= i < |t|
      ensures t[i].fullDate in keys && t[i].count == multiset(keys)[t[i].fullDate]
    {
      SortedTallyEntry(keys, i);
    }
  }

  lemma MonthlyTrendCovers(rs: seq<Report>, oneYearAgo: int, today: int)
    ensures var t := MonthlyTrend(rs, oneYearAgo, today);
      forall r :: r in LastYear(rs, oneYearAgo, today) ==>
        exists i :: 0 <= i < |t| && t[i].fullDate == Prefix(r.date.text, 7)
  {
    var window := LastYear(rs, oneYearAgo, today);
    var t := MonthlyTrend(rs, oneYearAgo, today);
    forall r | r in window
      ensures exists i :: 0 <= i < |t| && t[i].fullDate == Prefix(r.date.text, 7)
    {
      var i := SortedTallyCovers(window, MonthOf, r);
      assert t[i].fullDate == Prefix(r.date.text, 7);
    }
  }

  /** Every report's key has a point in the key-sorted dictionary. */
  lemma SortedTallyCovers(rs: seq<Report>, f: Field, r: Report) returns (i: nat)
    requires r in rs
    ensures i < |SortByKey(Counts(rs, f))| && SortByKey(Counts(rs, f))[i].key == KeyOf(r, f)
  {
    var keys := Keys(rs, f);
    var j :| 0 <= j < |rs| && rs[j] == r;
    assert keys[j] in keys;
    var h := Tallied(keys);
    var s := SortByKey(h);
    var k := TalliedIndex(keys, keys[j]);
    i := PermutedIndex(h, s, k);
  }

  /**
   * The yearly trend covers every report: its points are keyed by the 4-character date
   * prefix, in strictly ascending key order, each counting the reports with that prefix,
   * and their counts sum to the number of reports.
   */
  lemma YearlyTrendSpec(rs: seq<Report>)
    ensures var t := YearlyTrend(rs);
      && (forall i :: 0 <= i < |t| - 1 ==> Precedes(t[i].year, t[i + 1].year))
      && YearPointsTotal(t) == |rs|
      && (forall i :: 0 <= i < |t| ==>
            t[i].year in Keys(rs, YearOf) && t[i].count == multiset(Keys(rs, YearOf))[t[i].year])
      && (forall r :: r in rs ==> exists i :: 0 <= i < |t| && t[i].year == Prefix(r.date.text, 4))
  {
    YearlyTrendOrder(rs);
    YearlyTrendPoints(rs);
    YearlyTrendCovers(rs);
  }

  lemma YearlyTrendOrder(rs: seq<Report>)
    ensures var t := YearlyTrend(rs);
      && (forall i :: 0 <= i < |t| - 1 ==> Precedes(t[i].year, t[i + 1].year))
      && YearPointsTotal(t) == |rs|
  {
    var keys := Keys(rs, YearOf);
    var s := SortByKey(Tallied(keys));
    var t := YearlyTrend(rs);
    assert forall i :: 0 <= i < |t| ==> t[i] == YearPoint(s[i].key, s[i].count);
    SortedTallyOrder(keys);
    YearPointsTotalIs(s, t);
  }

  lemma YearlyTrendPoints(rs: seq<Report>)
    ensures var t := YearlyTrend(rs);
      forall i :: 0 <= i < |t| ==>
        t[i].year in Keys(rs, YearOf) && t[i].count == multiset(Keys(rs, YearOf))[t[i].year]
  {
    var keys := Keys(rs, YearOf);
    var s := SortByKey(Tallied(keys));
    var t := YearlyTrend(rs);
    assert forall i :: 0 <= i < |t| ==> t[i] == YearPoint(s[i].key, s[i].count);
    forall i | 0 <= i < |t|
      ensures t[i].year in keys && t[i].count == multiset(keys)[t[i].year]
    {
      SortedTallyEntry(keys, i);
    }
  }

  lemma YearlyTrendCovers(rs: seq<Report>)
    ensures var t := YearlyTrend(rs);
      forall r :: r in rs ==> exists i :: 0 <= i < |t| && t[i].year == Prefix(r.date.text, 4)
  {
    var t := YearlyTrend(rs);
    forall r | r in rs
      ensures exists i :: 0 <= i < |t| && t[i].year == Prefix(r.date.text, 4)
    {
      var i := SortedTallyCovers(rs, YearOf, r);
      assert t[i].year == Prefix(r.date.text, 4);
    }
  }

  // ---------------------------------------------------------------------------
  // Age ranges
  // ---------------------------------------------------------------------------

  /**
   * `groupAge` is total and exclusive: every age falls in exactly one of the five ranges,
   * with bounds inclusive at the top (18 is "Under 18"). An undefined age is "Over 30" and
   * a `null` age, which compares as 0, is "Under 18".
   */
  lemma GroupAgeRanges(age: Age)
    ensures GroupAge(age) in AgeOrder
    ensures age.Years? ==>
      && (GroupAge(age) == "Under 18" <==> age.n <= 18)
      && (GroupAge(age) == "18-22 years" <==> 18 < age.n <= 22)
      && (GroupAge(age) == "23-26 years" <==> 22 < age.n <= 26)
      && (GroupAge(age) == "27-30 years" <==> 26 < age.n <= 30)
      && (GroupAge(age) == "Over 30" <==> 30 < age.n)
    ensures age.Undefined? ==> GroupAge(age) == "Over 30"
    ensures age.Null? ==> GroupAge(age) == "Under 18"
  {
  }

  /** `ageOrder.filter(range => ageCount[range] > 0).map(...)`. */
  function AgeRows(labels: seq<string>, h: seq<Bucket<string>>): seq<Bucket<string>> {
    if labels == [] then []
    else
      (if CountOf(h, labels[0]) > 0 then [Bucket(labels[0], CountOf(h, labels[0]))] else [])
      + AgeRows(labels[1..], h)
  }

  /** Every row is a listed label with a positive count, the one the dictionary records. */
  lemma {:induction false} AgeRowsEntry(labels: seq<string>, h: seq<Bucket<string>>, i: nat)
    requires i < |AgeRows(labels, h)|
    ensures var row := AgeRows(labels, h)[i];
      row.key in labels && row.count > 0 && row.count == CountOf(h, row.key)
  {
    var rest := AgeRows(labels[1..], h);
    if CountOf(h, labels[0]) > 0 {
      if i > 0 {
        assert AgeRows(labels, h)[i] == rest[i - 1];
        AgeRowsEntry(labels[1..], h, i - 1);
      }
    } else {
      assert AgeRows(labels, h) == rest;
      AgeRowsEntry(labels[1..], h, i);
    }
  }

  /** The rows keep the order of the labels. */
  lemma {:induction false} AgeRowsOrder(labels: seq<string>, h: seq<Bucket<string>>)
    ensures Seqs.IsSubsequence(KeysOf(AgeRows(labels, h)), labels)
  {
    if labels != [] {
      var rest := AgeRows(labels[1..], h);
      var keep := CountOf(h, labels[0]) > 0;
      AgeRowsOrder(labels[1..], h);
      Seqs.ConsSubsequence(KeysOf(rest), labels, keep);
      assert KeysOf(AgeRows(labels, h)) == (if keep then [labels[0]] else []) + KeysOf(rest);
    }
  }

  /** Every label with a positive count has a row. */
  lemma {:induction false} AgeRowsCovers(labels: seq<string>, h: seq<Bucket<string>>, l: string) returns (i: nat)
    requires l in labels && CountOf(h, l) > 0
    ensures i < |AgeRows(labels, h)| && AgeRows(labels, h)[i].key == l
  {
    var rest := AgeRows(labels[1..], h);
    var keep := CountOf(h, labels[0]) > 0;
    if labels[0] == l {
      i := 0;
    } else {
      var j := AgeRowsCovers(labels[1..], h, l);
      i := if keep then j + 1 else j;
    }
  }

  function AgeData(rs: seq<Report>): seq<Bucket<string>> {
    AgeRows(AgeOrder, Counts(rs, AgeGroupOf))
  }

  /** How many of `keys` fall under each of `labels`, summed. */
  function SumOver(labels: seq<string>, keys: seq<string>): nat {
    if labels == [] then 0 else multiset(keys)[labels[0]] + SumOver(labels[1..], keys)
  }

  /** The counts a dictionary records under each of `labels`, summed. */
  function SumCounts(labels: seq<string>, h: seq<Bucket<string>>): nat {
    if labels == [] then 0 else CountOf(h, labels[0]) + SumCounts(labels[1..], h)
  }

  /** Dropping the labels with count zero does not change the sum. */
  lemma {:induction false} AgeRowsTotal(labels: seq<string>, h: seq<Bucket<string>>)
    ensures Total(AgeRows(labels, h)) == SumCounts(labels, h)
  {
    if labels != [] {
      AgeRowsTotal(labels[1..], h);
      var rest := AgeRows(labels[1..], h);
      if CountOf(h, labels[0]) > 0 {
        var b := Bucket(labels[0], CountOf(h, labels[0]));
        assert AgeRows(labels, h) == [b] + rest;
        assert ([b] + rest)[1..] == rest;
      } else {
        assert AgeRows(labels, h) == rest;
      }
    }
  }

  lemma {:induction false} SumCountsTallied(labels: seq<string>, keys: seq<string>)
    ensures SumCounts(labels, Tallied(keys)) == SumOver(labels, keys)
  {
    if labels != [] {
      SumCountsTallied(labels[1..], keys);
      TalliedSpec(keys);
    }
  }

  lemma {:induction false} SumOverSnoc(labels: seq<string>, keys: seq<string>, k: string)
    ensures SumOver(labels, keys + [k]) == SumOver(labels, keys) + multiset(labels)[k]
  {
    if labels != [] {
      SumOverSnoc(labels[1..], keys, k);
      assert labels == [labels[0]] + labels[1..];
    }
  }

  /** When every key is one of the labels, and each label is listed once, the sum counts every key once. */
  lemma {:induction false} SumOverAll(labels: seq<string>, keys: seq<string>)
    requires forall k :: k in keys ==> multiset(labels)[k] == 1
    ensures SumOver(labels, keys) == |keys|
  {
    if keys == [] {
      SumOverEmpty(labels);
    } else {
      var init := keys[..|keys| - 1];
      SumOverAll(labels, init);
      assert keys == init + [keys[|keys| - 1]];
      SumOverSnoc(labels, init, keys[|keys| - 1]);
    }
  }

  lemma {:induction false} SumOverEmpty(labels: seq<string>)
    ensures SumOver(labels, []) == 0
  {
    if labels != [] {
      SumOverEmpty(labels[1..]);
    }
  }

  /**
   * `ageData` lists only ranges with reports, in the fixed range order, each with the
   * number of reports in that range; every report is counted in exactly one row.
   */
  lemma AgeDataSpec(rs: seq<Report>)
    ensures Seqs.IsSubsequence(KeysOf(AgeData(rs)), AgeOrder)
    ensures forall i :: 0 <= i < |AgeData(rs)| ==>
      AgeData(rs)[i].count > 0 && AgeData(rs)[i].count == multiset(Keys(rs, AgeGroupOf))[AgeData(rs)[i].key]
    ensures forall r :: r in rs ==> exists i :: 0 <= i < |AgeData(rs)| && AgeData(rs)[i].key == GroupAge(r.age)
    ensures Total(AgeData(rs)) == |rs|
  {
    AgeRowsOrder(AgeOrder, Counts(rs, AgeGroupOf));
    AgeDataRows(rs);
    AgeDataCovers(rs);
    AgeDataTotal(rs);
  }

  lemma AgeDataRows(rs: seq<Report>)
    ensures forall i :: 0 <= i < |AgeData(rs)| ==>
      AgeData(rs)[i].count > 0 && AgeData(rs)[i].count == multiset(Keys(rs, AgeGroupOf))[AgeData(rs)[i].key]
  {
    var keys := Keys(rs, AgeGroupOf);
    TalliedSpec(keys);
    forall i | 0 <= i < |AgeData(rs)|
      ensures AgeData(rs)[i].count > 0 && AgeData(rs)[i].count == multiset(keys)[AgeData(rs)[i].key]
    {
      AgeRowsEntry(AgeOrder, Tallied(keys), i);
    }
  }

  lemma AgeDataCovers(rs: seq<Report>)
    ensures forall r :: r in rs ==> exists i :: 0 <= i < |AgeData(rs)| && AgeData(rs)[i].key == GroupAge(r.age)
  {
    forall r | r in rs
      ensures exists i :: 0 <= i < |AgeData(rs)| && AgeData(rs)[i].key == GroupAge(r.age)
    {
      var i := AgeDataRowOf(rs, r);
    }
  }

  lemma AgeDataRowOf(rs: seq<Report>, r: Report) returns (i: nat)
    requires r in rs
    ensures i < |AgeData(rs)| && AgeData(rs)[i].key == GroupAge(r.age)
  {
    var keys := Keys(rs, AgeGroupOf);
    var h := Tallied(keys);
    var j :| 0 <= j < |rs| && rs[j] == r;
    assert keys[j] == GroupAge(r.age);
    GroupAgeRanges(r.age);
    assert keys[j] in multiset(keys);
    assert CountOf(h, keys[j]) > 0 by {
      TalliedSpec(keys);
    }
    i := AgeRowsCovers(AgeOrder, h, GroupAge(r.age));
  }

  lemma AgeDataTotal(rs: seq<Report>)
    ensures Total(AgeData(rs)) == |rs|
  {
    var keys := Keys(rs, AgeGroupOf);
    forall k | k in keys
      ensures multiset(AgeOrder)[k] == 1
    {
      var j :| 0 <= j < |keys| && keys[j] == k;
      assert k == GroupAge(rs[j].age);
      GroupOnce(rs[j].age);
    }
    SumOverAll(AgeOrder, keys);
    SumCountsTallied(AgeOrder, keys);
    AgeRowsTotal(AgeOrder, Tallied(keys));
  }

  /** Every group a report can fall in is listed exactly once. */
  lemma GroupOnce(age: Age)
    ensures multiset(AgeOrder)[GroupAge(age)] == 1
  {
    assert multiset(AgeOrder) == multiset{"Under 18", "18-22 years", "23-26 years", "27-30 years", "Over 30"};
  }

  // ---------------------------------------------------------------------------
  // Peak month
  // ---------------------------------------------------------------------------

  /** The key `new Date(inc.date).getMonth()` gives: 0 to 11, or 12 standing for `NaN`. */
  function MonthIndex(r: Report): (m: nat)
    ensures m <= 12
  {
    if r.date.parsed.Some? then r.date.parsed.value.month else 12
  }

  function MonthIndices(rs: seq<Report>): (keys: seq<nat>)
    ensures |keys| == |rs| && forall i :: 0 <= i < |rs| ==> keys[i] == MonthIndex(rs[i])
  {
    seq(|rs|, i requires 0 <= i < |rs| => MonthIndex(rs[i]))
  }

  /**
   * `Object.entries(monthlyCountAllTime)`: the keys are integer-like, so they enumerate in
   * ascending numeric order, with `NaN` (12 here) after them.
   */
  function EntriesFrom(h: seq<Bucket<nat>>, m: nat): seq<Bucket<nat>>
    decreases 13 - m
  {
    if m > 12 then []
    else (if CountOf(h, m) > 0 then [Bucket(m, CountOf(h, m))] else []) + EntriesFrom(h, m + 1)
  }

  /** Every entry is a month key from `m` on, with the positive count the dictionary records. */
  lemma {:induction false} EntriesFromEntry(h: seq<Bucket<nat>>, m: nat, i: nat)
    requires i < |EntriesFrom(h, m)|
    ensures var e := EntriesFrom(h, m)[i];
      m <= e.key <= 12 && e.count > 0 && e.count == CountOf(h, e.key)
    decreases 13 - m
  {
    var rest := EntriesFrom(h, m + 1);
    if CountOf(h, m) > 0 {
      if i > 0 {
        assert EntriesFrom(h, m)[i] == rest[i - 1];
        EntriesFromEntry(h, m + 1, i - 1);
      }
    } else {
      assert EntriesFrom(h, m) == rest;
      EntriesFromEntry(h, m + 1, i);
    }
  }

  /** Entries come in strictly ascending key order. */
  lemma {:induction false} EntriesFromAscending(h: seq<Bucket<nat>>, m: nat, i: nat, j: nat)
    requires i < j < |EntriesFrom(h, m)|
    ensures EntriesFrom(h, m)[i].key < EntriesFrom(h, m)[j].key
    decreases 13 - m
  {
    var rest := EntriesFrom(h, m + 1);
    if CountOf(h, m) > 0 {
      assert EntriesFrom(h, m)[j] == rest[j - 1];
      EntriesFromEntry(h, m + 1, j - 1);
      if i > 0 {
        assert EntriesFrom(h, m)[i] == rest[i - 1];
        EntriesFromAscending(h, m + 1, i - 1, j - 1);
      }
    } else {
      assert EntriesFrom(h, m) == rest;
      EntriesFromAscending(h, m + 1, i, j);
    }
  }

  /** Every month key from `m` on with a positive count has an entry. */
  lemma {:induction false} EntriesFromCovers(h: seq<Bucket<nat>>, m: nat, k: nat) returns (i: nat)
    requires m <= k <= 12 && CountOf(h, k) > 0
    ensures i < |EntriesFrom(h, m)| && EntriesFrom(h, m)[i].key == k
    decreases 13 - m
  {
    var rest := EntriesFrom(h, m + 1);
    if k == m {
      i := 0;
    } else {
      var j := EntriesFromCovers(h, m + 1, k);
      i := if CountOf(h, m) > 0 then j + 1 else j;
    }
  }

  function MonthEntries(rs: seq<Report>): seq<Bucket<nat>> {
    EntriesFrom(Tallied(MonthIndices(rs)), 0)
  }

  /** `peakMonth`: the first entry after the stable sort by count, if any. */
  function PeakMonth(rs: seq<Report>): Option<nat> {
    var sorted := SortByCount(MonthEntries(rs));
    if sorted == [] then None else Some(sorted[0].key)
  }

  const MonthNames: seq<string> := [
    "January", "February", "March", "April", "May", "June",
    "July", "August", "September", "October", "November", "December"
  ]

  /**
   * `peakMonthName`: "N/A" without reports; `None` stands for the `undefined` that
   * `monthNames[parseInt("NaN")]` yields when undated reports are the most frequent.
   */
  function PeakMonthName(rs: seq<Report>): Option<string> {
    match PeakMonth(rs)
    case None => Some(NotAvailable)
    case Some(m) => if m < 12 then Some(MonthNames[m]) else None
  }

  /**
   * The peak month is absent exactly when there are no reports; otherwise no month has
   * more reports than it, and every earlier month has strictly fewer (ties go to the
   * lowest month index).
   */
  lemma PeakMonthSpec(rs: seq<Report>)
    ensures PeakMonth(rs).None? <==> rs == []
    ensures rs == [] ==> PeakMonthName(rs) == Some(NotAvailable)
    ensures PeakMonth(rs).Some? ==>
      var p := PeakMonth(rs).value;
      var occ := multiset(MonthIndices(rs));
      && p <= 12
      && occ[p] > 0
      && (forall m: nat :: m <= 12 ==> occ[m] <= occ[p])
      && (forall m: nat :: m < p ==> occ[m] < occ[p])
  {
    PeakMonthPresent(rs);
    if PeakMonth(rs).Some? {
      var h := Tallied(MonthIndices(rs));
      var e := MonthEntries(rs);
      SortByCountHead(e);
      EntriesPeak(h);
      TalliedSpec(MonthIndices(rs));
    }
  }

  lemma PeakMonthPresent(rs: seq<Report>)
    ensures PeakMonth(rs).None? <==> rs == []
  {
    var h := Tallied(MonthIndices(rs));
    if rs != [] {
      assert MonthIndices(rs)[0] in MonthIndices(rs);
      TalliedSpec(MonthIndices(rs));
      var _ := EntriesFromCovers(h, 0, MonthIndex(rs[0]));
    } else {
      assert MonthIndices(rs) == [];
      assert forall m :: CountOf(h, m) == 0;
      EntriesFromNone(h, 0);
    }
  }

  lemma {:induction false} EntriesFromNone(h: seq<Bucket<nat>>, m: nat)
    requires forall k :: CountOf(h, k) == 0
    ensures EntriesFrom(h, m) == []
    decreases 13 - m
  {
    if m <= 12 {
      EntriesFromNone(h, m + 1);
    }
  }

  /** The first entry with the largest count has no month above it, and strictly more than every earlier month. */
  lemma EntriesPeak(h: seq<Bucket<nat>>)
    requires EntriesFrom(h, 0) != []
    ensures var e := EntriesFrom(h, 0);
      var p := e[FirstMax(e)].key;
      && p <= 12 && CountOf(h, p) > 0
      && (forall m: nat :: m <= 12 ==> CountOf(h, m) <= CountOf(h, p))
      && (forall m: nat :: m < p ==> CountOf(h, m) < CountOf(h, p))
  {
    var e := EntriesFrom(h, 0);
    var i := FirstMax(e);
    var p := e[i].key;
    EntriesFromEntry(h, 0, i);
    forall m: nat | m <= 12
      ensures CountOf(h, m) <= CountOf(h, p)
      ensures m < p ==> CountOf(h, m) < CountOf(h, p)
    {
      if CountOf(h, m) > 0 {
        var j := EntriesFromCovers(h, 0, m);
        EntriesFromEntry(h, 0, j);
        assert e[j].count <= e[i].count;
        if j < i {
          assert e[j].count < e[i].count;
        } else if i < j {
          EntriesFromAscending(h, 0, i, j);
          assert p < m;
        }
      }
    }
  }

  /**
   * A tie goes to the lower month index whatever the order of the reports: one report in
   * March followed by one in January makes January the peak month.
   */
  lemma PeakMonthTieExample(rs: seq<Report>)
    requires |rs| == 2
    requires rs[0].date.parsed.Some? && rs[0].date.parsed.value.month == 2
    requires rs[1].date.parsed.Some? && rs[1].date.parsed.value.month == 0
    ensures PeakMonthName(rs) == Some("January")
  {
    assert PeakMonth(rs) == Some(0) by {
      var keys := MonthIndices(rs);
      assert keys == [2, 0];
      MarchThenJanuary(keys);
      PeakMonthSpec(rs);
    }
  }

  lemma MarchThenJanuary(keys: seq<nat>)
    requires keys == [2, 0]
    ensures forall m :: multiset(keys)[m] == if m == 0 || m == 2 then 1 else 0
  {
    assert multiset(keys) == multiset{2, 0};
  }
}
