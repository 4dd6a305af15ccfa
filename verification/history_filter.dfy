/**
 * `applyFilters` of the personal history view: a chain of conjunctive filters over
 * the fetched reports, by category, zone, age range and date range.
 */
module HistoryFilter {
  import opened Options
  import opened Text
  import opened Reports
  import Seqs

  /** One calendar day in milliseconds: the end date admits everything before the next day starts. */
  const DayMs: int := 86_400_000

  /** A date filter input: left blank, or entered and parsed by `new Date` (`None`: Invalid Date). */
  datatype DateInput = Blank | Entered(at: Option<int>)

  /**
   * The filter controls. `ageMin`/`ageMax` are what `parseInt` makes of the inputs
   * (`None` for `NaN`); `category`/`zone` are "" when not selected.
   */
  datatype Criteria = Criteria(
    ageMin: Option<int>,
    ageMax: Option<int>,
    category: string,
    zone: string,
    startDate: DateInput,
    endDate: DateInput
  )

  /** The initial state of the controls: every field empty. */
  const NoCriteria: Criteria := Criteria(None, None, "", "", Blank, Blank)

  /** The filter steps, in the order `applyFilters` runs them. */
  datatype Step = ByCategory | ByZone | ByMinAge | ByMaxAge | ByDate

  const AllSteps: set<Step> := {ByCategory, ByZone, ByMinAge, ByMaxAge, ByDate}

  /** `inc.date || inc.creationTime`. */
  function DateSource(r: Report): Stamp {
    if r.date.text != "" then r.date else r.creationTime
  }

  /** Whether report `r` survives filter step `step`; a step whose control is empty keeps everything. */
  predicate Passes(c: Criteria, step: Step, r: Report) {
    match step
    case ByCategory => c.category == "" || EqualsIgnoreCase(r.category, c.category)
    case ByZone => c.zone == "" || EqualsIgnoreCase(r.zone, c.zone)
    case ByMinAge => c.ageMin.None? || (AgeNumber(r.age).Some? && AgeNumber(r.age).value >= c.ageMin.value)
    case ByMaxAge => c.ageMax.None? || (AgeNumber(r.age).Some? && AgeNumber(r.age).value <= c.ageMax.value)
    case ByDate =>
      || (c.startDate.Blank? && c.endDate.Blank?)
      || (var src := DateSource(r);
          && src.text != ""
          && src.parsed.Some?
          && (c.startDate.Entered? ==> c.startDate.at.Some? && src.parsed.value.time >= c.startDate.at.value)
          && (c.endDate.Entered? ==> c.endDate.at.Some? && src.parsed.value.time < c.endDate.at.value + DayMs))
  }

  /**
   * A `null` age compares as 0, so it passes a minimum of at most 0 and a maximum of at least 0;
   * an undefined age is `NaN` and fails every bound that is set.
   */
  lemma NullAgeComparesAsZero(c: Criteria, r: Report)
    requires r.age.Null?
    ensures c.ageMin.Some? ==> (Passes(c, ByMinAge, r) <==> c.ageMin.value <= 0)
    ensures c.ageMax.Some? ==> (Passes(c, ByMaxAge, r) <==> 0 <= c.ageMax.value)
    ensures Passes(c, ByMinAge, r.(age := Undefined)) <==> c.ageMin.None?
    ensures Passes(c, ByMaxAge, r.(age := Undefined)) <==> c.ageMax.None?
  {
  }

  predicate PassesAll(c: Criteria, steps: set<Step>, r: Report) {
    forall step :: step in steps ==> Passes(c, step, r)
  }

  /** The reports of `s` that pass every step in `steps`, in their original order. */
  function KeepPassing(s: seq<Report>, c: Criteria, steps: set<Step>): seq<Report> {
    if s == [] then []
    else (if PassesAll(c, steps, s[0]) then [s[0]] else []) + KeepPassing(s[1..], c, steps)
  }

  /** One `tempIncidents.filter(...)` call. */
  function KeepStep(s: seq<Report>, c: Criteria, step: Step): seq<Report> {
    if s == [] then []
    else (if Passes(c, step, s[0]) then [s[0]] else []) + KeepStep(s[1..], c, step)
  }

  /** What the filter chain yields. */
  function Filtered(s: seq<Report>, c: Criteria): seq<Report> {
    KeepPassing(s, c, AllSteps)
  }

  lemma {:induction false} KeepNothing(s: seq<Report>, c: Criteria)
    ensures KeepPassing(s, c, {}) == s
  {
    if s != [] {
      KeepNothing(s[1..], c);
      assert s == [s[0]] + s[1..];
    }
  }

  /** Filtering an already filtered list by one more step is filtering by one more step at once. */
  lemma {:induction false} KeepMore(s: seq<Report>, c: Criteria, steps: set<Step>, step: Step)
    ensures KeepStep(KeepPassing(s, c, steps), c, step) == KeepPassing(s, c, steps + {step})
  {
    if s != [] {
      KeepMore(s[1..], c, steps, step);
      var head := if PassesAll(c, steps, s[0]) then [s[0]] else [];
      var tail := KeepPassing(s[1..], c, steps);
      assert KeepPassing(s, c, steps) == head + tail;
      if head == [] {
        assert KeepPassing(s, c, steps) == tail;
      } else {
        assert (head + tail)[0] == s[0] && (head + tail)[1..] == tail;
      }
    }
  }

  /** A step whose control is empty keeps everything, so skipping it changes nothing. */
  lemma {:induction false} SkipVacuous(s: seq<Report>, c: Criteria, steps: set<Step>, step: Step)
    requires forall r :: Passes(c, step, r)
    ensures KeepPassing(s, c, steps + {step}) == KeepPassing(s, c, steps)
  {
    if s != [] {
      SkipVacuous(s[1..], c, steps, step);
      assert PassesAll(c, steps + {step}, s[0]) == PassesAll(c, steps, s[0]);
    }
  }

  /**
   * `applyFilters`: reassigns the working list once per non-empty control, in the
   * source's order, and ends with exactly the reports matching every control.
   */
  method ApplyFilters(incidents: seq<Report>, c: Criteria) returns (filtered: seq<Report>)
    ensures filtered == Filtered(incidents, c)
  {
    filtered := incidents;
    KeepNothing(incidents, c);
    ghost var done: set<Step> := {};
    assert filtered == KeepPassing(incidents, c, done);

    if c.category != "" {
      filtered := KeepStep(filtered, c, ByCategory);
      KeepMore(incidents, c, done, ByCategory);
    } else {
      SkipVacuous(incidents, c, done, ByCategory);
    }
    done := done + {ByCategory};

    if c.zone != "" {
      filtered := KeepStep(filtered, c, ByZone);
      KeepMore(incidents, c, done, ByZone);
    } else {
      SkipVacuous(incidents, c, done, ByZone);
    }
    done := done + {ByZone};

    if c.ageMin.Some? {
      filtered := KeepStep(filtered, c, ByMinAge);
      KeepMore(incidents, c, done, ByMinAge);
    } else {
      SkipVacuous(incidents, c, done, ByMinAge);
    }
    done := done + {ByMinAge};

    if c.ageMax.Some? {
      filtered := KeepStep(filtered, c, ByMaxAge);
      KeepMore(incidents, c, done, ByMaxAge);
    } else {
      SkipVacuous(incidents, c, done, ByMaxAge);
    }
    done := done + {ByMaxAge};

    if c.startDate.Entered? || c.endDate.Entered? {
      filtered := KeepStep(filtered, c, ByDate);
      KeepMore(incidents, c, done, ByDate);
    } else {
      SkipVacuous(incidents, c, done, ByDate);
    }
    done := done + {ByDate};
    assert done == AllSteps;
  }

  lemma {:induction false} KeepPassingMembers(s: seq<Report>, c: Criteria, steps: set<Step>, r: Report)
    ensures r in KeepPassing(s, c, steps) <==> r in s && PassesAll(c, steps, r)
    ensures multiset(KeepPassing(s, c, steps))[r] == if PassesAll(c, steps, r) then multiset(s)[r] else 0
    ensures Seqs.IsSubsequence(KeepPassing(s, c, steps), s)
  {
    if s != [] {
      KeepPassingMembers(s[1..], c, steps, r);
      Seqs.ConsSubsequence(KeepPassing(s[1..], c, steps), s, PassesAll(c, steps, s[0]));
      assert s == [s[0]] + s[1..];
      assert multiset(s) == multiset{s[0]} + multiset(s[1..]);
    }
  }

  /**
   * The filter keeps, in order and as often as they occur, exactly the reports that satisfy
   * every control: category and zone equal ignoring case, age within inclusive bounds, and a date source that is
   * at or after the start and before the day after the end. An undefined age fails both
   * age bounds; a `null` age is compared as 0.
   */
  lemma FilterSemantics(s: seq<Report>, c: Criteria, r: Report)
    ensures Seqs.IsSubsequence(Filtered(s, c), s)
    ensures r in Filtered(s, c) <==>
      && r in s
      && (c.category == "" || EqualsIgnoreCase(r.category, c.category))
      && (c.zone == "" || EqualsIgnoreCase(r.zone, c.zone))
      && (c.ageMin.Some? ==> !r.age.Undefined? && c.ageMin.value <= (if r.age.Years? then r.age.n else 0))
      && (c.ageMax.Some? ==> !r.age.Undefined? && (if r.age.Years? then r.age.n else 0) <= c.ageMax.value)
      && ((c.startDate.Entered? || c.endDate.Entered?) ==>
            var src := DateSource(r);
            && src.text != "" && src.parsed.Some?
            && (c.startDate.Entered? ==> c.startDate.at.Some? && c.startDate.at.value <= src.parsed.value.time)
            && (c.endDate.Entered? ==> c.endDate.at.Some? && src.parsed.value.time < c.endDate.at.value + DayMs))
    ensures multiset(Filtered(s, c))[r] == if r in Filtered(s, c) then multiset(s)[r] else 0
  {
    KeepPassingMembers(s, c, AllSteps, r);
    assert PassesAll(c, AllSteps, r) <==>
      Passes(c, ByCategory, r) && Passes(c, ByZone, r) && Passes(c, ByMinAge, r)
      && Passes(c, ByMaxAge, r) && Passes(c, ByDate, r);
  }

  /** With every control empty the filter returns the fetched list unchanged. */
  lemma {:induction false} EmptyCriteriaIsIdentity(s: seq<Report>)
    ensures Filtered(s, NoCriteria) == s
  {
    if s != [] {
      EmptyCriteriaIsIdentity(s[1..]);
      assert PassesAll(NoCriteria, AllSteps, s[0]);
      assert s == [s[0]] + s[1..];
    }
  }

  /** Once a date bound is set, a report with neither `date` nor `creationTime` is never shown. */
  lemma UndatedExcluded(s: seq<Report>, c: Criteria, r: Report)
    requires c.startDate.Entered? || c.endDate.Entered?
    requires r.date.text == "" && r.creationTime.text == ""
    ensures r !in Filtered(s, c)
  {
    FilterSemantics(s, c, r);
  }

  /**
   * A range from 2024-01-01 to 2024-01-31 (UTC midnights) keeps a report dated
   * 2024-01-31T23:00 and drops one dated 2024-02-01T00:00.
   */
  lemma EndDateCoversWholeDay(late: Report, next: Report)
    requires late.date == Stamp("2024-01-31T23:00", Some(Instant(1_706_742_000_000, 0)))
    requires next.date == Stamp("2024-02-01T00:00", Some(Instant(1_706_745_600_000, 1)))
    ensures var c := NoCriteria.(startDate := Entered(Some(1_704_067_200_000)), endDate := Entered(Some(1_706_659_200_000)));
      Filtered([late, next], c) == [late]
  {
    var c := NoCriteria.(startDate := Entered(Some(1_704_067_200_000)), endDate := Entered(Some(1_706_659_200_000)));
    assert PassesAll(c, AllSteps, late);
    assert !PassesAll(c, AllSteps, next) by { assert !Passes(c, ByDate, next); }
    assert [late, next][1..] == [next];
    assert KeepPassing([next], c, AllSteps) == [] by { assert [next][1..] == []; }
  }
}
