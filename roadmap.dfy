/** The roadmap payload (`_build_roadmap_payload`, pinned by
    tracker_app/tests/test_roadmap.py): for one year, three monthly series of
    approved Actions (started, continued, completed), the in-progress series
    composed from the first two, their year totals and the selectable years.

    The current date, the lower bound of selectable years and the default
    year are parameters; the requested year arrives already parsed (`None`
    when absent or not an integer). Timestamps are local dates; timezone
    conversion and the month-label arrays are not modelled. */
module Roadmap {
  import opened Wrappers
  import opened Seqs
  import opened Calendar
  import opened Models

  /** Which of the three independent series. */
  datatype SeriesKind = Started | Continued | CompletedSeries

  datatype Payload = Payload(
    chartYear: int,
    completed: seq<nat>, inProgress: seq<nat>, started: seq<nat>, continued: seq<nat>,
    completedTotal: int, inProgressTotal: int, startedTotal: int, continuedTotal: int,
    yearOptions: seq<int>)

  /** The year the chart shows: the requested one when it lies between the
      lower bound and the current year, otherwise the default. */
  function ResolveYear(param: Option<int>, floor: int, now: Date, default: int): (y: int)
    ensures param.Some? && floor <= param.value <= now.year ==> y == param.value
    ensures !(param.Some? && floor <= param.value <= now.year) ==> y == default
  {
    match param
    case Some(v) => if v < floor || v > now.year then default else v
    case None => default
  }

  /** Does Action `a` fall into month `m` of year `y` of the series? */
  predicate InMonth(k: SeriesKind, a: ActionRow, y: int, m: int) {
    match k
    case Started =>
      a.progressStartedAt.Some? && a.progressStartedAt.value.year == y && a.progressStartedAt.value.month == m
    case Continued =>
      a.updatedAt.year == y && a.updatedAt.month == m
      && (a.progressStartedAt.None? || a.progressStartedAt.value.year < y)
    case CompletedSeries =>
      a.status == Completed && a.updatedAt.year == y && a.updatedAt.month == m
  }

  /** The month of the date a series groups by (0 for no start date). */
  function MonthKey(k: SeriesKind, a: ActionRow): int {
    match k
    case Started => if a.progressStartedAt.Some? then a.progressStartedAt.value.month else 0
    case _ => a.updatedAt.month
  }

  /** Only approved Actions are counted. */
  function Counted(k: SeriesKind, y: int, m: int): ActionRow -> bool {
    (a: ActionRow) => a.isApproved && InMonth(k, a, y, m)
  }

  /** Counted in some month of year `y`. */
  function CountedInYear(k: SeriesKind, y: int): ActionRow -> bool {
    (a: ActionRow) => a.isApproved && 1 <= MonthKey(k, a) <= 12 && InMonth(k, a, y, MonthKey(k, a))
  }

  /** Twelve counts, January first. */
  function Series(acts: seq<ActionRow>, k: SeriesKind, y: int): (r: seq<nat>)
    ensures |r| == 12
  {
    seq(12, i => Count(acts, Counted(k, y, i + 1)))
  }

  function AddSeries(u: seq<nat>, v: seq<nat>): (r: seq<nat>)
    requires |u| == |v|
    ensures |r| == |u| && forall i :: 0 <= i < |u| ==> r[i] == u[i] + v[i]
  {
    seq(|u|, i requires 0 <= i < |u| => u[i] + v[i])
  }

  /** `year_options`: the lower bound through the current year, ascending. */
  function YearOptions(floor: int, now: Date): (r: seq<int>)
    ensures forall y :: y in r <==> floor <= y <= now.year
    ensures forall i :: 0 <= i < |r| ==> r[i] == floor + i
    decreases now.year - floor
  {
    if now.year < floor then [] else [floor] + YearOptions(floor + 1, now)
  }

  /** `_build_roadmap_payload(year_param)`. */
  function BuildPayload(acts: seq<ActionRow>, param: Option<int>, floor: int, now: Date, default: int): (p: Payload)
    ensures p.chartYear == ResolveYear(param, floor, now, default)
    ensures |p.started| == |p.continued| == |p.completed| == |p.inProgress| == 12
    ensures forall m :: 1 <= m <= 12 ==>
              p.started[m - 1] == Count(acts, Counted(Started, p.chartYear, m))
              && p.continued[m - 1] == Count(acts, Counted(Continued, p.chartYear, m))
              && p.completed[m - 1] == Count(acts, Counted(CompletedSeries, p.chartYear, m))
    ensures forall i :: 0 <= i < 12 ==> p.inProgress[i] == p.started[i] + p.continued[i]
    ensures p.startedTotal == Sum(p.started) && p.continuedTotal == Sum(p.continued)
    ensures p.completedTotal == Sum(p.completed) && p.inProgressTotal == Sum(p.inProgress)
    ensures p.yearOptions == YearOptions(floor, now)
  {
    var y := ResolveYear(param, floor, now, default);
    var started := Series(acts, Started, y);
    var continued := Series(acts, Continued, y);
    var completed := Series(acts, CompletedSeries, y);
    var inProgress := AddSeries(started, continued);
    Payload(y, completed, inProgress, started, continued,
            Sum(completed), Sum(inProgress), Sum(started), Sum(continued),
            YearOptions(floor, now))
  }

  /** A requested year outside the selectable range gives exactly the payload
      of no request at all. */
  lemma OutOfRangeYearIsDefault(acts: seq<ActionRow>, y: int, floor: int, now: Date, default: int)
    requires y < floor || y > now.year
    ensures BuildPayload(acts, Some(y), floor, now, default) == BuildPayload(acts, None, floor, now, default)
  {
  }

  /** No Action is both started and continued in the same year. */
  lemma StartedAndContinuedDisjoint(a: ActionRow, y: int, m1: int, m2: int)
    ensures !(InMonth(Started, a, y, m1) && InMonth(Continued, a, y, m2))
  {
  }

  // ---- Year totals -------------------------------------------------------

  lemma {:induction false} SumAddSeries(u: seq<nat>, v: seq<nat>)
    requires |u| == |v|
    ensures Sum(AddSeries(u, v)) == Sum(u) + Sum(v)
  {
    if u != [] {
      assert AddSeries(u, v)[1..] == AddSeries(u[1..], v[1..]);
      SumAddSeries(u[1..], v[1..]);
    }
  }

  function OneHot(n: nat, j: int): (r: seq<nat>)
    ensures |r| == n
  {
    seq(n, i => if i == j then 1 else 0)
  }

  lemma {:induction false} SumOneHot(n: nat, j: int)
    ensures Sum(OneHot(n, j)) == if 0 <= j < n then 1 else 0
  {
    if n > 0 {
      assert OneHot(n, j)[1..] == OneHot(n - 1, j - 1);
      SumOneHot(n - 1, j - 1);
    }
  }

  /** A series' year total counts each approved Action at most once: exactly
      those that fall into some month of the year. */
  lemma {:induction false} SeriesTotalIsYearCount(acts: seq<ActionRow>, k: SeriesKind, y: int)
    ensures Sum(Series(acts, k, y)) == Count(acts, CountedInYear(k, y))
  {
    if acts == [] {
      assert Series(acts, k, y) == OneHot(12, -1);
      SumOneHot(12, -1);
    } else {
      var a, rest := acts[0], acts[1..];
      var j := if CountedInYear(k, y)(a) then MonthKey(k, a) - 1 else -1;
      forall i | 0 <= i < 12
        ensures Series(acts, k, y)[i] == OneHot(12, j)[i] + Series(rest, k, y)[i]
      {
        assert Counted(k, y, i + 1)(a) <==> i == j;
      }
      assert Series(acts, k, y) == AddSeries(OneHot(12, j), Series(rest, k, y));
      SumAddSeries(OneHot(12, j), Series(rest, k, y));
      SumOneHot(12, j);
      SeriesTotalIsYearCount(rest, k, y);
    }
  }

  lemma {:induction false} CountMonotone(xs: seq<ActionRow>, p: ActionRow -> bool, q: ActionRow -> bool)
    requires forall a :: a in xs && p(a) ==> q(a)
    ensures Count(xs, p) <= Count(xs, q)
  {
    if xs != [] {
      assert forall a :: a in xs[1..] ==> a in xs;
      CountMonotone(xs[1..], p, q);
    }
  }

  function IsApproved(): ActionRow -> bool {
    (a: ActionRow) => a.isApproved
  }

  /** No double counting: the in-progress total never exceeds the number of
      approved Actions, and each series' total is the number of approved
      Actions it places in the year. */
  lemma InProgressTotalBound(acts: seq<ActionRow>, param: Option<int>, floor: int, now: Date, default: int)
    ensures var p := BuildPayload(acts, param, floor, now, default);
            && p.startedTotal == Count(acts, CountedInYear(Started, p.chartYear))
            && p.continuedTotal == Count(acts, CountedInYear(Continued, p.chartYear))
            && p.completedTotal == Count(acts, CountedInYear(CompletedSeries, p.chartYear))
            && p.inProgressTotal == p.startedTotal + p.continuedTotal
            && p.inProgressTotal <= Count(acts, IsApproved())
  {
    var y := ResolveYear(param, floor, now, default);
    var started := Series(acts, Started, y);
    var continued := Series(acts, Continued, y);
    SumAddSeries(started, continued);
    SeriesTotalIsYearCount(acts, Started, y);
    SeriesTotalIsYearCount(acts, Continued, y);
    SeriesTotalIsYearCount(acts, CompletedSeries, y);
    var either := (a: ActionRow) => CountedInYear(Started, y)(a) || CountedInYear(Continued, y)(a);
    CountDisjointUnion(acts, CountedInYear(Started, y), CountedInYear(Continued, y), either);
    CountMonotone(acts, either, IsApproved());
  }

  // ---- The scenarios of the roadmap tests ---------------------------------

  /** An approved or unapproved Action of one Objective with the given dates. */
  function Fixture(title: string, start: Option<Date>, updated: Date, status: Status, approved: bool): ActionRow {
    ActionRow(0, title, title, "", title, "", "", "", 1, status, approved, false, start, updated)
  }

  /** With "now" in mid-2026 and 2024 as the lower bound: 2023, 2035 and no
      year all give 2026, while 2024 and 2026 are kept. */
  lemma YearBoundsScenario(acts: seq<ActionRow>)
    ensures BuildPayload(acts, Some(2023), 2024, Date(2026, 6, 1), 2026).chartYear == 2026
    ensures BuildPayload(acts, Some(2035), 2024, Date(2026, 6, 1), 2026).chartYear == 2026
    ensures BuildPayload(acts, None, 2024, Date(2026, 6, 1), 2026).chartYear == 2026
    ensures BuildPayload(acts, Some(2024), 2024, Date(2026, 6, 1), 2026).chartYear == 2024
    ensures BuildPayload(acts, Some(2026), 2024, Date(2026, 6, 1), 2026).yearOptions == [2024, 2025, 2026]
  {
    assert YearOptions(2024, Date(2026, 6, 1)) == [2024] + YearOptions(2025, Date(2026, 6, 1));
    assert YearOptions(2025, Date(2026, 6, 1)) == [2025] + YearOptions(2026, Date(2026, 6, 1));
    assert YearOptions(2026, Date(2026, 6, 1)) == [2026] + YearOptions(2027, Date(2026, 6, 1));
  }

  const ApprovalFixture := [
    Fixture("approved-2024", Some(Date(2024, 2, 10)), Date(2024, 2, 11), InProgress, true),
    Fixture("unapproved-2024", Some(Date(2024, 2, 15)), Date(2024, 2, 16), InProgress, false)]

  /** An unapproved Action started in the same month adds nothing. */
  lemma ApprovalScenario(now: Date)
    requires now.year >= 2024
    ensures BuildPayload(ApprovalFixture, Some(2024), 2024, now, 2026).startedTotal == 1
  {
    var acts := ApprovalFixture;
    InProgressTotalBound(acts, Some(2024), 2024, now, 2026);
    CountPair(acts[0], acts[1], CountedInYear(Started, 2024));
  }

  const NoDoubleCountingFixture := [
    Fixture("started-and-updated-2024", Some(Date(2024, 1, 5)), Date(2024, 1, 6), InProgress, true),
    Fixture("started-2023-updated-2024-jan", Some(Date(2023, 6, 1)), Date(2024, 1, 7), InProgress, true)]

  /** Started and updated in January 2024 counts as started only; started in
      2023 and updated in January 2024 counts as continued. */
  lemma NoDoubleCountingScenario(now: Date)
    requires now.year >= 2024
    ensures var p := BuildPayload(NoDoubleCountingFixture, Some(2024), 2024, now, 2026);
            p.started[0] == 1 && p.continued[0] == 1 && p.inProgress[0] == 2
  {
    var acts := NoDoubleCountingFixture;
    CountPair(acts[0], acts[1], Counted(Started, 2024, 1));
    CountPair(acts[0], acts[1], Counted(Continued, 2024, 1));
  }

  const EdgeDatesFixture := [
    Fixture("start-jan-first", Some(Date(2024, 1, 1)), Date(2024, 1, 2), InProgress, true),
    Fixture("start-dec-last", Some(Date(2024, 12, 31)), Date(2025, 1, 1), InProgress, true)]

  /** 1 January and 31 December land in the first and the last month, and
      nowhere else. */
  lemma EdgeDatesScenario(now: Date)
    requires now.year >= 2024
    ensures var p := BuildPayload(EdgeDatesFixture, Some(2024), 2024, now, 2026);
            p.started[0] == 1 && p.started[11] == 1 && p.startedTotal == 2
  {
    var acts := EdgeDatesFixture;
    InProgressTotalBound(acts, Some(2024), 2024, now, 2026);
    CountPair(acts[0], acts[1], Counted(Started, 2024, 1));
    CountPair(acts[0], acts[1], Counted(Started, 2024, 12));
    CountPair(acts[0], acts[1], CountedInYear(Started, 2024));
  }

  const ContinuedFixture := [
    Fixture("started-2023-updated-2024", Some(Date(2023, 5, 1)), Date(2024, 2, 10), InProgress, true),
    Fixture("nullstart-updated-2024", None, Date(2024, 3, 15), InProgress, true)]

  /** Started in 2023 and updated in February 2024, or never started and
      updated in March 2024: continued in February and in March. */
  lemma ContinuedScenario(now: Date)
    requires now.year >= 2024
    ensures var p := BuildPayload(ContinuedFixture, Some(2024), 2024, now, 2026);
            |p.continued| == 12 && p.continued[1] == 1 && p.continued[2] == 1
  {
    var acts := ContinuedFixture;
    CountPair(acts[0], acts[1], Counted(Continued, 2024, 2));
    CountPair(acts[0], acts[1], Counted(Continued, 2024, 3));
  }

  const SameMonthFixture := [
    Fixture("may-first", Some(Date(2024, 5, 1)), Date(2024, 5, 1), InProgress, true),
    Fixture("may-mid", Some(Date(2024, 5, 15)), Date(2024, 5, 16), InProgress, true),
    Fixture("may-last", Some(Date(2024, 5, 31)), Date(2024, 6, 1), InProgress, true)]

  /** Three Actions started on the first, a middle and the last day of May
      all land in May. */
  lemma SameMonthScenario(now: Date)
    requires now.year >= 2024
    ensures BuildPayload(SameMonthFixture, Some(2024), 2024, now, 2026).started[4] == 3
  {
    var acts := SameMonthFixture;
    CountTriple(acts[0], acts[1], acts[2], Counted(Started, 2024, 5));
  }

  const CrossYearFixture := Fixture("cross-year", Some(Date(2024, 7, 1)), Date(2025, 3, 5), InProgress, true)

  /** Started in July 2024 and updated in March 2025: started in the 2024
      payload, continued in the 2025 payload. */
  lemma CrossYearScenario(now: Date)
    requires now.year >= 2025
    ensures BuildPayload([CrossYearFixture], Some(2024), 2024, now, 2026).started[6] == 1
    ensures BuildPayload([CrossYearFixture], Some(2025), 2024, now, 2026).continued[2] == 1
  {
    var a := CrossYearFixture;
    assert Count([a], Counted(Started, 2024, 7)) == 1 by {
      FilterSingleton(a, Counted(Started, 2024, 7));
    }
    assert Count([a], Counted(Continued, 2025, 3)) == 1 by {
      FilterSingleton(a, Counted(Continued, 2025, 3));
    }
  }

  const NullStartAndCompletedFixture := [
    Fixture("admin-update-nullstart", None, Date(2024, 8, 20), InProgress, true),
    Fixture("completed-apr", Some(Date(2024, 4, 1)), Date(2024, 4, 20), Completed, true)]

  /** A null start updated in August 2024 is continued; a completed Action
      counts by its update month and makes the completed total 1. */
  lemma NullStartAndCompletedScenario(now: Date)
    requires now.year >= 2024
    ensures var p := BuildPayload(NullStartAndCompletedFixture, Some(2024), 2024, now, 2026);
            p.continued[7] == 1 && p.completed[3] == 1 && p.completedTotal == 1
  {
    var acts := NullStartAndCompletedFixture;
    InProgressTotalBound(acts, Some(2024), 2024, now, 2026);
    CountPair(acts[0], acts[1], Counted(Continued, 2024, 8));
    CountPair(acts[0], acts[1], Counted(CompletedSeries, 2024, 4));
    CountPair(acts[0], acts[1], CountedInYear(CompletedSeries, 2024));
  }

  /** With no Actions every series is twelve zeros. */
  lemma EmptyScenario(param: Option<int>, floor: int, now: Date, default: int)
    ensures var p := BuildPayload([], param, floor, now, default);
            && (forall i :: 0 <= i < 12 ==> p.started[i] == 0 && p.continued[i] == 0
                                            && p.completed[i] == 0 && p.inProgress[i] == 0)
            && p.startedTotal == 0 && p.continuedTotal == 0 && p.completedTotal == 0 && p.inProgressTotal == 0
  {
    InProgressTotalBound([], param, floor, now, default);
  }
}
