/** The master seeding script, seed_actions.py, as a generator of planned
    records. Each step reads rows in id order and either rewrites them or
    plans new ones; writing the plan to the database, the backup copy and
    the progress messages are not modelled. The twin script
    seed_actions_by_year.py repeats `dates_for_year` and `recreate_actions`
    verbatim, so both are modelled once, here. */
module SeedActions {
  import opened Wrappers
  import opened Text
  import opened Calendar
  import opened Models
  import opened Seqs

  // ---- make_words -----------------------------------------------------

  /** `"word"` for English, `"focal"` for any other language code. */
  function WordBase(lang: string): string {
    if lang == "en" then "word" else "focal"
  }

  function Words(base: string, count: nat): (r: seq<string>)
    ensures |r| == count
  {
    seq(count, i requires 0 <= i < count => base + DecimalString(i + 1))
  }

  /** `make_words(count, lang)`. */
  function MakeWords(count: nat, lang: string): string {
    Join(Words(WordBase(lang), count), " ")
  }

  /** `make_words` numbers its words from 1 and puts one space between
      consecutive words: one word is `base1`, and each further word adds a
      space and the next numbered word. */
  lemma MakeWordsSteps(count: nat, lang: string)
    ensures MakeWords(0, lang) == []
    ensures MakeWords(1, lang) == WordBase(lang) + DecimalString(1)
    ensures count >= 1 ==>
              MakeWords(count + 1, lang) == MakeWords(count, lang) + " " + WordBase(lang) + DecimalString(count + 1)
  {
    if count >= 1 {
      var b := WordBase(lang);
      assert Words(b, count + 1) == Words(b, count) + [b + DecimalString(count + 1)];
      JoinSnoc(Words(b, count), b + DecimalString(count + 1), " ");
    }
  }

  /** No numbered word holds a space. */
  lemma WordsHaveNoSpace(lang: string, count: nat)
    ensures forall k, i :: 0 <= k < count && 0 <= i < |Words(WordBase(lang), count)[k]| ==>
              Words(WordBase(lang), count)[k][i] != ' '
  {
    var b := WordBase(lang);
    forall k, i | 0 <= k < count && 0 <= i < |Words(b, count)[k]| ensures Words(b, count)[k][i] != ' ' {
      var d := DecimalString(k + 1);
      assert Words(b, count)[k] == b + d;
      if i >= |b| {
        assert IsDigit(d[i - |b|]);
      }
    }
  }

  /** So `count` words hold exactly `count - 1` spaces. */
  lemma MakeWordsSpaces(count: nat, lang: string)
    requires count >= 1
    ensures Occurrences(MakeWords(count, lang), ' ') == count - 1
  {
    WordsHaveNoSpace(lang, count);
    JoinOccurrences(Words(WordBase(lang), count), ' ');
  }

  /** `' '.join([word] * n)`. */
  function RepeatWords(word: string, n: nat): string {
    Join(seq(n, _ => word), " ")
  }

  /** `n` copies of a word joined by single spaces are `n * |word| + n - 1`
      characters long. */
  lemma {:induction false} RepeatWordsLength(word: string, n: nat)
    requires n >= 1
    ensures |RepeatWords(word, n)| == n * |word| + n - 1
  {
    if n > 1 {
      RepeatWordsLength(word, n - 1);
      assert seq(n, _ => word) == seq(n - 1, _ => word) + [word];
      JoinSnoc(seq(n - 1, _ => word), word, " ");
    }
  }

  // ---- dates_for_year ---------------------------------------------------

  /** The `i`-th date `dates_for_year(year, ...)` produces: consecutive days
      from 1 January in 2026, 30-day steps from 15 January otherwise. */
  function PlannedDate(year: nat, i: nat): (d: Date)
    requires year >= 1
    ensures ValidDate(d)
  {
    if year == 2026 then AddDays(Date(2026, 1, 1), i) else AddDays(Date(year, 1, 15), i * 30)
  }

  /** `dates_for_year(year, count)`. */
  method DatesForYear(year: nat, count: nat) returns (dates: seq<Date>)
    requires year >= 1
    ensures |dates| == count
    ensures forall i :: 0 <= i < count ==> dates[i] == PlannedDate(year, i)
  {
    dates := [];
    if year == 2026 {
      var start := Date(2026, 1, 1);
      var i := 0;
      while i < count
        invariant 0 <= i <= count && |dates| == i
        invariant forall k :: 0 <= k < i ==> dates[k] == PlannedDate(year, k)
      {
        dates := dates + [AddDays(start, i)];
        i := i + 1;
      }
    } else {
      var start := Date(year, 1, 15);
      var i := 0;
      while i < count
        invariant 0 <= i <= count && |dates| == i
        invariant forall k :: 0 <= k < i ==> dates[k] == PlannedDate(year, k)
      {
        dates := dates + [AddDays(start, i * 30)];
        i := i + 1;
      }
    }
  }

  /** In 2026 the dates are consecutive days from 1 January. */
  lemma Dates2026(i: nat)
    requires i < 365
    ensures PlannedDate(2026, i).year == 2026 && DayOfYear(PlannedDate(2026, i)) == i + 1
    ensures PlannedDate(2026, i + 1) == NextDay(PlannedDate(2026, i))
  {
    AddDaysWithinYear(Date(2026, 1, 1), i);
    AddDaysStep(Date(2026, 1, 1), i);
  }

  /** In any other year the `i`-th date is day `15 + 30 * i` of that year,
      for the twelve steps that stay inside it. */
  lemma DatesOtherYear(year: nat, i: nat)
    requires year >= 1 && year != 2026 && i < 12
    ensures PlannedDate(year, i).year == year && DayOfYear(PlannedDate(year, i)) == 15 + 30 * i
  {
    AddDaysWithinYear(Date(year, 1, 15), i * 30);
  }

  // ---- recreate_actions -------------------------------------------------

  /** A record the seed scripts plan to create. `objective` is an index
      into the list of objectives the script works with. */
  datatype Planned = Planned(
    title: string, smallDescription: string,
    description: string, descriptionGa: string,
    update: string, updateGa: string,
    objective: nat, status: Status, isApproved: bool,
    progressStartedAt: Option<Date>)

  /** `ensure_themes_and_objectives`: one objective per theme, titled after
      it, in this order. */
  const SeedThemes: seq<string> := ["Digital services", "Digital workforce", "Digital systems", "Digital communities"]

  function SeedObjectiveTitles(): (r: seq<string>)
    ensures |r| == |SeedThemes|
    ensures forall i :: 0 <= i < |r| ==> r[i] == SeedThemes[i] + " objective"
  {
    seq(|SeedThemes|, i requires 0 <= i < |SeedThemes| => SeedThemes[i] + " objective")
  }

  const ObjectiveCount: nat := |SeedThemes|

  /** The default `year_counts` argument. */
  const DefaultYearCounts: seq<(nat, nat)> := [(2024, 4), (2025, 2), (2026, 21)]

  predicate ValidYears(yearCounts: seq<(nat, nat)>) {
    forall k :: 0 <= k < |yearCounts| ==> yearCounts[k].0 >= 1
  }

  /** The `k`-th created Action (0-based), started on `d` in `year`. */
  function AutoAction(year: nat, d: Date, k: nat): Planned
    requires ValidDate(d)
  {
    Planned("Auto action " + DecimalString(year) + "-" + DecimalString(k + 1),
            "Auto-created action for " + DecimalString(year),
            "Auto-created action for seeding, start " + IsoFormat(d),
            "", "", "",
            k % ObjectiveCount, InProgress, true, Some(d))
  }

  /** The Actions of one `(year, count)` pair, numbered from `base`. */
  function YearBlock(year: nat, count: nat, base: nat): (r: seq<Planned>)
    requires year >= 1
    ensures |r| == count
  {
    seq(count, i requires 0 <= i < count => AutoAction(year, PlannedDate(year, i), base + i))
  }

  /** What `recreate_actions(year_counts)` creates, in order. */
  function Plan(yearCounts: seq<(nat, nat)>): seq<Planned>
    requires ValidYears(yearCounts)
  {
    if yearCounts == [] then []
    else
      var prev := Plan(yearCounts[..|yearCounts| - 1]);
      var last := yearCounts[|yearCounts| - 1];
      prev + YearBlock(last.0, last.1, |prev|)
  }

  function TotalCount(yearCounts: seq<(nat, nat)>): nat {
    if yearCounts == [] then 0 else TotalCount(yearCounts[..|yearCounts| - 1]) + yearCounts[|yearCounts| - 1].1
  }

  /** The inner loop of `recreate_actions`: one Action per date of `year`,
      numbered on from the `base` Actions created before. */
  method CreateYear(year: nat, count: nat, base: nat) returns (block: seq<Planned>)
    requires year >= 1
    ensures block == YearBlock(year, count, base)
  {
    var dates := DatesForYear(year, count);
    block := [];
    var idx := base;
    var j := 0;
    while j < |dates|
      invariant 0 <= j <= |dates| && idx == base + j
      invariant block == YearBlock(year, count, base)[..j]
    {
      var action := AutoAction(year, dates[j], idx);
      assert action == YearBlock(year, count, base)[j];
      PrefixSnoc(YearBlock(year, count, base), j);
      block := block + [action];
      idx := idx + 1;
      j := j + 1;
    }
  }

  /** `recreate_actions(year_counts)`: the Actions it creates, after it has
      deleted every existing one. */
  method RecreateActions(yearCounts: seq<(nat, nat)>) returns (created: seq<Planned>)
    requires ValidYears(yearCounts)
    ensures created == Plan(yearCounts)
  {
    created := [];
    var n := 0;
    while n < |yearCounts|
      invariant 0 <= n <= |yearCounts|
      invariant created == Plan(yearCounts[..n])
    {
      var (year, count) := yearCounts[n];
      var block := CreateYear(year, count, |created|);
      assert yearCounts[..n + 1][..n] == yearCounts[..n];
      created := created + block;
      n := n + 1;
    }
    assert yearCounts[..|yearCounts|] == yearCounts;
  }

  predicate EndsWith(s: string, suffix: string) {
    |suffix| <= |s| && s[|s| - |suffix|..] == suffix
  }

  /** The title of the `k`-th Action ends in `-` and the number `k + 1`. */
  lemma AutoTitleNumber(year: nat, d: Date, k: nat)
    requires ValidDate(d)
    ensures EndsWith(AutoAction(year, d, k).title, "-" + DecimalString(k + 1))
  {
    var head := "Auto action " + DecimalString(year);
    var tail := "-" + DecimalString(k + 1);
    assert AutoAction(year, d, k).title == head + tail;
    assert (head + tail)[|head|..] == tail;
  }

  /** Every planned Action is in progress, approved and started, the `k`-th
      goes to objective `k mod 4` and its title ends in `-(k + 1)`, and
      there are as many as the counts add up to. */
  lemma {:induction false} PlanShape(yearCounts: seq<(nat, nat)>)
    requires ValidYears(yearCounts)
    ensures |Plan(yearCounts)| == TotalCount(yearCounts)
    ensures forall k :: 0 <= k < |Plan(yearCounts)| ==>
              && Plan(yearCounts)[k].status == InProgress && Plan(yearCounts)[k].isApproved
              && Plan(yearCounts)[k].objective == k % ObjectiveCount
              && Plan(yearCounts)[k].progressStartedAt.Some?
              && EndsWith(Plan(yearCounts)[k].title, "-" + DecimalString(k + 1))
  {
    if yearCounts != [] {
      var init := yearCounts[..|yearCounts| - 1];
      var last := yearCounts[|yearCounts| - 1];
      PlanShape(init);
      var prev := Plan(init);
      var block := YearBlock(last.0, last.1, |prev|);
      var r := Plan(yearCounts);
      assert r == prev + block;
      forall k | |prev| <= k < |r|
        ensures r[k].status == InProgress && r[k].isApproved && r[k].objective == k % ObjectiveCount
        ensures r[k].progressStartedAt.Some? && EndsWith(r[k].title, "-" + DecimalString(k + 1))
      {
        var i := k - |prev|;
        assert r[k] == block[i];
        AutoTitleNumber(last.0, PlannedDate(last.0, i), k);
      }
      assert forall k :: 0 <= k < |prev| ==> r[k] == prev[k];
    }
  }

  /** The default plan: 27 Actions, the first four started in 2024, the next
      two in 2025 and the remaining 21 in 2026. */
  lemma DefaultPlan()
    ensures |Plan(DefaultYearCounts)| == 27
    ensures forall k :: 0 <= k < 27 ==> Plan(DefaultYearCounts)[k].progressStartedAt.Some?
    ensures forall k :: 0 <= k < 4 ==> Plan(DefaultYearCounts)[k].progressStartedAt.value.year == 2024
    ensures forall k :: 4 <= k < 6 ==> Plan(DefaultYearCounts)[k].progressStartedAt.value.year == 2025
    ensures forall k :: 6 <= k < 27 ==> Plan(DefaultYearCounts)[k].progressStartedAt.value.year == 2026
  {
    assert DefaultYearCounts == [(2024, 4), (2025, 2), (2026, 21)];
    ThreeYearPlan(2024, 4, 2025, 2, 2026, 21);
  }

  /** Can `count` dates of `year` be planned inside that year? */
  predicate FitsYear(year: nat, count: nat) {
    year >= 1 && (year == 2026 ==> count <= 365) && (year != 2026 ==> count <= 12)
  }

  /** Three `(year, count)` pairs create the first year's Actions, then the
      second's, then the third's, each started in its own year. */
  lemma ThreeYearPlan(y1: nat, c1: nat, y2: nat, c2: nat, y3: nat, c3: nat)
    requires FitsYear(y1, c1) && FitsYear(y2, c2) && FitsYear(y3, c3)
    ensures var r := Plan([(y1, c1), (y2, c2), (y3, c3)]);
            && |r| == c1 + c2 + c3
            && (forall k :: 0 <= k < |r| ==> r[k].progressStartedAt.Some?)
            && (forall k :: 0 <= k < c1 ==> r[k].progressStartedAt.value.year == y1)
            && (forall k :: c1 <= k < c1 + c2 ==> r[k].progressStartedAt.value.year == y2)
            && (forall k :: c1 + c2 <= k < |r| ==> r[k].progressStartedAt.value.year == y3)
  {
    var d := [(y1, c1), (y2, c2), (y3, c3)];
    var b1 := YearBlock(y1, c1, 0);
    var b2 := YearBlock(y2, c2, c1);
    var b3 := YearBlock(y3, c3, c1 + c2);
    assert Plan(d) == b1 + b2 + b3 by {
      var none: seq<(nat, nat)> := [];
      var d1, d2 := d[..1], d[..2];
      assert d2 == [(y1, c1), (y2, c2)] && d2[..1] == d1 && d1 == [(y1, c1)];
      assert Plan(d1) == b1 by { assert d1[..0] == none; }
      assert Plan(d2) == b1 + b2;
    }
    BlockYears(y1, c1, 0);
    BlockYears(y2, c2, c1);
    BlockYears(y3, c3, c1 + c2);
    ConcatStarts(b1, b2, b3, y1, y2, y3);
  }

  /** Every Action of `b` has a start date, in year `y`. */
  predicate StartsIn(b: seq<Planned>, y: int) {
    forall i :: 0 <= i < |b| ==> b[i].progressStartedAt.Some? && b[i].progressStartedAt.value.year == y
  }

  lemma ConcatStarts(b1: seq<Planned>, b2: seq<Planned>, b3: seq<Planned>, y1: int, y2: int, y3: int)
    requires StartsIn(b1, y1) && StartsIn(b2, y2) && StartsIn(b3, y3)
    ensures var r := b1 + b2 + b3;
            && (forall k :: 0 <= k < |r| ==> r[k].progressStartedAt.Some?)
            && (forall k :: 0 <= k < |b1| ==> r[k].progressStartedAt.value.year == y1)
            && (forall k :: |b1| <= k < |b1| + |b2| ==> r[k].progressStartedAt.value.year == y2)
            && (forall k :: |b1| + |b2| <= k < |r| ==> r[k].progressStartedAt.value.year == y3)
  {
    var r := b1 + b2 + b3;
    forall k | 0 <= k < |r|
      ensures r[k].progressStartedAt.Some?
      ensures k < |b1| ==> r[k].progressStartedAt.value.year == y1
      ensures |b1| <= k < |b1| + |b2| ==> r[k].progressStartedAt.value.year == y2
      ensures |b1| + |b2| <= k ==> r[k].progressStartedAt.value.year == y3
    {
      if k < |b1| {
        assert r[k] == b1[k];
      } else if k < |b1| + |b2| {
        assert r[k] == b2[k - |b1|];
      } else {
        assert r[k] == b3[k - |b1| - |b2|];
      }
    }
  }

  /** Every Action of a year's block starts in that year, as long as the
      dates fit in it: up to 365 days in 2026, up to twelve 30-day steps in
      any other year. */
  lemma BlockYears(year: nat, count: nat, base: nat)
    requires FitsYear(year, count)
    ensures StartsIn(YearBlock(year, count, base), year)
  {
    forall i | 0 <= i < count
      ensures YearBlock(year, count, base)[i].progressStartedAt == Some(PlannedDate(year, i)) && PlannedDate(year, i).year == year
    {
      if year == 2026 {
        Dates2026(i);
      } else {
        DatesOtherYear(year, i);
      }
    }
  }

  // ---- normalize_titles_and_texts and force_numeric_objective_titles -

  /** The objective title `f"{idx:03d}"` for the `i`-th objective (0-based). */
  function NumericTitle(i: nat): string {
    ZeroPad(i + 1, 3)
  }

  /** The action title `f"MCC_ACT_{idx:03d}"`. */
  function SerialTitle(prefix: string, i: nat): string {
    prefix + ZeroPad(i + 1, 3)
  }

  /** The generated filler texts, computed once and passed to the rewrites
      that use them. */
  datatype Filler = Filler(objectiveEn: string, objectiveGa: string, actionEn: string, actionGa: string)

  /** The filler texts for objectives of `objectiveWords` words and
      actions of `actionWords` words, in both languages. */
  function FillerOf(objectiveWords: nat, actionWords: nat): Filler {
    Filler(MakeWords(objectiveWords, "en"), MakeWords(objectiveWords, "ga"),
           MakeWords(actionWords, "en"), MakeWords(actionWords, "ga"))
  }

  /** The script fills objectives with `make_words(15, ...)` and actions
      with `make_words(10, ...)`. */
  function ScriptFiller(): (f: Filler) {
    FillerOf(15, 10)
  }

  /** Each filler text holds one space fewer than its word count. */
  lemma FillerOfWords(objectiveWords: nat, actionWords: nat)
    requires objectiveWords >= 1 && actionWords >= 1
    ensures var f := FillerOf(objectiveWords, actionWords);
      Occurrences(f.objectiveEn, ' ') == objectiveWords - 1 && Occurrences(f.objectiveGa, ' ') == objectiveWords - 1 &&
      Occurrences(f.actionEn, ' ') == actionWords - 1 && Occurrences(f.actionGa, ' ') == actionWords - 1
  {
    MakeWordsSpaces(objectiveWords, "en");
    MakeWordsSpaces(objectiveWords, "ga");
    MakeWordsSpaces(actionWords, "en");
    MakeWordsSpaces(actionWords, "ga");
  }

  function NormalizedObjective(o: Objective, i: nat, f: Filler): Objective {
    o.(title := NumericTitle(i), description := f.objectiveEn, descriptionGa := f.objectiveGa)
  }

  function NormalizedAction(a: ActionRow, i: nat, f: Filler): ActionRow {
    a.(title := SerialTitle("MCC_ACT_", i), smallDescription := f.actionEn, smallDescriptionGa := f.actionGa)
  }

  /** The first loop of `normalize_titles_and_texts`. */
  method NormalizeObjectives(objectives: seq<Objective>, f: Filler) returns (objs: seq<Objective>)
    ensures |objs| == |objectives| && forall i :: 0 <= i < |objs| ==> objs[i] == NormalizedObjective(objectives[i], i, f)
  {
    objs := [];
    var idx := 0;
    while idx < |objectives|
      invariant 0 <= idx <= |objectives| && |objs| == idx
      invariant forall i :: 0 <= i < idx ==> objs[i] == NormalizedObjective(objectives[i], i, f)
    {
      ghost var before := objs;
      objs := objs + [NormalizedObjective(objectives[idx], idx, f)];
      assert forall i :: 0 <= i < idx ==> objs[i] == before[i];
      idx := idx + 1;
    }
  }

  /** The second loop of `normalize_titles_and_texts`. */
  method NormalizeActions(actions: seq<ActionRow>, f: Filler) returns (acts: seq<ActionRow>)
    ensures |acts| == |actions| && forall i :: 0 <= i < |acts| ==> acts[i] == NormalizedAction(actions[i], i, f)
  {
    acts := [];
    var idx := 0;
    while idx < |actions|
      invariant 0 <= idx <= |actions| && |acts| == idx
      invariant forall i :: 0 <= i < idx ==> acts[i] == NormalizedAction(actions[i], i, f)
    {
      ghost var before := acts;
      acts := acts + [NormalizedAction(actions[idx], idx, f)];
      assert forall i :: 0 <= i < idx ==> acts[i] == before[i];
      idx := idx + 1;
    }
  }

  /** `normalize_titles_and_texts`, on the objectives and the actions in id
      order. */
  method NormalizeTitlesAndTexts(objectives: seq<Objective>, actions: seq<ActionRow>, f: Filler)
    returns (objs: seq<Objective>, acts: seq<ActionRow>)
    ensures |objs| == |objectives| && forall i :: 0 <= i < |objs| ==> objs[i] == NormalizedObjective(objectives[i], i, f)
    ensures |acts| == |actions| && forall i :: 0 <= i < |acts| ==> acts[i] == NormalizedAction(actions[i], i, f)
  {
    objs := NormalizeObjectives(objectives, f);
    acts := NormalizeActions(actions, f);
  }

  /** A numbered title gives its row's index back, and below 1000 rows it
      is three digits wide. */
  lemma NumericTitleRoundTrip(i: nat)
    ensures ParseDecimal(NumericTitle(i)) == i + 1
    ensures i + 1 < 1000 ==> |NumericTitle(i)| == 3
  {
    ZeroPadRoundTrip(i + 1, 3);
    if i + 1 < 1000 {
      DecimalLength(i + 1);
    }
  }

  /** So no two rows share a title, with or without a prefix. */
  lemma SerialTitlesDistinct(prefix: string, i: nat, j: nat)
    requires i != j
    ensures NumericTitle(i) != NumericTitle(j)
    ensures SerialTitle(prefix, i) != SerialTitle(prefix, j)
  {
    NumericTitleRoundTrip(i);
    NumericTitleRoundTrip(j);
    assert SerialTitle(prefix, i)[|prefix|..] == NumericTitle(i);
    assert SerialTitle(prefix, j)[|prefix|..] == NumericTitle(j);
  }

  const ObjectiveText := "The primary objective of this action is to revolutionize the way Meath County Council interacts with its citizens through a unified digital ."

  const ActionShort := "This is a ten word short description for testing purposes."

  /** `force_numeric_objective_titles`, on the objectives and the actions in
      id order. */
  method ForceNumericObjectiveTitles(objectives: seq<Objective>, actions: seq<ActionRow>)
    returns (objs: seq<Objective>, acts: seq<ActionRow>)
    ensures |objs| == |objectives| && |acts| == |actions|
    ensures forall i :: 0 <= i < |objs| ==>
              objs[i] == objectives[i].(title := NumericTitle(i), description := ObjectiveText, descriptionGa := ObjectiveText)
    ensures forall i :: 0 <= i < |acts| ==>
              acts[i] == actions[i].(smallDescription := ActionShort, smallDescriptionGa := ActionShort)
  {
    objs := [];
    var idx := 0;
    while idx < |objectives|
      invariant 0 <= idx <= |objectives| && |objs| == idx
      invariant forall i :: 0 <= i < idx ==>
                  objs[i] == objectives[i].(title := NumericTitle(i), description := ObjectiveText, descriptionGa := ObjectiveText)
    {
      objs := objs + [objectives[idx].(title := ZeroPad(idx + 1, 3), description := ObjectiveText,
                                       descriptionGa := ObjectiveText)];
      idx := idx + 1;
    }
    acts := [];
    idx := 0;
    while idx < |actions|
      invariant 0 <= idx <= |actions| && |acts| == idx
      invariant forall i :: 0 <= i < idx ==> acts[i] == actions[i].(smallDescription := ActionShort, smallDescriptionGa := ActionShort)
    {
      acts := acts + [actions[idx].(smallDescription := ActionShort, smallDescriptionGa := ActionShort)];
      idx := idx + 1;
    }
  }

  // ---- ensure_ten_objectives_per_theme ----------------------------------

  /** An objective the script plans to add to a Theme. */
  datatype NewObjective = NewObjective(title: string, description: string, descriptionGa: string, theme: nat)

  /** `need = 10 - len(existing)`; `range` of a negative number is empty. */
  function Need(existing: nat): nat {
    if existing < 10 then 10 - existing else 0
  }

  /** The objectives added to Theme `t`, which has `existing` already,
      numbered on from `existing + 1`. */
  function TenBlock(t: Theme, existing: nat, f: Filler): (r: seq<NewObjective>)
    ensures |r| == Need(existing)
  {
    seq(Need(existing), i requires 0 <= i < Need(existing) =>
      NewObjective(t.title + " - " + ZeroPad(existing + 1 + i, 3), f.objectiveEn, f.objectiveGa, t.id))
  }

  /** Every Theme with its current number of objectives. */
  function TenPlan(themes: seq<(Theme, nat)>, f: Filler): seq<NewObjective> {
    if themes == [] then []
    else TenPlan(themes[..|themes| - 1], f) + TenBlock(themes[|themes| - 1].0, themes[|themes| - 1].1, f)
  }

  function NeedTotal(themes: seq<(Theme, nat)>): nat {
    if themes == [] then 0 else NeedTotal(themes[..|themes| - 1]) + Need(themes[|themes| - 1].1)
  }

  /** `ensure_ten_objectives_per_theme`: the objectives it creates and
      `created_total`. */
  method EnsureTenObjectivesPerTheme(themes: seq<(Theme, nat)>, f: Filler) returns (created: seq<NewObjective>, createdTotal: nat)
    ensures created == TenPlan(themes, f)
    ensures createdTotal == |created|
  {
    created := [];
    createdTotal := 0;
    var n := 0;
    while n < |themes|
      invariant 0 <= n <= |themes|
      invariant created == TenPlan(themes[..n], f) && createdTotal == |created|
    {
      var (theme, existing) := themes[n];
      var need: int := 10 - (existing as int);
      var startIndex := existing + 1;
      var i := 0;
      ghost var prev := created;
      while i < need
        invariant 0 <= i <= Need(existing)
        invariant created == prev + TenBlock(theme, existing, f)[..i] && createdTotal == |created|
      {
        var num := startIndex + i;
        var obj := NewObjective(theme.title + " - " + ZeroPad(num, 3), f.objectiveEn, f.objectiveGa, theme.id);
        assert TenBlock(theme, existing, f)[..i + 1] == TenBlock(theme, existing, f)[..i] + [obj];
        created := created + [obj];
        createdTotal := createdTotal + 1;
        i := i + 1;
      }
      assert i == Need(existing);
      assert TenBlock(theme, existing, f)[..i] == TenBlock(theme, existing, f);
      assert themes[..n + 1][..n] == themes[..n];
      assert themes[..n + 1][n] == (theme, existing);
      n := n + 1;
    }
    assert themes[..|themes|] == themes;
  }

  /** Each Theme gets `max(0, 10 - existing)` new objectives, so it ends with
      at least ten, and the new titles carry the numbers `existing + 1` to
      `10`, each once. */
  lemma TenObjectivesEach(t: Theme, existing: nat, f: Filler)
    ensures |TenBlock(t, existing, f)| == (if existing < 10 then 10 - existing else 0)
    ensures existing + |TenBlock(t, existing, f)| >= 10
    ensures forall i :: 0 <= i < |TenBlock(t, existing, f)| ==>
              && TenBlock(t, existing, f)[i].theme == t.id
              && |t.title| + 3 <= |TenBlock(t, existing, f)[i].title|
              && TenBlock(t, existing, f)[i].title[..|t.title| + 3] == t.title + " - "
              && AllDigits(TenBlock(t, existing, f)[i].title[|t.title| + 3..])
              && ParseDecimal(TenBlock(t, existing, f)[i].title[|t.title| + 3..]) == existing + 1 + i
  {
    forall i | 0 <= i < |TenBlock(t, existing, f)|
      ensures |t.title| + 3 <= |TenBlock(t, existing, f)[i].title|
      ensures TenBlock(t, existing, f)[i].title[..|t.title| + 3] == t.title + " - "
      ensures AllDigits(TenBlock(t, existing, f)[i].title[|t.title| + 3..])
      ensures ParseDecimal(TenBlock(t, existing, f)[i].title[|t.title| + 3..]) == existing + 1 + i
    {
      var pad := ZeroPad(existing + 1 + i, 3);
      assert TenBlock(t, existing, f)[i].title == t.title + " - " + pad;
      assert (t.title + " - " + pad)[|t.title| + 3..] == pad;
      assert (t.title + " - " + pad)[..|t.title| + 3] == t.title + " - ";
      ZeroPadRoundTrip(existing + 1 + i, 3);
    }
  }

  /** `created_total` is the sum over the Themes of what each needed. */
  lemma {:induction false} TenPlanTotal(themes: seq<(Theme, nat)>, f: Filler)
    ensures |TenPlan(themes, f)| == NeedTotal(themes)
  {
    if themes != [] {
      TenPlanTotal(themes[..|themes| - 1], f);
    }
  }

  // ---- enrich_actions_and_create_not_started ----------------------------

  const TextSizes: seq<nat> := [50, 100, 200, 300, 400]

  /** The `idx`-th action (0-based, id order) after enrichment. */
  function Enriched(a: ActionRow, idx: nat): ActionRow {
    var size := TextSizes[idx % |TextSizes|];
    var en := RepeatWords("sample", size);
    var ga := RepeatWords("samplach", size);
    a.(description := en, update := en, descriptionGa := ga, updateGa := ga)
  }

  /** The `i`-th NOT_STARTED action, for an objective list of `objCount`. */
  function NotStartedAction(i: nat, objCount: nat): Planned
    requires objCount > 0
  {
    Planned("Seed NotStarted Action " + DecimalString(i + 1), "Not started action " + DecimalString(i + 1),
            RepeatWords("sample", 50), RepeatWords("samplach", 50), "", "",
            i % objCount, NotStarted, false, None)
  }

  /** `enrich_actions_and_create_not_started(num_not_started)`, given the
      actions in id order and the number of objectives. When there is no
      objective the script first creates 'Auto Objective' (under the Theme
      'Auto Theme') and uses it for every new action. */
  method EnrichActionsAndCreateNotStarted(actions: seq<ActionRow>, objectiveCount: nat, numNotStarted: nat)
    returns (enriched: seq<ActionRow>, updated: nat, autoObjective: bool, created: seq<Planned>)
    ensures |enriched| == |actions| && updated == |actions|
    ensures forall i :: 0 <= i < |enriched| ==> enriched[i] == Enriched(actions[i], i)
    ensures autoObjective <==> objectiveCount == 0
    ensures |created| == numNotStarted
    ensures forall i :: 0 <= i < |created| ==>
              created[i] == NotStartedAction(i, if objectiveCount == 0 then 1 else objectiveCount)
  {
    var sizes := TextSizes;
    enriched := [];
    updated := 0;
    var idx := 0;
    while idx < |actions|
      invariant 0 <= idx <= |actions| && |enriched| == idx && updated == idx
      invariant forall i :: 0 <= i < idx ==> enriched[i] == Enriched(actions[i], i)
    {
      var size := sizes[idx % |sizes|];
      var enText := RepeatWords("sample", size);
      var gaText := RepeatWords("samplach", size);
      enriched := enriched + [actions[idx].(description := enText, update := enText,
                                            descriptionGa := gaText, updateGa := gaText)];
      updated := updated + 1;
      idx := idx + 1;
    }
    var objCount := objectiveCount;
    autoObjective := false;
    if objCount == 0 {
      autoObjective := true;
      objCount := 1;
    }
    created := [];
    var i := 0;
    while i < numNotStarted
      invariant 0 <= i <= numNotStarted && |created| == i
      invariant forall k :: 0 <= k < i ==> created[k] == NotStartedAction(k, objCount)
    {
      created := created + [NotStartedAction(i, objCount)];
      i := i + 1;
    }
  }

  /** Enrichment cycles through the five sizes: the description and the
      update hold the same number of words, and that number repeats every
      five actions. */
  lemma EnrichedSizes(a: ActionRow, idx: nat)
    ensures Enriched(a, idx).update == Enriched(a, idx).description
    ensures |Enriched(a, idx).description| == 7 * TextSizes[idx % 5] - 1
    ensures |Enriched(a, idx).descriptionGa| == 9 * TextSizes[idx % 5] - 1
    ensures Enriched(a, idx + 5).description == Enriched(a, idx).description
  {
    var size := TextSizes[idx % 5];
    RepeatWordsLength("sample", size);
    RepeatWordsLength("samplach", size);
    assert (idx + 5) % 5 == idx % 5;
  }

  /** The added actions are not started, unapproved, without a start date
      and with no progress text. */
  lemma NotStartedActionsShape(i: nat, objCount: nat)
    requires objCount > 0
    ensures NotStartedAction(i, objCount).status == NotStarted
    ensures !NotStartedAction(i, objCount).isApproved
    ensures NotStartedAction(i, objCount).progressStartedAt.None?
    ensures !IsProgress(NotStartedAction(i, objCount).update)
    ensures NotStartedAction(i, objCount).objective < objCount
  {
  }
}
