/** seed_mock_data.py's `seed()`: after wiping the tables it creates four
    Themes with fixed ids, at most 29 objectives numbered `001` on, spread
    over the Themes in order, and 122 approved Actions titled
    `ACT_ACC_001` on, assigned round-robin to the objectives, of which the
    first 40 are completed, the next 40 in progress and the rest not
    started. The long filler text is a parameter. */
module SeedMockData {
  import opened Text
  import opened Seqs
  import opened Models
  import opened SeedActions

  /** An entry of `themes_data`. */
  datatype ThemeSeed = ThemeSeed(id: nat, en: string, ga: string)

  const ThemesData: seq<ThemeSeed> := [
    ThemeSeed(8, "Digital Services", "Seirbh\U{ed}s\U{ed} Digiteacha"),
    ThemeSeed(3, "Digital Workforce", "F\U{f3}rsa Saothair Digiteach"),
    ThemeSeed(4, "Digital Systems", "C\U{f3}rais Dhigiteacha"),
    ThemeSeed(5, "Digital Communities", "Pobail Dhigiteacha")
  ]

  const ObjectivesPerTheme: seq<nat> := [15, 8, 6, 5]
  const MaxObjectives: nat := 29
  const TotalActions: nat := 122
  const CompletedTarget: nat := 40
  const InProgressTarget: nat := 40
  const ShortDescription := "This is a ten word short description for testing purposes."

  /** `zip(themes_data, objectives_per_theme)`. */
  function Zip(themes: seq<ThemeSeed>, counts: seq<nat>): (r: seq<(ThemeSeed, nat)>)
    ensures |r| == if |themes| < |counts| then |themes| else |counts|
    ensures forall k :: 0 <= k < |r| ==> r[k] == (themes[k], counts[k])
  {
    if themes == [] || counts == [] then [] else [(themes[0], counts[0])] + Zip(themes[1..], counts[1..])
  }

  /** Python's `s[:n]`. */
  function Take(s: string, n: nat): (r: string)
    ensures |r| == if |s| < n then |s| else n
    ensures forall i :: 0 <= i < |r| ==> r[i] == s[i]
  {
    if |s| <= n then s else s[..n]
  }

  /** A created objective; `theme` is its Theme's id. */
  datatype MockObjective = MockObjective(title: string, description: string, theme: nat)

  function ObjectiveDescription(mega: string): string {
    "<div><p>" + Take(mega, 150) + "...</p></div>"
  }

  /** How many objectives a Theme asking for `count` gets once `made`
      exist: the inner loop stops as soon as the counter passes the cap. */
  function Allotted(count: nat, made: nat, cap: nat): (n: nat)
    ensures n <= count
    ensures made <= cap ==> made + n <= cap
    ensures made < cap ==> n == count || made + n == cap
    ensures made >= cap ==> n == 0
  {
    if made >= cap then 0 else if count <= cap - made then count else cap - made
  }

  /** The `n` objectives of Theme `t`, numbered on from `made + 1`. */
  function ThemeBlock(t: ThemeSeed, n: nat, made: nat, mega: string): (r: seq<MockObjective>)
    ensures |r| == n
  {
    seq(n, i requires 0 <= i < n => MockObjective(ZeroPad(made + 1 + i, 3), ObjectiveDescription(mega), t.id))
  }

  /** All objectives the Theme loop creates, in order. */
  function ObjectivePlan(pairs: seq<(ThemeSeed, nat)>, cap: nat, mega: string): seq<MockObjective> {
    if pairs == [] then []
    else
      var prev := ObjectivePlan(pairs[..|pairs| - 1], cap, mega);
      var last := pairs[|pairs| - 1];
      prev + ThemeBlock(last.0, Allotted(last.1, |prev|, cap), |prev|, mega)
  }

  function ToTheme(t: ThemeSeed): Theme {
    Theme(t.id, t.en, t.ga)
  }

  /** The Theme loop of `seed()`: one Theme per entry, then its objectives
      until the counter passes `cap`. */
  method SeedThemesAndObjectives(pairs: seq<(ThemeSeed, nat)>, cap: nat, mega: string)
    returns (themes: seq<Theme>, objectives: seq<MockObjective>, objectiveCounter: nat)
    ensures |themes| == |pairs| && forall k :: 0 <= k < |pairs| ==> themes[k] == ToTheme(pairs[k].0)
    ensures objectives == ObjectivePlan(pairs, cap, mega)
    ensures objectiveCounter == |objectives| + 1 && |objectives| <= cap
  {
    themes := [];
    objectives := [];
    objectiveCounter := 1;
    var n := 0;
    while n < |pairs|
      invariant 0 <= n <= |pairs|
      invariant ThemesUpTo(themes, pairs, n)
      invariant objectives == ObjectivePlan(pairs[..n], cap, mega)
      invariant objectiveCounter == |objectives| + 1 && |objectives| <= cap
    {
      var (item, objCount) := pairs[n];
      ThemesUpToSnoc(themes, pairs, n);
      themes := themes + [Theme(item.id, item.en, item.ga)];
      objectives, objectiveCounter := CreateThemeObjectives(item, objCount, cap, mega, objectives, objectiveCounter);
      ObjectivePlanSnoc(pairs, n, cap, mega);
      n := n + 1;
    }
    assert pairs[..|pairs|] == pairs;
  }

  /** The inner loop of the Theme loop: up to `objCount` objectives of
      Theme `item`, stopping once the counter passes `cap`. */
  method CreateThemeObjectives(item: ThemeSeed, objCount: nat, cap: nat, mega: string,
                               prev: seq<MockObjective>, counter: nat)
    returns (objectives: seq<MockObjective>, objectiveCounter: nat)
    requires counter == |prev| + 1 && |prev| <= cap
    ensures objectives == prev + ThemeBlock(item, Allotted(objCount, |prev|, cap), |prev|, mega)
    ensures objectiveCounter == |objectives| + 1 && |objectives| <= cap
  {
    objectives, objectiveCounter := prev, counter;
    var i := 1;
    while i < objCount + 1
      invariant 1 <= i <= objCount + 1 && |prev| + i - 1 <= cap
      invariant objectives == prev + ThemeBlock(item, i - 1, |prev|, mega)
      invariant objectiveCounter == |objectives| + 1
    {
      if objectiveCounter > cap {
        break;
      }
      var obj := MockObjective(ZeroPad(objectiveCounter, 3), ObjectiveDescription(mega), item.id);
      ThemeBlockSnoc(item, i - 1, |prev|, mega);
      objectives := objectives + [obj];
      objectiveCounter := objectiveCounter + 1;
      i := i + 1;
    }
    assert i - 1 == Allotted(objCount, |prev|, cap);
  }

  /** `themes` are the Themes of the first `n` entries. */
  predicate ThemesUpTo(themes: seq<Theme>, pairs: seq<(ThemeSeed, nat)>, n: nat)
    requires n <= |pairs|
  {
    |themes| == n && forall k :: 0 <= k < n ==> themes[k] == ToTheme(pairs[k].0)
  }

  lemma ThemesUpToSnoc(themes: seq<Theme>, pairs: seq<(ThemeSeed, nat)>, n: nat)
    requires n < |pairs| && ThemesUpTo(themes, pairs, n)
    ensures ThemesUpTo(themes + [ToTheme(pairs[n].0)], pairs, n + 1)
  {
    assert forall k :: 0 <= k < n ==> (themes + [ToTheme(pairs[n].0)])[k] == themes[k];
  }

  lemma ThemeBlockSnoc(t: ThemeSeed, n: nat, made: nat, mega: string)
    ensures ThemeBlock(t, n + 1, made, mega)
            == ThemeBlock(t, n, made, mega) + [MockObjective(ZeroPad(made + 1 + n, 3), ObjectiveDescription(mega), t.id)]
  {
  }

  lemma ObjectivePlanSnoc(pairs: seq<(ThemeSeed, nat)>, n: nat, cap: nat, mega: string)
    requires n < |pairs|
    ensures var prev := ObjectivePlan(pairs[..n], cap, mega);
            ObjectivePlan(pairs[..n + 1], cap, mega)
            == prev + ThemeBlock(pairs[n].0, Allotted(pairs[n].1, |prev|, cap), |prev|, mega)
  {
    assert pairs[..n + 1][..n] == pairs[..n];
  }

  /** Each objective's title is its position, counted from 1 and padded to
      three digits. */
  lemma {:induction false} ObjectiveTitlesNumbered(pairs: seq<(ThemeSeed, nat)>, cap: nat, mega: string)
    ensures |ObjectivePlan(pairs, cap, mega)| <= cap
    ensures forall k :: 0 <= k < |ObjectivePlan(pairs, cap, mega)| ==>
              ObjectivePlan(pairs, cap, mega)[k].title == NumericTitle(k)
  {
    if pairs != [] {
      var init := pairs[..|pairs| - 1];
      ObjectiveTitlesNumbered(init, cap, mega);
      var prev := ObjectivePlan(init, cap, mega);
      var last := pairs[|pairs| - 1];
      var block := ThemeBlock(last.0, Allotted(last.1, |prev|, cap), |prev|, mega);
      var r := ObjectivePlan(pairs, cap, mega);
      assert r == prev + block;
      forall k | 0 <= k < |r| ensures r[k].title == NumericTitle(k) {
        if k >= |prev| {
          assert r[k] == block[k - |prev|];
        } else {
          assert r[k] == prev[k];
        }
      }
    }
  }

  /** With the script's numbers the four Themes get 15, 8, 6 and 0
      objectives: 29 in all, titled `001` to `029`, the first fifteen under
      Theme 8, the next eight under Theme 3 and the last six under Theme 4. */
  lemma DefaultObjectives(mega: string)
    ensures var objs := ObjectivePlan(Zip(ThemesData, ObjectivesPerTheme), MaxObjectives, mega);
            && |objs| == 29
            && (forall k :: 0 <= k < 15 ==> objs[k].theme == 8)
            && (forall k :: 15 <= k < 23 ==> objs[k].theme == 3)
            && (forall k :: 23 <= k < 29 ==> objs[k].theme == 4)
            && (forall k :: 0 <= k < 29 ==> objs[k].title == NumericTitle(k) && ParseDecimal(objs[k].title) == k + 1)
  {
    var pairs := Zip(ThemesData, ObjectivesPerTheme);
    var none: seq<(ThemeSeed, nat)> := [];
    var p1, p2, p3 := pairs[..1], pairs[..2], pairs[..3];
    assert p1[..0] == none && p2[..1] == p1 && p3[..2] == p2 && pairs[..3] == p3;
    var b1 := ThemeBlock(ThemesData[0], 15, 0, mega);
    var b2 := ThemeBlock(ThemesData[1], 8, 15, mega);
    var b3 := ThemeBlock(ThemesData[2], 6, 23, mega);
    var objs := ObjectivePlan(pairs, 29, mega);
    assert objs == b1 + b2 + b3 by {
      assert ObjectivePlan(p1, 29, mega) == b1;
      assert ObjectivePlan(p2, 29, mega) == b1 + b2;
      assert ObjectivePlan(p3, 29, mega) == b1 + b2 + b3;
      assert ThemeBlock(ThemesData[3], 0, 29, mega) == [];
    }
    assert ThemesData[0].id == 8 && ThemesData[1].id == 3 && ThemesData[2].id == 4;
    ConcatThemes(b1, b2, b3, 8, 3, 4);
    assert forall k :: 0 <= k < 29 ==> objs[k].title == NumericTitle(k) && ParseDecimal(objs[k].title) == k + 1 by {
      ObjectiveTitlesNumbered(pairs, 29, mega);
      forall k | 0 <= k < 29 ensures ParseDecimal(NumericTitle(k)) == k + 1 {
        NumericTitleRoundTrip(k);
      }
    }
  }

  /** Every objective of `b` belongs to Theme `id`. */
  predicate UnderThemeId(b: seq<MockObjective>, id: nat) {
    forall i :: 0 <= i < |b| ==> b[i].theme == id
  }

  lemma ConcatThemes(b1: seq<MockObjective>, b2: seq<MockObjective>, b3: seq<MockObjective>, t1: nat, t2: nat, t3: nat)
    requires UnderThemeId(b1, t1) && UnderThemeId(b2, t2) && UnderThemeId(b3, t3)
    ensures var r := b1 + b2 + b3;
            && (forall k :: 0 <= k < |b1| ==> r[k].theme == t1)
            && (forall k :: |b1| <= k < |b1| + |b2| ==> r[k].theme == t2)
            && (forall k :: |b1| + |b2| <= k < |r| ==> r[k].theme == t3)
  {
    var r := b1 + b2 + b3;
    forall k | 0 <= k < |r|
      ensures k < |b1| ==> r[k].theme == t1
      ensures |b1| <= k < |b1| + |b2| ==> r[k].theme == t2
      ensures |b1| + |b2| <= k ==> r[k].theme == t3
    {
      if k < |b1| {
        assert r[k] == b1[k];
      } else if k < |b1| + |b2| {
        assert r[k] == b2[k - |b1|];
      } else {
        assert r[k] == b3[k - |b1| - |b2|];
      }
    }
  }

  /** A created Action; `objective` is the position of its objective in
      `all_objectives`. */
  datatype MockAction = MockAction(title: string, smallDescription: string, description: string,
                                   update: string, objective: nat, status: Status, isApproved: bool)

  /** The status of the `i`-th Action (0-based). */
  function StatusAt(i: nat): Status {
    if i < CompletedTarget then Completed
    else if i < CompletedTarget + InProgressTarget then InProgress
    else NotStarted
  }

  function UpdateText(status: Status, mega: string): string {
    if status != NotStarted then "<div><p>" + mega + "</p></div>" else ""
  }

  /** The `i`-th Action (0-based) over `objCount` objectives. */
  function MockActionAt(i: nat, objCount: nat, mega: string): MockAction
    requires objCount > 0
  {
    MockAction(SerialTitle("ACT_ACC_", i), ShortDescription,
               "<div><p>" + mega + "</p><p>" + mega + "</p></div>",
               UpdateText(StatusAt(i), mega), i % objCount, StatusAt(i), true)
  }

  /** The Action loop of `seed()`, over `objCount` objectives (the script
      fails with a division by zero when there are none). */
  method CreateActions(objCount: nat, mega: string) returns (actions: seq<MockAction>, actionCounter: nat)
    requires objCount > 0
    ensures |actions| == TotalActions && actionCounter == TotalActions + 1
    ensures forall i :: 0 <= i < |actions| ==> actions[i] == MockActionAt(i, objCount, mega)
  {
    actions := [];
    actionCounter := 1;
    var i := 0;
    while i < TotalActions
      invariant 0 <= i <= TotalActions && actionCounter == i + 1
      invariant CreatedUpTo(actions, i, objCount, mega)
    {
      var obj := i % objCount;
      var serialTitle := "ACT_ACC_" + ZeroPad(actionCounter, 3);
      var status;
      if i < CompletedTarget {
        status := Completed;
      } else if i < CompletedTarget + InProgressTarget {
        status := InProgress;
      } else {
        status := NotStarted;
      }
      var updateText := if status != NotStarted then "<div><p>" + mega + "</p></div>" else "";
      var action := MockAction(serialTitle, ShortDescription, "<div><p>" + mega + "</p><p>" + mega + "</p></div>",
                               updateText, obj, status, true);
      assert action == MockActionAt(i, objCount, mega) by {
        assert status == StatusAt(i) && updateText == UpdateText(StatusAt(i), mega);
      }
      CreatedUpToSnoc(actions, action, i, objCount, mega);
      actions := actions + [action];
      actionCounter := actionCounter + 1;
      i := i + 1;
    }
  }

  /** `actions` are the first `n` Actions the loop creates. */
  predicate CreatedUpTo(actions: seq<MockAction>, n: nat, objCount: nat, mega: string)
    requires objCount > 0
  {
    |actions| == n && forall k :: 0 <= k < n ==> actions[k] == MockActionAt(k, objCount, mega)
  }

  lemma CreatedUpToSnoc(actions: seq<MockAction>, action: MockAction, n: nat, objCount: nat, mega: string)
    requires objCount > 0
    requires CreatedUpTo(actions, n, objCount, mega) && action == MockActionAt(n, objCount, mega)
    ensures CreatedUpTo(actions + [action], n + 1, objCount, mega)
  {
    assert forall k :: 0 <= k < n ==> (actions + [action])[k] == actions[k];
  }

  /** The whole `seed()`: the Themes, the objectives and the Actions, and
      the number the final message reports. */
  method Seed(mega: string)
    returns (themes: seq<Theme>, objectives: seq<MockObjective>, actions: seq<MockAction>, reported: nat)
    ensures |themes| == 4 && forall k :: 0 <= k < 4 ==> themes[k] == ToTheme(ThemesData[k])
    ensures objectives == ObjectivePlan(Zip(ThemesData, ObjectivesPerTheme), MaxObjectives, mega)
    ensures |objectives| == 29
    ensures |actions| == TotalActions && reported == TotalActions
    ensures forall i :: 0 <= i < |actions| ==> actions[i] == MockActionAt(i, |objectives|, mega)
  {
    var objectiveCounter;
    themes, objectives, objectiveCounter := SeedThemesAndObjectives(Zip(ThemesData, ObjectivesPerTheme), MaxObjectives, mega);
    DefaultObjectives(mega);
    var actionCounter;
    actions, actionCounter := CreateActions(|objectives|, mega);
    reported := actionCounter - 1;
  }

  /** The created Actions, as a sequence. */
  function ActionPlan(objCount: nat, mega: string): (r: seq<MockAction>)
    requires objCount > 0
    ensures |r| == TotalActions
  {
    seq(TotalActions, i requires 0 <= i < TotalActions => MockActionAt(i, objCount, mega))
  }

  function HasStatus(st: Status): MockAction -> bool {
    (a: MockAction) => a.status == st
  }

  /** Counting a status over the three index ranges of the partition. */
  lemma CountThreeRanges(xs: seq<MockAction>, st: Status)
    requires |xs| == TotalActions
    ensures Count(xs, HasStatus(st))
            == Count(xs[..40], HasStatus(st)) + Count(xs[40..80], HasStatus(st)) + Count(xs[80..], HasStatus(st))
  {
    var a, b, c := xs[..40], xs[40..80], xs[80..];
    assert xs == a + b + c;
    FilterAppend(a + b, c, HasStatus(st));
    FilterAppend(a, b, HasStatus(st));
  }

  /** The statuses of the created Actions by index range. */
  lemma PlanStatuses(objCount: nat, mega: string)
    requires objCount > 0
    ensures var xs := ActionPlan(objCount, mega);
            && (forall i :: 0 <= i < 40 ==> xs[..40][i].status == Completed)
            && (forall i :: 0 <= i < 40 ==> xs[40..80][i].status == InProgress)
            && (forall i :: 0 <= i < 42 ==> xs[80..][i].status == NotStarted)
  {
    var xs := ActionPlan(objCount, mega);
    forall i | 0 <= i < 40 ensures xs[..40][i].status == Completed {
      assert xs[..40][i] == xs[i];
    }
    forall i | 0 <= i < 40 ensures xs[40..80][i].status == InProgress {
      assert xs[40..80][i] == xs[40 + i];
    }
    forall i | 0 <= i < 42 ensures xs[80..][i].status == NotStarted {
      assert xs[80..][i] == xs[80 + i];
    }
  }

  /** The count of one status, from which of the three ranges hold it. */
  lemma RangeCount(objCount: nat, mega: string, st: Status, first: bool, second: bool, third: bool)
    requires objCount > 0
    requires first <==> st == Completed
    requires second <==> st == InProgress
    requires third <==> st == NotStarted
    ensures Count(ActionPlan(objCount, mega), HasStatus(st))
            == (if first then 40 else 0) + (if second then 40 else 0) + (if third then 42 else 0)
  {
    var xs := ActionPlan(objCount, mega);
    PlanStatuses(objCount, mega);
    CountThreeRanges(xs, st);
    if first { FilterAll(xs[..40], HasStatus(st)); } else { FilterNone(xs[..40], HasStatus(st)); }
    if second { FilterAll(xs[40..80], HasStatus(st)); } else { FilterNone(xs[40..80], HasStatus(st)); }
    if third { FilterAll(xs[80..], HasStatus(st)); } else { FilterNone(xs[80..], HasStatus(st)); }
  }

  /** Indices below 40 are completed, 40 to 79 in progress and the rest not
      started: 40, 40 and 42 Actions. */
  lemma StatusCounts(objCount: nat, mega: string)
    requires objCount > 0
    ensures Count(ActionPlan(objCount, mega), HasStatus(Completed)) == 40
    ensures Count(ActionPlan(objCount, mega), HasStatus(InProgress)) == 40
    ensures Count(ActionPlan(objCount, mega), HasStatus(NotStarted)) == 42
  {
    RangeCount(objCount, mega, Completed, true, false, false);
    RangeCount(objCount, mega, InProgress, false, true, false);
    RangeCount(objCount, mega, NotStarted, false, false, true);
  }

  /** An Action has progress text exactly when it is not NOT_STARTED; every
      Action is approved, goes to an existing objective and has a title no
      other Action shares. */
  lemma MockActionShape(i: nat, j: nat, objCount: nat, mega: string)
    requires objCount > 0
    ensures var a := MockActionAt(i, objCount, mega);
            && (a.update != [] <==> a.status != NotStarted)
            && a.isApproved && a.objective < objCount
    ensures i != j ==> MockActionAt(i, objCount, mega).title != MockActionAt(j, objCount, mega).title
  {
    if i != j {
      SerialTitlesDistinct("ACT_ACC_", i, j);
    }
  }

  /** Titles run `ACT_ACC_001` to `ACT_ACC_122`: the number after the prefix
      is the Action's position from 1. */
  lemma ActionTitleNumber(i: nat, objCount: nat, mega: string)
    requires objCount > 0 && i < TotalActions
    ensures var t := MockActionAt(i, objCount, mega).title;
            && |t| == 11 && t[..8] == "ACT_ACC_" && ParseDecimal(t[8..]) == i + 1
  {
    NumericTitleRoundTrip(i);
    var t := MockActionAt(i, objCount, mega).title;
    assert t == "ACT_ACC_" + NumericTitle(i);
    assert t[8..] == NumericTitle(i);
  }

  /** The final message calls every Action NOT_STARTED, but the first one is
      completed and the 41st in progress. */
  lemma NotAllNotStarted(objCount: nat, mega: string)
    requires objCount > 0
    ensures ActionPlan(objCount, mega)[0].status == Completed
    ensures ActionPlan(objCount, mega)[40].status == InProgress
  {
  }
}
