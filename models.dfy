/** Themes, Objectives and Actions (tracker_app/models.py).

    The Action record carries the fields the admin, the views and the tests
    use (bilingual texts, status, the two approval flags, the start date and
    the last-update date) besides the `is_progress` flag that models.py's own
    `save` maintains. A stored Action is an `ActionRow` value; the object an
    editor changes in place is the `Action` class. Persistence is a `Store`:
    three tables, each in ascending id order. */
module Models {
  import opened Wrappers
  import opened Text
  import opened Calendar
  import opened Seqs

  datatype Status = NotStarted | InProgress | Completed

  datatype User = User(id: nat, username: string, isSuperuser: bool)

  datatype Theme = Theme(id: nat, title: string, titleGa: string)

  datatype Objective = Objective(
    id: nat, title: string, titleGa: string,
    description: string, descriptionGa: string,
    theme: nat)

  datatype ActionRow = ActionRow(
    id: nat, title: string,
    smallDescription: string, smallDescriptionGa: string,
    description: string, descriptionGa: string,
    update: string, updateGa: string,
    objective: nat,
    status: Status, isApproved: bool, isGaApproved: bool,
    progressStartedAt: Option<Date>, updatedAt: Date)

  /** `Action.save`'s rule: the action is in progress when its update text
      is not blank. */
  predicate IsProgress(update: string) {
    !AllSpace(update)
  }

  /** Not blank is what `update.strip()` being non-empty tests. */
  lemma IsProgressIff(update: string)
    ensures IsProgress(update) <==> Strip(update) != []
    ensures IsProgress(update) <==> exists i :: 0 <= i < |update| && !IsSpace(update[i])
  {
    StripEmptyIff(update);
  }

  /** An Action object as an editor's request holds it. */
  class Action {
    var id: nat
    var title: string
    var smallDescription: string
    var smallDescriptionGa: string
    var description: string
    var descriptionGa: string
    var update: string
    var updateGa: string
    var objective: nat
    var status: Status
    var isApproved: bool
    var isGaApproved: bool
    var progressStartedAt: Option<Date>
    var updatedAt: Date
    var createdBy: Option<User>
    var updatedBy: Option<User>
    var isProgress: bool

    /** The row the object stands for. */
    function Row(): ActionRow
      reads this
    {
      ActionRow(id, title, smallDescription, smallDescriptionGa, description, descriptionGa,
                update, updateGa, objective, status, isApproved, isGaApproved,
                progressStartedAt, updatedAt)
    }

    /** An unsaved object holding the values of `r`, with no attribution. */
    constructor (r: ActionRow)
      ensures Row() == r
      ensures createdBy == None && updatedBy == None && !isProgress
    {
      id, title := r.id, r.title;
      smallDescription, smallDescriptionGa := r.smallDescription, r.smallDescriptionGa;
      description, descriptionGa := r.description, r.descriptionGa;
      update, updateGa := r.update, r.updateGa;
      objective, status := r.objective, r.status;
      isApproved, isGaApproved := r.isApproved, r.isGaApproved;
      progressStartedAt, updatedAt := r.progressStartedAt, r.updatedAt;
      createdBy, updatedBy, isProgress := None, None, false;
    }

    /** `Action.save`: recompute `is_progress` from the update text, then
        write the row (the write itself is the store's business). */
    method Save()
      modifies this`isProgress
      ensures isProgress == IsProgress(update)
    {
      IsProgressIff(update);
      if Strip(update) != [] {
        isProgress := true;
      } else {
        isProgress := false;
      }
    }

    /** `__str__`: the title. */
    function Str(): string
      reads this
    {
      title
    }
  }

  /** Saving twice leaves `is_progress` as saving once did. */
  method SaveTwice(a: Action) returns (once: bool, twice: bool)
    modifies a`isProgress
    ensures once == twice == a.isProgress == IsProgress(a.update)
  {
    a.Save();
    once := a.isProgress;
    a.Save();
    twice := a.isProgress;
  }

  function ThemeStr(t: Theme): string { t.title }
  function ObjectiveStr(o: Objective): string { o.title }

  /** Since titles are unique, `str()` tells the rows of each table apart. */
  lemma StrIdentifiesAction(s: Store, i: nat, j: nat)
    requires Valid(s) && i < |s.actions| && j < |s.actions| && i != j
    ensures s.actions[i].title != s.actions[j].title
  {
    if i < j {
      assert TitlesDistinct(s.actions[i], s.actions[j]);
    } else {
      assert TitlesDistinct(s.actions[j], s.actions[i]);
    }
  }

  lemma StrIdentifiesTheme(s: Store, i: nat, j: nat)
    requires Valid(s) && i < |s.themes| && j < |s.themes| && i != j
    ensures ThemeStr(s.themes[i]) != ThemeStr(s.themes[j])
  {
    if i < j {
      assert ThemeRowsDistinct(s.themes[i], s.themes[j]);
    } else {
      assert ThemeRowsDistinct(s.themes[j], s.themes[i]);
    }
  }

  lemma StrIdentifiesObjective(s: Store, i: nat, j: nat)
    requires Valid(s) && i < |s.objectives| && j < |s.objectives| && i != j
    ensures ObjectiveStr(s.objectives[i]) != ObjectiveStr(s.objectives[j])
  {
    if i < j {
      assert ObjectiveRowsDistinct(s.objectives[i], s.objectives[j]);
    } else {
      assert ObjectiveRowsDistinct(s.objectives[j], s.objectives[i]);
    }
  }

  /** The three tables. */
  datatype Store = Store(themes: seq<Theme>, objectives: seq<Objective>, actions: seq<ActionRow>)

  /** An earlier row has a smaller id and a different title. */
  predicate ThemeRowsDistinct(a: Theme, b: Theme) { a.id < b.id && a.title != b.title }
  predicate ObjectiveRowsDistinct(a: Objective, b: Objective) { a.id < b.id && a.title != b.title }
  predicate TitlesDistinct(a: ActionRow, b: ActionRow) { a.id < b.id && a.title != b.title }

  function ThemeIds(s: Store): set<nat> { set t | t in s.themes :: t.id }
  function ObjectiveIds(s: Store): set<nat> { set o | o in s.objectives :: o.id }

  /** Ids ascend and titles are unique in each table (`unique=True`), every
      Objective has its Theme and every Action its Objective (the foreign keys). */
  ghost predicate Valid(s: Store) {
    && (forall i, j :: 0 <= i < j < |s.themes| ==> ThemeRowsDistinct(s.themes[i], s.themes[j]))
    && (forall i, j :: 0 <= i < j < |s.objectives| ==> ObjectiveRowsDistinct(s.objectives[i], s.objectives[j]))
    && (forall i, j :: 0 <= i < j < |s.actions| ==> TitlesDistinct(s.actions[i], s.actions[j]))
    && (forall o :: o in s.objectives ==> o.theme in ThemeIds(s))
    && (forall a :: a in s.actions ==> a.objective in ObjectiveIds(s))
  }

  datatype IntegrityError = DuplicateTitle | MissingParent

  function NextId(ids: seq<nat>): (n: nat)
    ensures forall i :: 0 <= i < |ids| ==> ids[i] < n
  {
    if ids == [] then 1 else if NextId(ids[1..]) > ids[0] then NextId(ids[1..]) else ids[0] + 1
  }

  function ActionIds(acts: seq<ActionRow>): (r: seq<nat>)
    ensures |r| == |acts| && forall i :: 0 <= i < |acts| ==> r[i] == acts[i].id
  {
    seq(|acts|, i requires 0 <= i < |acts| => acts[i].id)
  }

  /** `Action.objects.create(...)`: a new row with the next id; a repeated
      title or a missing Objective is an integrity error and changes nothing. */
  function CreateAction(s: Store, a: ActionRow): (r: Result<Store, IntegrityError>)
    ensures r.Failure? <==> (exists b :: b in s.actions && b.title == a.title) || a.objective !in ObjectiveIds(s)
    ensures r.Success? ==> r.value.themes == s.themes && r.value.objectives == s.objectives
    ensures r.Success? ==> |r.value.actions| == |s.actions| + 1
                           && r.value.actions[..|s.actions|] == s.actions
                           && r.value.actions[|s.actions|] == a.(id := NextId(ActionIds(s.actions)))
  {
    if exists b :: b in s.actions && b.title == a.title then Failure(DuplicateTitle)
    else if a.objective !in ObjectiveIds(s) then Failure(MissingParent)
    else Success(s.(actions := s.actions + [a.(id := NextId(ActionIds(s.actions)))]))
  }

  lemma CreateActionKeepsValid(s: Store, a: ActionRow)
    requires Valid(s)
    requires CreateAction(s, a).Success?
    ensures Valid(CreateAction(s, a).value)
  {
    var s' := CreateAction(s, a).value;
    var na := a.(id := NextId(ActionIds(s.actions)));
    forall i, j | 0 <= i < j < |s'.actions| ensures TitlesDistinct(s'.actions[i], s'.actions[j]) {
      if j == |s.actions| {
        assert s'.actions[i] == s.actions[i];
        assert ActionIds(s.actions)[i] == s.actions[i].id;
        assert s.actions[i] in s.actions;
      } else {
        assert s'.actions[i] == s.actions[i] && s'.actions[j] == s.actions[j];
      }
    }
    assert ThemeIds(s') == ThemeIds(s) && ObjectiveIds(s') == ObjectiveIds(s);
  }

  /** Deleting a Theme (`on_delete=CASCADE`): its Objectives go, and so do
      their Actions. */
  function DeleteTheme(s: Store, themeId: nat): (r: Store)
    ensures themeId !in ThemeIds(r)
    ensures forall t :: t in r.themes <==> t in s.themes && t.id != themeId
    ensures forall o :: o in r.objectives <==> o in s.objectives && o.theme != themeId
    ensures forall a :: a in r.actions <==> a in s.actions && a.objective !in ObjectivesUnder(s, themeId)
  {
    var doomed := ObjectivesUnder(s, themeId);
    Store(Filter(s.themes, (t: Theme) => t.id != themeId),
          Filter(s.objectives, (o: Objective) => o.theme != themeId),
          Filter(s.actions, (a: ActionRow) => a.objective !in doomed))
  }

  /** The ids of the Objectives a Theme deletion takes with it. */
  function ObjectivesUnder(s: Store, themeId: nat): set<nat> {
    set o | o in s.objectives && o.theme == themeId :: o.id
  }

  /** Deleting an Objective removes its Actions. */
  function DeleteObjective(s: Store, objectiveId: nat): (r: Store)
    ensures objectiveId !in ObjectiveIds(r)
    ensures forall o :: o in r.objectives <==> o in s.objectives && o.id != objectiveId
    ensures forall a :: a in r.actions <==> a in s.actions && a.objective != objectiveId
    ensures r.themes == s.themes
  {
    Store(s.themes,
          Filter(s.objectives, (o: Objective) => o.id != objectiveId),
          Filter(s.actions, (a: ActionRow) => a.objective != objectiveId))
  }

  /** Cascades leave no Action pointing at a missing Objective and no
      Objective pointing at a missing Theme, and keep titles unique. */
  lemma DeleteThemeKeepsValid(s: Store, themeId: nat)
    requires Valid(s)
    ensures Valid(DeleteTheme(s, themeId))
  {
    var r := DeleteTheme(s, themeId);
    var doomed := ObjectivesUnder(s, themeId);
    FilterKeepsOrderedPairs(s.themes, (t: Theme) => t.id != themeId, ThemeRowsDistinct);
    FilterKeepsOrderedPairs(s.objectives, (o: Objective) => o.theme != themeId, ObjectiveRowsDistinct);
    FilterKeepsOrderedPairs(s.actions, (a: ActionRow) => a.objective !in doomed, TitlesDistinct);
    forall o | o in r.objectives ensures o.theme in ThemeIds(r) {
      assert o in s.objectives;
      var t :| t in s.themes && t.id == o.theme;
      assert t in r.themes;
    }
    forall a | a in r.actions ensures a.objective in ObjectiveIds(r) {
      assert a in s.actions && a.objective !in doomed;
      var o :| o in s.objectives && o.id == a.objective;
      assert o.theme != themeId;
      assert o in r.objectives;
    }
  }

  lemma DeleteObjectiveKeepsValid(s: Store, objectiveId: nat)
    requires Valid(s)
    ensures Valid(DeleteObjective(s, objectiveId))
  {
    var r := DeleteObjective(s, objectiveId);
    FilterKeepsOrderedPairs(s.objectives, (o: Objective) => o.id != objectiveId, ObjectiveRowsDistinct);
    FilterKeepsOrderedPairs(s.actions, (a: ActionRow) => a.objective != objectiveId, TitlesDistinct);
    forall a | a in r.actions ensures a.objective in ObjectiveIds(r) {
      var o :| o in s.objectives && o.id == a.objective;
      assert o in r.objectives;
    }
  }

  /** The Theme an Objective id belongs to, through the foreign key. */
  function ThemeOfObjective(objectives: seq<Objective>, objectiveId: nat): (r: Option<nat>)
    ensures r.Some? <==> exists o :: o in objectives && o.id == objectiveId
    ensures r.Some? ==> exists o :: o in objectives && o.id == objectiveId && o.theme == r.value
  {
    if objectives == [] then None
    else if objectives[0].id == objectiveId then Some(objectives[0].theme)
    else ThemeOfObjective(objectives[1..], objectiveId)
  }

  /** `objective__theme=theme`: the Action's Objective belongs to the Theme. */
  predicate UnderTheme(s: Store, a: ActionRow, themeId: nat) {
    ThemeOfObjective(s.objectives, a.objective) == Some(themeId)
  }
}
