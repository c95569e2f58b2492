/** `get_theme_details` (tracker_app/views.py): one Theme with the approved
    Actions of its Objectives and the per-status counts of those Actions.
    The HTML fragment itself is template output and is not modelled; the
    result carries what the template is given. */
module Views {
  import opened Wrappers
  import opened Seqs
  import opened Models

  const NotFoundHtml := "<p>This strategic theme does not exist or has been removed.</p>"
  const NotFoundTitle := "Theme Not Found"

  /** The `action_counts` aggregate. */
  datatype Counts = Counts(completed: nat, inProgress: nat, notStarted: nat)

  /** An Objective with its prefetched `approved_actions`. */
  datatype ObjectiveView = ObjectiveView(objective: Objective, approvedActions: seq<ActionRow>)

  /** The JSON response: a 404 with a fixed message, or the theme's data. */
  datatype ThemeDetails =
    | NotFound(httpStatus: nat, htmlContent: string, title: string)
    | Found(theme: Theme, objectives: seq<ObjectiveView>, counts: Counts, title: string)

  /** `Theme.objects.filter(pk=theme_id).first()`. */
  function FindTheme(themes: seq<Theme>, themeId: nat): (r: Option<Theme>)
    ensures r.None? <==> forall t :: t in themes ==> t.id != themeId
    ensures r.Some? ==> r.value in themes && r.value.id == themeId
  {
    if themes == [] then None
    else if themes[0].id == themeId then Some(themes[0])
    else FindTheme(themes[1..], themeId)
  }

  /** `PUBLIC_ACTIONS_FILTER`. */
  predicate IsPublic(a: ActionRow) {
    a.isApproved
  }

  function PublicUnderTheme(s: Store, themeId: nat): ActionRow -> bool {
    (a: ActionRow) => UnderTheme(s, a, themeId) && IsPublic(a)
  }

  /** `Action.objects.filter(objective__theme=theme).filter(PUBLIC_ACTIONS_FILTER)`. */
  function ThemeActions(s: Store, themeId: nat): seq<ActionRow> {
    Filter(s.actions, PublicUnderTheme(s, themeId))
  }

  function HasStatus(st: Status): ActionRow -> bool {
    (a: ActionRow) => a.status == st
  }

  /** `Count('id', filter=Q(status=st))`. */
  function CountStatus(acts: seq<ActionRow>, st: Status): nat {
    Count(acts, HasStatus(st))
  }

  function StatusCounts(acts: seq<ActionRow>): Counts {
    Counts(CountStatus(acts, Completed), CountStatus(acts, InProgress), CountStatus(acts, NotStarted))
  }

  /** The approved Actions of one Objective, in table order. */
  function ApprovedActionsOf(s: Store, objectiveId: nat): (r: seq<ActionRow>)
    ensures forall a :: a in r <==> a in s.actions && IsPublic(a) && a.objective == objectiveId
  {
    Filter(s.actions, (a: ActionRow) => a.objective == objectiveId && IsPublic(a))
  }

  function ViewOf(s: Store, o: Objective): ObjectiveView {
    ObjectiveView(o, ApprovedActionsOf(s, o.id))
  }

  /** The prefetch: every Objective of the theme, each with exactly its
      approved Actions. */
  function ObjectiveViews(s: Store, themeId: nat): (r: seq<ObjectiveView>)
    ensures forall v :: v in r ==> v.objective in s.objectives && v.objective.theme == themeId
    ensures forall o :: o in s.objectives && o.theme == themeId ==> exists v :: v in r && v.objective == o
    ensures forall v, a :: v in r ==>
              (a in v.approvedActions <==> a in s.actions && IsPublic(a) && a.objective == v.objective.id)
  {
    var objs := Filter(s.objectives, (o: Objective) => o.theme == themeId);
    var r := seq(|objs|, i requires 0 <= i < |objs| => ViewOf(s, objs[i]));
    ViewsCover(s, objs, r);
    r
  }

  /** The views of a list of Objectives hold each of them, and only them. */
  lemma ViewsCover(s: Store, objs: seq<Objective>, r: seq<ObjectiveView>)
    requires |r| == |objs| && forall i :: 0 <= i < |objs| ==> r[i] == ViewOf(s, objs[i])
    ensures forall v :: v in r ==> v.objective in objs && v == ViewOf(s, v.objective)
    ensures forall o :: o in objs ==> exists v :: v in r && v.objective == o
  {
    forall o | o in objs ensures exists v :: v in r && v.objective == o {
      var i :| 0 <= i < |objs| && objs[i] == o;
      assert r[i] in r;
    }
  }

  /** `get_theme_details(request, theme_id)`. */
  function GetThemeDetails(s: Store, themeId: nat): (r: ThemeDetails)
    ensures r.NotFound? <==> forall t :: t in s.themes ==> t.id != themeId
    ensures r.NotFound? ==> r == NotFound(404, NotFoundHtml, NotFoundTitle)
    ensures r.Found? ==> r.theme in s.themes && r.theme.id == themeId && r.title == r.theme.title
    ensures r.Found? ==> forall v, a :: v in r.objectives && a in v.approvedActions ==> IsPublic(a)
  {
    match FindTheme(s.themes, themeId)
    case None => NotFound(404, NotFoundHtml, NotFoundTitle)
    case Some(theme) =>
      Found(theme, ObjectiveViews(s, theme.id), StatusCounts(ThemeActions(s, theme.id)), theme.title)
  }

  /** The three status filters split any list of Actions: their counts add
      up to its length. */
  lemma {:induction false} StatusCountsPartition(acts: seq<ActionRow>)
    ensures CountStatus(acts, Completed) + CountStatus(acts, InProgress) + CountStatus(acts, NotStarted) == |acts|
  {
    if acts != [] {
      StatusCountsPartition(acts[1..]);
    }
  }

  /** The counts of a found theme add up to its approved Actions, and each count
      only takes approved Actions under the theme. */
  lemma CountsCoverApprovedActions(s: Store, themeId: nat)
    requires GetThemeDetails(s, themeId).Found?
    ensures var c := GetThemeDetails(s, themeId).counts;
            c.completed + c.inProgress + c.notStarted == |ThemeActions(s, themeId)|
    ensures forall a :: a in ThemeActions(s, themeId) <==> a in s.actions && IsPublic(a) && UnderTheme(s, a, themeId)
  {
    StatusCountsPartition(ThemeActions(s, themeId));
  }

  /** Adding an unapproved Action leaves the counts of every theme unchanged. */
  lemma UnapprovedActionIgnored(s: Store, themeId: nat, a: ActionRow)
    requires !a.isApproved
    ensures GetThemeDetails(s.(actions := s.actions + [a]), themeId).Found?
            ==> GetThemeDetails(s.(actions := s.actions + [a]), themeId).counts == GetThemeDetails(s, themeId).counts
  {
    var s' := s.(actions := s.actions + [a]);
    ExtendedStore(s, themeId, a);
    assert ThemeActions(s', themeId) == ThemeActions(s, themeId);
  }

  /** Adding an approved Action under another theme leaves the counts unchanged. */
  lemma OtherThemeActionIgnored(s: Store, themeId: nat, a: ActionRow)
    requires !UnderTheme(s, a, themeId)
    ensures GetThemeDetails(s.(actions := s.actions + [a]), themeId).Found?
            ==> GetThemeDetails(s.(actions := s.actions + [a]), themeId).counts == GetThemeDetails(s, themeId).counts
  {
    var s' := s.(actions := s.actions + [a]);
    ExtendedStore(s, themeId, a);
    assert ThemeActions(s', themeId) == ThemeActions(s, themeId);
  }

  /** Adding an approved Action under the theme raises exactly the count of its status. */
  lemma ApprovedActionCounted(s: Store, themeId: nat, a: ActionRow)
    requires a.isApproved && UnderTheme(s, a, themeId)
    requires GetThemeDetails(s, themeId).Found?
    ensures var c := GetThemeDetails(s, themeId).counts;
            var c' := GetThemeDetails(s.(actions := s.actions + [a]), themeId).counts;
            c'.completed == c.completed + (if a.status == Completed then 1 else 0)
            && c'.inProgress == c.inProgress + (if a.status == InProgress then 1 else 0)
            && c'.notStarted == c.notStarted + (if a.status == NotStarted then 1 else 0)
  {
    var xs := ThemeActions(s, themeId);
    ExtendedStore(s, themeId, a);
    CountStatusAppend(xs, a, Completed);
    CountStatusAppend(xs, a, InProgress);
    CountStatusAppend(xs, a, NotStarted);
  }

  /** Appending one Action to the store appends it to the theme's public
      Actions exactly when it is public and under the theme. */
  lemma ExtendedStore(s: Store, themeId: nat, a: ActionRow)
    ensures ThemeActions(s.(actions := s.actions + [a]), themeId)
            == ThemeActions(s, themeId) + (if UnderTheme(s, a, themeId) && IsPublic(a) then [a] else [])
  {
    var s' := s.(actions := s.actions + [a]);
    FilterAppend(s.actions, [a], PublicUnderTheme(s', themeId));
    FilterCongruent(s.actions, PublicUnderTheme(s', themeId), PublicUnderTheme(s, themeId));
    FilterSingleton(a, PublicUnderTheme(s', themeId));
  }

  lemma CountStatusAppend(xs: seq<ActionRow>, a: ActionRow, st: Status)
    ensures CountStatus(xs + [a], st) == CountStatus(xs, st) + (if a.status == st then 1 else 0)
  {
    FilterAppend(xs, [a], HasStatus(st));
    FilterSingleton(a, HasStatus(st));
  }
}
