/** `get_filtered_actions_by_status` (routed at tracker_app/urls.py, pinned by
    `FilteredActionsApiTests` in tracker_app/tests.py): the Actions of one
    status, optionally of one Theme, ten to a page, with their texts in the
    request's language. */
module Listing {
  import opened Wrappers
  import opened Text
  import opened Seqs
  import opened Models
  import opened Display

  const PageSize := 10

  /** The lower-cased status token, or `None` for an unknown one. */
  function ParseStatus(token: string): (r: Option<Status>)
    ensures r == Some(Completed) <==> Lower(token) == "completed"
    ensures r == Some(InProgress) <==> Lower(token) == "in_progress"
    ensures r == Some(NotStarted) <==> Lower(token) == "not_started"
  {
    var t := Lower(token);
    if t == "completed" then Some(Completed)
    else if t == "in_progress" then Some(InProgress)
    else if t == "not_started" then Some(NotStarted)
    else None
  }

  /** One entry of the `actions` array. */
  datatype Item = Item(id: nat, title: string, smallDescription: string, description: string,
                       status: Status, objectiveTitle: string, update: string)

  datatype Listing = Listing(status: Option<Status>, actions: seq<Item>, count: nat,
                             currentPage: int, totalPages: int, hasNext: bool, hasPrevious: bool)

  /** Irish text only for an Action whose Irish content is approved. */
  function ListingText(a: ActionRow, lang: Lang, en: string, ga: string): (r: string)
    ensures lang == Irish && a.isGaApproved && ga != [] ==> r == ga
    ensures !(lang == Irish && a.isGaApproved) ==> r == en
  {
    Localized(if a.isGaApproved then lang else English, en, ga)
  }

  function ObjectiveTitle(objectives: seq<Objective>, id: nat): string {
    if objectives == [] then ""
    else if objectives[0].id == id then objectives[0].title
    else ObjectiveTitle(objectives[1..], id)
  }

  function ToItem(s: Store, a: ActionRow, lang: Lang): Item {
    Item(a.id, a.title,
         ListingText(a, lang, a.smallDescription, a.smallDescriptionGa),
         ListingText(a, lang, a.description, a.descriptionGa),
         a.status, ObjectiveTitle(s.objectives, a.objective),
         ListingText(a, lang, a.update, a.updateGa))
  }

  /** The filter: the status, and the Theme when one is given. */
  function Selected(s: Store, st: Status, themeId: Option<nat>): ActionRow -> bool {
    (a: ActionRow) => a.status == st && (themeId.None? || UnderTheme(s, a, themeId.value))
  }

  function Matching(s: Store, st: Status, themeId: Option<nat>): seq<ActionRow> {
    Filter(s.actions, Selected(s, st, themeId))
  }

  /** `Paginator(..., 10).num_pages`, with one (empty) page for no rows. */
  function NumPages(count: nat): (n: int)
    ensures n >= 1
    ensures (n - 1) * PageSize < count <= n * PageSize || (count == 0 && n == 1)
  {
    if count == 0 then 1 else (count + PageSize - 1) / PageSize
  }

  /** The page shown: the first when none is asked for, the nearest one when
      the request lies outside the range. */
  function ResolvePage(page: Option<int>, numPages: int): (p: int)
    requires numPages >= 1
    ensures 1 <= p <= numPages
    ensures page.Some? && 1 <= page.value <= numPages ==> p == page.value
    ensures page.None? ==> p == 1
  {
    match page
    case None => 1
    case Some(v) => if v < 1 then 1 else if v > numPages then numPages else v
  }

  function ItemsOf(s: Store, rows: seq<ActionRow>, lang: Lang): (r: seq<Item>)
    ensures |r| == |rows|
    ensures forall i :: 0 <= i < |rows| ==> r[i] == ToItem(s, rows[i], lang)
  {
    seq(|rows|, i requires 0 <= i < |rows| => ToItem(s, rows[i], lang))
  }

  /** The rows of page `p`. */
  function PageRows(rows: seq<ActionRow>, p: int): (r: seq<ActionRow>)
    requires p >= 1
    ensures |r| <= PageSize
    ensures forall i :: 0 <= i < |r| ==> (p - 1) * PageSize + i < |rows| && r[i] == rows[(p - 1) * PageSize + i]
  {
    var lo := (p - 1) * PageSize;
    if lo >= |rows| then [] else rows[lo..if p * PageSize < |rows| then p * PageSize else |rows|]
  }

  /** `get_filtered_actions_by_status(request, status)`. */
  function ListActions(s: Store, token: string, themeId: Option<nat>, page: Option<int>, lang: Lang): (r: Listing)
    ensures r.status == ParseStatus(token)
    ensures r.status.None? ==> r.count == 0 && r.actions == []
    ensures r.status.Some? ==> r.count == |Matching(s, r.status.value, themeId)|
    ensures r.totalPages == NumPages(r.count) && 1 <= r.currentPage <= r.totalPages
    ensures r.hasNext <==> r.currentPage < r.totalPages
    ensures r.hasPrevious <==> r.currentPage > 1
    ensures |r.actions| <= PageSize
    ensures r.status.Some? ==>
              r.actions == ItemsOf(s, PageRows(Matching(s, r.status.value, themeId), r.currentPage), lang)
  {
    match ParseStatus(token)
    case None => Listing(None, [], 0, 1, 1, false, false)
    case Some(st) =>
      var rows := Matching(s, st, themeId);
      var n := NumPages(|rows|);
      var p := ResolvePage(page, n);
      Listing(Some(st), ItemsOf(s, PageRows(rows, p), lang), |rows|, p, n, p < n, p > 1)
  }

  /** Every listed Action is in the store, has the requested status and,
      when a Theme is given, lies under it. */
  lemma ListingSelectsExactly(s: Store, st: Status, themeId: Option<nat>, p: int)
    requires p >= 1
    ensures var rows := PageRows(Matching(s, st, themeId), p);
            forall i :: 0 <= i < |rows| ==>
              rows[i] in s.actions && rows[i].status == st
              && (themeId.Some? ==> UnderTheme(s, rows[i], themeId.value))
  {
    var m := Matching(s, st, themeId);
    var rows := PageRows(m, p);
    forall i | 0 <= i < |rows|
      ensures rows[i] in s.actions && rows[i].status == st && (themeId.Some? ==> UnderTheme(s, rows[i], themeId.value))
    {
      assert rows[i] == m[(p - 1) * PageSize + i];
      assert rows[i] in m;
    }
  }

  /** Conversely, no matching Action is lost: row `k` of the matching
      Actions is entry `k % 10` of page `k / 10 + 1`, a page that exists. */
  lemma {:induction false} EveryMatchIsOnItsPage(rows: seq<ActionRow>, k: nat)
    requires k < |rows|
    ensures var p := k / PageSize + 1;
            p <= NumPages(|rows|) && k % PageSize < |PageRows(rows, p)| && PageRows(rows, p)[k % PageSize] == rows[k]
  {
    var p := k / PageSize + 1;
    assert (p - 1) * PageSize == k - k % PageSize;
    assert (p - 1) * PageSize <= k < p * PageSize;
  }

  /** Eleven matching Actions make two pages: the first has a next page and
      no previous one, the second the reverse. */
  lemma ElevenActionsScenario(s: Store, token: string, lang: Lang)
    requires ParseStatus(token).Some?
    requires |Matching(s, ParseStatus(token).value, None)| == 11
    ensures var p1 := ListActions(s, token, None, Some(1), lang);
            p1.totalPages == 2 && p1.hasNext && !p1.hasPrevious && |p1.actions| == 10
    ensures var p2 := ListActions(s, token, None, Some(2), lang);
            p2.totalPages == 2 && !p2.hasNext && p2.hasPrevious && |p2.actions| == 1
  {
    var rows := Matching(s, ParseStatus(token).value, None);
    var p1 := ListActions(s, token, None, Some(1), lang);
    var p2 := ListActions(s, token, None, Some(2), lang);
    assert p1.totalPages == 2 && p1.currentPage == 1 && |p1.actions| == 10 by {
      ElevenRowsPages(rows);
    }
    assert p2.totalPages == 2 && p2.currentPage == 2 && |p2.actions| == 1 by {
      ElevenRowsPages(rows);
    }
  }

  lemma ElevenRowsPages(rows: seq<ActionRow>)
    requires |rows| == 11
    ensures NumPages(|rows|) == 2 && |PageRows(rows, 1)| == 10 && |PageRows(rows, 2)| == 1
  {
    assert (11 + PageSize - 1) / PageSize == 2;
    assert rows[0..10] == PageRows(rows, 1) && rows[10..11] == PageRows(rows, 2);
  }

  /** An unknown status token lists nothing. */
  lemma UnknownStatusScenario(s: Store, themeId: Option<nat>, page: Option<int>, lang: Lang)
    ensures ListActions(s, "unknown", themeId, page, lang).count == 0
    ensures ListActions(s, "unknown", themeId, page, lang).actions == []
  {
    assert Lower("unknown") == "unknown";
  }

  /** In Irish, an Action whose Irish content is not approved lists its
      English texts; once approved, its non-empty Irish texts. */
  lemma IrishListingScenario(s: Store, a: ActionRow)
    ensures var b := a.(smallDescription := "Short EN", smallDescriptionGa := "Short GA",
                        description := "Desc EN", descriptionGa := "Desc GA",
                        update := "Update EN", updateGa := "Update GA", isGaApproved := false);
            var i := ToItem(s, b, Irish);
            i.smallDescription == "Short EN" && i.description == "Desc EN" && i.update == "Update EN"
    ensures var b := a.(smallDescription := "Short EN", smallDescriptionGa := "Short GA",
                        description := "Desc EN", descriptionGa := "Desc GA",
                        update := "Update EN", updateGa := "Update GA", isGaApproved := true);
            var i := ToItem(s, b, Irish);
            i.smallDescription == "Short GA" && i.description == "Desc GA" && i.update == "Update GA"
    ensures ToItem(s, a.(update := ""), English).update == ""
  {
  }
}
