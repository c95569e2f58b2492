# Progress-Tracker, modelled in Dafny

Progress-Tracker is a Django site on which Meath County Council publishes its
digital strategy. The strategy is a tree of Themes, Objectives and Actions.
Staff edit Actions in the Django admin. A staff edit removes the Action's
approval and mails an approver; a superuser's edit approves it at once.
The public pages show only approved progress, in English or in Irish. There
are per-Theme status counts, a paginated listing of Actions by status, and a
yearly roadmap chart of Actions started, continued and completed per month.
A page script renders the listing in the browser. A companion VS Code
extension shows the images a document refers to in a side bar. Three seeding
scripts fill the database with demonstration data.

This project models that core and proves what each part promises:

| file | module | models |
|---|---|---|
| `models.dfy` | `Models` | rows, the `Action` object and `Action.save`, unique titles, cascading deletes |
| `admin.dfy` | `Admin` | `ActionAdmin.save_model` and `get_queryset` |
| `views.dfy` | `Views` | `get_theme_details` |
| `roadmap.dfy` | `Roadmap` | `_build_roadmap_payload`, as `RoadmapPayloadTests` pins it |
| `display.dfy` | `Display` | the bilingual `display_*` properties, as the display tests pin them |
| `listing.dfy` | `Listing` | `get_filtered_actions_by_status`, as `FilteredActionsApiTests` pins it |
| `custom_js.dfy` | `CustomJs` | `capitalizeEachWord`, `processExternalLinks`, `fetchAndDisplayActions` |
| `image_sidebar.dfy` | `ImageSidebar` | `_extractImagePaths`, `_toWorkspaceUri`, `_toWebviewSrc` |
| `seed_actions.dfy` | `SeedActions` | every step of seed_actions.py, as plans of records |
| `seed_actions_by_year.dfy` | `YearTally`, `SeedActionsByYear` | the per-year tally of seed_actions_by_year.py |
| `seed_mock_data.dfy` | `SeedMockData` | `seed()` of seed_mock_data.py |
| `calendar.dfy` | `Calendar` | dates, `date + timedelta(days=n)` and `str(date)` |
| `text.dfy` | `Text` | `strip`, `strip_tags`, decimal and zero-padded numbers, `join`, ASCII case |
| `seqs.dfy`, `wrappers.dfy` | `Seqs`, `Wrappers` | filtering and counting; `Option` and `Result` |

Modelling choices:

- **Store.** The database is a `Store` of three tables. Each table is a
  sequence in ascending id order.
- **Admin and models.** An Action being edited is the `Models.Action` class.
  `Admin.SaveModel` changes its fields in place.
- **Pure views.** Views, roadmap, display and listing are functions of the
  store and of their parameters.
- **Seed scripts.** Each seed script is a set of methods whose loops build the
  records the script would write, in creation order. A method gets the rows it
  reads in id order.

The source and its own tests disagree in places. The model follows the code:

- `Admin.SaveModel`: a staff save with update text ends IN_PROGRESS, and a
  staff save always mails the approver. Some cases in tracker_app/tests.py
  expect NOT_STARTED and expect no mail when nothing changed; those cases
  belong to another version of admin.py.
- `Views.GetThemeDetails`: the title is the Theme's English title, as
  views.py:57 returns it. A test expects the Irish title.

The code for the roadmap, the `display_*` properties and the filtered listing
is not part of this model. Their behaviour is modelled from the assertions of
tracker_app/tests/test_roadmap.py and tracker_app/tests.py.

## Model

| member | source | states |
|---|---|---|
| Models.IsProgressIff | tracker_app/models.py:33 | the "not blank" rule equals `update.strip()` being non-empty, and equals the update holding a non-whitespace character |
| Models.Action.constructor | tracker_app/models.py:23-28 | a new object holds the given row, has no creator or updater, and has `is_progress` at its default false |
| Models.Action.Save | tracker_app/models.py:31-37 | after `save`, `is_progress` is true exactly when the update text is not blank; nothing else changes |
| Models.SaveTwice | tracker_app/models.py:31-37 | saving twice in a row yields the same `is_progress` as saving once, and that value follows the update text |
| Models.StrIdentifiesAction | tracker_app/models.py:24 | in a valid store, two different Actions have different titles, so `str()` tells them apart |
| Models.StrIdentifiesTheme | tracker_app/models.py:8-11 | two different Themes have different `str()` values |
| Models.StrIdentifiesObjective | tracker_app/models.py:15-20 | two different Objectives have different `str()` values |
| Models.CreateAction | tracker_app/models.py:23-27 | creating an Action fails exactly when its title is taken or its Objective is missing; on success the new row is appended with a fresh id and nothing else changes |
| Models.CreateActionKeepsValid | tracker_app/models.py:24-27 | a successful create keeps titles unique, ids ascending and every foreign key resolvable |
| Models.DeleteTheme | tracker_app/models.py:17-27 | after deleting a Theme, the Themes left are exactly the others, the Objectives left are exactly those under other Themes, and the Actions left are exactly those whose Objective survived |
| Models.DeleteObjective | tracker_app/models.py:27 | after deleting an Objective, the Objectives left are exactly the others, the Actions left are exactly those of other Objectives, and the Themes are unchanged |
| Models.DeleteThemeKeepsValid | tracker_app/models.py:17-27 | after the cascade no Objective points at a missing Theme and no Action at a missing Objective |
| Models.DeleteObjectiveKeepsValid | tracker_app/models.py:27 | after the cascade no Action points at a missing Objective |
| Models.ThemeOfObjective | tracker_app/views.py:43 | the lookup behind `objective__theme`: it finds a Theme exactly when the Objective exists, and then it is that Objective's Theme |
| Admin.SaveModel | tracker_app/admin.py:51-117 | the creator is set to the user only on a first save of an object without one; the updater is always the user; the status is decided by `StatusAfterSave`; approval equals the superuser flag; `is_progress` is recomputed; a mail is produced exactly for non-superusers, addressed to the approver, with the change URL or the placeholder |
| Admin.StatusFollowsUpdateText | tracker_app/admin.py:68-79 | unless COMPLETED was chosen, the status is IN_PROGRESS exactly when the tag-stripped update has a visible character, and NOT_STARTED exactly when it has none |
| Admin.CompletedIsKept | tracker_app/admin.py:73-81 | choosing COMPLETED leaves the status unchanged, whatever the update says |
| Admin.IrishUpdateIgnored | tracker_app/admin.py:68-70 | two forms that share the status and the English update give the same status, whatever their Irish updates |
| Admin.WrappedUpdateStatus | tracker_app/tests.py:306-338 | `<p>text</p>` with visible text gives IN_PROGRESS unless COMPLETED was chosen, and leaves a COMPLETED choice untouched |
| Admin.EmptyParagraphIsNotStarted | tracker_app/admin.py:70-79 | an update of `<p></p>` counts as no update: NOT_STARTED |
| Admin.ReviewLink | tracker_app/admin.py:98-102 | the mail links to the change URL, or to the fixed placeholder when building the URL failed |
| Admin.GetQueryset | tracker_app/admin.py:119-126 | superusers see every Action in order; other users see exactly the approved ones |
| Admin.GetQuerysetKeepsOrder | tracker_app/admin.py:119-126 | the narrowed queryset keeps the table's order: ids ascending in the table ascend in the result |
| Views.FindTheme | tracker_app/views.py:27-33 | the lookup finds nothing exactly when no Theme has the id, and otherwise finds a stored Theme with that id |
| Views.ObjectiveViews | tracker_app/views.py:27-33 | the prefetch lists exactly the Objectives of the Theme, every one of them, and each one's action list holds exactly its approved Actions |
| Views.ApprovedActionsOf | tracker_app/views.py:29-32 | an Objective's prefetched actions are exactly the approved Actions pointing at it |
| Views.GetThemeDetails | tracker_app/views.py:16-57 | the result is not found exactly when no Theme has the id, and is then the fixed 404 result; otherwise it carries the Theme, its title, and only approved Actions |
| Views.StatusCountsPartition | tracker_app/views.py:44-48 | the three status counts of any list of Actions add up to its length |
| Views.CountsCoverApprovedActions | tracker_app/views.py:41-48 | the counts of a found Theme add up to the number of its approved Actions, which are exactly the approved Actions under it |
| Views.UnapprovedActionIgnored | tracker_app/views.py:23 | adding an unapproved Action changes no count |
| Views.OtherThemeActionIgnored | tracker_app/views.py:43 | adding an Action under another Theme changes no count |
| Views.ApprovedActionCounted | tracker_app/views.py:43-48 | adding an approved Action under the Theme raises exactly the count of its status, by one |
| Views.ExtendedStore | tracker_app/views.py:43 | appending an Action to the store appends it to the Theme's public Actions exactly when it is approved and under the Theme |
| Roadmap.ResolveYear | tracker_app/tests/test_roadmap.py:36-50 | the requested year is kept exactly when it lies between the lower bound and the current year; otherwise the default is used |
| Roadmap.Series | tracker_app/tests/test_roadmap.py:131-136 | every monthly series has twelve entries |
| Roadmap.YearOptions | tracker_app/tests/test_roadmap.py:36-50 | the selectable years are exactly the lower bound to the current year, ascending by one |
| Roadmap.BuildPayload | tracker_app/tests/test_roadmap.py:35-156 | the chart year is the resolved year; month m of each series counts the approved Actions started, continued or completed in that month; in progress is started plus continued, month by month; each total is its series' sum |
| Roadmap.OutOfRangeYearIsDefault | tracker_app/tests/test_roadmap.py:40-50 | an out-of-range year gives exactly the payload of no year at all |
| Roadmap.StartedAndContinuedDisjoint | tracker_app/tests/test_roadmap.py:104-115 | no Action is both started and continued in one year |
| Roadmap.SumAddSeries | tracker_app/tests/test_roadmap.py:104-115 | the total of the in-progress series is the started total plus the continued total |
| Roadmap.SeriesTotalIsYearCount | tracker_app/tests/test_roadmap.py:94-101 | a series' year total counts each approved Action at most once: exactly those placed in some month of the year |
| Roadmap.InProgressTotalBound | tracker_app/tests/test_roadmap.py:104-115 | each total counts the approved Actions placed in the year, and the in-progress total never exceeds the number of approved Actions |
| Roadmap.YearBoundsScenario | tracker_app/tests/test_roadmap.py:36-50 | with now in June 2026 and 2024 as the bound, 2023, 2035 and no year give 2026, 2024 is kept, and the options are 2024 to 2026 |
| Roadmap.ApprovalScenario | tracker_app/tests/test_roadmap.py:53-62 | an unapproved Action started in the same month adds nothing: the started total is 1 |
| Roadmap.EdgeDatesScenario | tracker_app/tests/test_roadmap.py:65-77 | 1 January and 31 December land in the first and the last month, and the started total is 2 |
| Roadmap.ContinuedScenario | tracker_app/tests/test_roadmap.py:80-91 | an Action started in an earlier year and an Action with no start date are continued in their update months |
| Roadmap.NoDoubleCountingScenario | tracker_app/tests/test_roadmap.py:104-115 | January has one started, one continued and two in progress |
| Roadmap.CrossYearScenario | tracker_app/tests/test_roadmap.py:118-128 | an Action started in July 2024 and updated in March 2025 is started in 2024 and continued in 2025 |
| Roadmap.SameMonthScenario | tracker_app/tests/test_roadmap.py:139-147 | three Actions started on the first, a middle and the last day of May all count in May |
| Roadmap.NullStartAndCompletedScenario | tracker_app/tests/test_roadmap.py:94-101 | a completed Action counts in its update month and once in the completed total; an Action with no start date updated in August is continued in August |
| Roadmap.EmptyScenario | tracker_app/tests/test_roadmap.py:131-136 | with no Actions every series is twelve zeros and every total is zero |
| Display.Localized | tracker_app/tests.py:379-401 | the Irish text when Irish is active and the text is not empty, otherwise the English text |
| Display.DisplayUpdate | tracker_app/tests.py:369-401 | an unapproved Action shows no update; an approved one shows its update in the active language, with the English fallback |
| Display.DisplayUpdateNeverLeaks | tracker_app/tests.py:369-439 | an update shown is empty, the English text or the Irish text; unapproved or blank updates show as empty |
| Display.LocalizedIrishIff | tracker_app/tests.py:403-429 | for two different texts, the Irish one is shown exactly when Irish is active and it is not empty |
| Display.DisplayScenarios | tracker_app/tests.py:364-485 | the cases of the update, description and Objective display tests |
| Listing.ParseStatus | tracker_app/tests.py:586-592 | a token names a status exactly when its lower-case form is that status' token; anything else is unknown |
| Listing.ListingText | tracker_app/tests.py:560-584 | Irish text is listed only for an Action whose Irish content is approved; otherwise the English text |
| Listing.NumPages | tracker_app/tests.py:594-617 | the number of pages of ten holds every row, with one empty page for no rows |
| Listing.ResolvePage | tracker_app/tests.py:594-617 | the page shown lies in range; a requested page in range is kept and no request gives page 1 |
| Listing.ItemsOf | tracker_app/tests.py:516-539 | one listed item per row, in order |
| Listing.PageRows | tracker_app/tests.py:594-617 | page p holds at most ten rows: those from position 10(p-1) on, in order |
| Listing.ListActions | tracker_app/tests.py:488-624 | the listing carries the parsed status; an unknown status lists nothing; the count is the number of matching Actions; the page flags follow the page number; the items are that page of the matching Actions |
| Listing.ListingSelectsExactly | tracker_app/tests.py:516-558 | every listed Action is stored, has the requested status, and lies under the Theme when one is given |
| Listing.EveryMatchIsOnItsPage | tracker_app/tests.py:594-617 | no match is lost: match k is entry k mod 10 of page k/10 + 1, and that page exists |
| Listing.ElevenActionsScenario | tracker_app/tests.py:594-617 | eleven matches make two pages; page 1 has ten items and a next page, page 2 one item and a previous page |
| Listing.UnknownStatusScenario | tracker_app/tests.py:586-592 | the token `unknown` gives count 0 and no items |
| Listing.IrishListingScenario | tracker_app/tests.py:560-624 | in Irish, unapproved Irish content lists in English and approved Irish content lists in Irish; an empty update lists as empty |
| CustomJs.CapitalizeEachWord | tracker_app/static/js/custom.js:6-12 | a missing or empty string gives `''`; otherwise the length is kept and exactly the word characters that start a word are upper-cased |
| CustomJs.CapitalizeIdempotent | tracker_app/static/js/custom.js:11 | capitalising twice is capitalising once |
| CustomJs.CapitalizeOnlyTouchesWordStarts | tracker_app/static/js/custom.js:11 | a character that does not start a word is unchanged |
| CustomJs.ProcessExternalLinks | tracker_app/static/js/custom.js:17-26 | every link to another host gets target `_blank` and rel `noopener noreferrer`; links to the page's host keep both; no hostname changes |
| CustomJs.PageLang | tracker_app/static/js/custom.js:185 | the document's language when it is set, `en` when it is empty; never empty |
| CustomJs.ThemeQuery | tracker_app/static/js/custom.js:186 | the theme parameter is omitted exactly when no theme id is set or it is empty |
| CustomJs.FilterUrlThemeQuery | tracker_app/static/js/custom.js:184-187 | the URL has a second parameter exactly when a theme is set, and then it ends with the theme id |
| CustomJs.UnderscoreSpaces | tracker_app/static/js/custom.js:231 | the rewritten status holds no whitespace and is no longer than the input |
| CustomJs.UnderscoreRun | tracker_app/static/js/custom.js:231 | after a space-free prefix, a whitespace run of any positive length becomes one `_` and the rest is rewritten on its own |
| CustomJs.UnderscoreWords | tracker_app/static/js/custom.js:231 | any number of non-empty space-free words separated by one whitespace run come out joined by single underscores |
| CustomJs.PagerOf | tracker_app/static/js/custom.js:262-272 | the pager appears exactly when there is more than one page; Previous appears exactly with a previous page and targets the page before; Next likewise |
| CustomJs.RenderActions | tracker_app/static/js/custom.js:200-272 | no actions give the no-actions panel; otherwise the `header-` class is the lower-cased status, the `status-` row class is its underscored form, and there is one row per action in order, with update sections as `ShowUpdates` decides, and the pager of the response |
| CustomJs.RowUpdateShown | tracker_app/static/js/custom.js:231-251 | a row has an update section exactly when updates are shown, and it is never empty when the page gives a "no update" label |
| CustomJs.ShowUpdatesPlainToken | tracker_app/static/js/custom.js:231-232 | for a token without whitespace, updates are shown exactly for `in_progress` and `completed`, in any case |
| CustomJs.ShowUpdatesInProgress | tracker_app/static/js/custom.js:231-232 | the `in_progress` list shows updates |
| CustomJs.ShowUpdatesCompleted | tracker_app/static/js/custom.js:231-232 | the `completed` list shows updates |
| CustomJs.NoUpdatesNotStarted | tracker_app/static/js/custom.js:231-232 | the `not_started` list shows no updates |
| CustomJs.UnderscoreOneSpace | tracker_app/static/js/custom.js:231 | two words with one whitespace character between them are joined by one underscore |
| ImageSidebar.FindQuote | vscode-image-sidebar/src/extension.js:54 | the first quote at or after a position, or the end |
| ImageSidebar.MarkdownCapture | vscode-image-sidebar/src/extension.js:53 | a markdown match starts with `![`, ends with `)`, and captures a non-empty path without `)` |
| ImageSidebar.HtmlImgCapture | vscode-image-sidebar/src/extension.js:54 | an `<img>` match starts with `<img` and captures a non-empty path without quotes |
| ImageSidebar.CollectMatches | vscode-image-sidebar/src/extension.js:55-57 | one `exec` loop pushes the trimmed captures of all successive matches, left to right |
| ImageSidebar.Distinct | vscode-image-sidebar/src/extension.js:58 | the loop builds exactly the distinct paths `Dedupe` defines, which the lemmas below characterise |
| ImageSidebar.DedupeDistinct | vscode-image-sidebar/src/extension.js:58 | the distinct paths are exactly the input paths, each once |
| ImageSidebar.DedupeKeepsFirstOccurrenceOrder | vscode-image-sidebar/src/extension.js:58 | the distinct paths keep the order of their first occurrences |
| ImageSidebar.DedupePrefix | vscode-image-sidebar/src/extension.js:56-58 | appending more paths never reorders the distinct paths found so far |
| ImageSidebar.TrimAllTrimmed | vscode-image-sidebar/src/extension.js:56-57 | every pushed path is already trimmed |
| ImageSidebar.ExtractImagePaths | vscode-image-sidebar/src/extension.js:51-59 | the result is the markdown paths followed by the `<img>` paths, trimmed, without repetitions |
| ImageSidebar.ExtractedPathsShape | vscode-image-sidebar/src/extension.js:51-59 | the extracted paths are trimmed and distinct, keep first-occurrence order, and put every markdown path before every path found only in an `<img>` tag |
| ImageSidebar.ToWorkspaceUri | vscode-image-sidebar/src/extension.js:28-43 | an empty path gives null; a remote path is parsed; otherwise the path is joined to the document's directory exactly when it is neither a drive path nor rooted at `/`, and is a file path otherwise |
| ImageSidebar.ToWebviewSrc | vscode-image-sidebar/src/extension.js:45-49 | a null URI gives null; a parsed http or https URI passes through as text; a file URI goes through the webview |
| ImageSidebar.WebPathsPassThrough | vscode-image-sidebar/src/extension.js:30-47 | `http://` and `https://` references reach the webview unchanged |
| ImageSidebar.RelativePathScenario | vscode-image-sidebar/src/extension.js:34-37 | `images/a.png` goes through the webview, joined to the document's directory |
| SeedActions.MakeWordsSteps | seed_actions.py:92-97 | `make_words` numbers its words from 1 with the language's base word and puts one space between words |
| SeedActions.MakeWordsSpaces | seed_actions.py:97 | `n` words hold exactly `n - 1` spaces |
| SeedActions.RepeatWordsLength | seed_actions.py:171-172 | `n` copies of a word joined by spaces are `n * len(word) + n - 1` characters long |
| SeedActions.DatesForYear | seed_actions.py:58-68 | `count` dates: the i-th is the planned date of the year |
| SeedActions.Dates2026 | seed_actions.py:60-63 | in 2026 the dates are consecutive days from 1 January |
| SeedActions.DatesOtherYear | seed_actions.py:64-67 | in any other year the i-th date is day 15 + 30i of that year |
| SeedActions.SeedObjectiveTitles | seed_actions.py:29-47 | one objective per seed Theme, titled after it |
| SeedActions.CreateYear | seed_actions.py:74-86 | the Actions of one year, numbered on from those created before |
| SeedActions.RecreateActions | seed_actions.py:50-89 | the created Actions are the plan of the year counts |
| SeedActions.AutoTitleNumber | seed_actions.py:75 | the k-th title ends in `-` and the number k + 1 |
| SeedActions.PlanShape | seed_actions.py:70-86 | the plan holds as many Actions as the counts add up to; each is in progress, approved and started; the k-th goes to objective k mod 4 and its title ends in `-(k + 1)` |
| SeedActions.ThreeYearPlan | seed_actions.py:73-86 | three year counts create the first year's Actions, then the second's, then the third's, each started in its year |
| SeedActions.DefaultPlan | seed_actions.py:50 | the default plan has 27 Actions: 4 started in 2024, 2 in 2025 and 21 in 2026 |
| SeedActions.FillerOfWords | seed_actions.py:104-112 | each filler text holds one space fewer than its word count |
| SeedActions.NormalizeObjectives | seed_actions.py:101-106 | each objective, in id order, gets its three-digit number as title and the filler descriptions |
| SeedActions.NormalizeActions | seed_actions.py:108-113 | each action, in id order, gets title `MCC_ACT_nnn` and the filler short descriptions |
| SeedActions.NormalizeTitlesAndTexts | seed_actions.py:100-115 | both loops of `normalize_titles_and_texts` |
| SeedActions.NumericTitleRoundTrip | seed_actions.py:103 | a numbered title reads back as its row's position, and is three digits wide below 1000 rows |
| SeedActions.SerialTitlesDistinct | seed_actions.py:103-110 | no two rows get the same numbered title |
| SeedActions.ForceNumericObjectiveTitles | seed_actions.py:125-139 | objectives get numbered titles and the fixed description in both languages; actions get the fixed short description in both languages |
| SeedActions.TenBlock | seed_actions.py:147-157 | a Theme gets `max(0, 10 - existing)` new objectives |
| SeedActions.EnsureTenObjectivesPerTheme | seed_actions.py:142-161 | the objectives created are the per-Theme plan, and `created_total` is their number |
| SeedActions.TenObjectivesEach | seed_actions.py:147-157 | each Theme ends with at least ten objectives; the new ones belong to it and are titled `Theme - nnn`, numbered from `existing + 1` |
| SeedActions.TenPlanTotal | seed_actions.py:144-158 | `created_total` is the sum of what each Theme needed |
| SeedActions.EnrichActionsAndCreateNotStarted | seed_actions.py:164-205 | every action, in id order, is enriched with the size of its position; with no objective the script first creates one; the `num_not_started` new actions go round-robin over the objectives |
| SeedActions.EnrichedSizes | seed_actions.py:165-177 | description and update are the same text, of the cycled size, repeating every five actions |
| SeedActions.NotStartedActionsShape | seed_actions.py:187-201 | the added actions are not started, unapproved, without a start date or progress text, and point at an existing objective |
| YearTally.TallyCounts | seed_actions_by_year.py:80-83 | the tally has exactly the years that occur, each with its number of Actions, at least one |
| YearTally.SortedYearsShape | seed_actions_by_year.py:84 | `sorted(counts)` is strictly ascending and holds exactly the tallied years |
| YearTally.ReportShape | seed_actions_by_year.py:84-85 | the report lists each year once, ascending, with its count; the counts add up to the number of created Actions |
| YearTally.AscendingUnique | seed_actions_by_year.py:84 | two strictly ascending lists of the same years are equal |
| YearTally.DefaultReport | seed_actions_by_year.py:84-85 | 27 years of the default shape report 2024: 4, 2025: 2, 2026: 21 |
| SeedActionsByYear.Years | seed_actions_by_year.py:81-83 | the start year of each created Action, in order |
| SeedActionsByYear.CountByYear | seed_actions_by_year.py:80-83 | the counting loop builds the tally of the start years |
| SeedActionsByYear.DefaultYears | seed_actions_by_year.py:33-72 | the default plan starts 4 Actions in 2024, then 2 in 2025, then 21 in 2026 |
| SeedActionsByYear.DefaultTally | seed_actions_by_year.py:78-85 | the default run reports 2024: 4, 2025: 2, 2026: 21 |
| SeedMockData.Zip | seed_mock_data.py:57 | `zip` pairs the entries up to the shorter list |
| SeedMockData.Allotted | seed_mock_data.py:60-62 | a Theme gets what it asks for or what the cap leaves, and nothing once the cap is reached |
| SeedMockData.SeedThemesAndObjectives | seed_mock_data.py:57-69 | one Theme per entry; the objectives are the capped plan; the counter is one past the last objective |
| SeedMockData.CreateThemeObjectives | seed_mock_data.py:60-69 | the inner loop adds the allotted objectives, numbered on, and stops at the cap |
| SeedMockData.ObjectiveTitlesNumbered | seed_mock_data.py:64 | each objective's title is its position from 1, padded to three digits, and there are at most `cap` of them |
| SeedMockData.DefaultObjectives | seed_mock_data.py:51-69 | the cap of 29 gives 15, 8, 6 and 0 objectives, titled `001` to `029`, under Themes 8, 3 and 4 |
| SeedMockData.CreateActions | seed_mock_data.py:71-99 | 122 Actions, the i-th being the planned one, and the counter one past them |
| SeedMockData.Seed | seed_mock_data.py:12-101 | four Themes, the 29 planned objectives, 122 planned Actions over them, and a final count of 122 |
| SeedMockData.StatusCounts | seed_mock_data.py:80-85 | 40 completed, 40 in progress and 42 not started |
| SeedMockData.MockActionShape | seed_mock_data.py:87-97 | an Action has update text exactly when it is not NOT_STARTED; all are approved, go to an existing objective, and have distinct titles |
| SeedMockData.ActionTitleNumber | seed_mock_data.py:75 | titles run `ACT_ACC_001` to `ACT_ACC_122` |
| SeedMockData.NotAllNotStarted | seed_mock_data.py:101 | the first Action is completed and the 41st in progress, contrary to the final message |
| Calendar.NextDay | seed_actions.py:63 | the next day is valid and one day later in the year, or 1 January after the last day |
| Calendar.AddDaysWithinYear | seed_actions.py:63-67 | adding days that stay in the year moves the day of the year by as much |
| Text.StripEmptyIff | tracker_app/models.py:33 | `strip()` gives the empty string exactly for all-whitespace text |
| Text.StripShape | tracker_app/admin.py:70 | a stripped string is a piece of the input with no whitespace at either end |
| Text.StripIdempotent | vscode-image-sidebar/src/extension.js:56 | trimming twice is trimming once |
| Text.StripTagsLeavesNoTag | tracker_app/admin.py:70 | `strip_tags` leaves no complete tag |
| Text.StripTagsPlainText | tracker_app/admin.py:70 | text without `<` passes `strip_tags` unchanged |
| Text.StripTagsWrapped | tracker_app/admin.py:70 | a plain text between two tags is what `strip_tags` leaves of them |
| Text.DecimalRoundTrip | seed_actions.py:75 | `str(n)` reads back as `n` |
| Text.ZeroPadRoundTrip | seed_actions.py:103 | `f"{n:03d}"` reads back as `n` |
| Text.JoinOccurrences | seed_actions.py:97 | joining space-free items with one space holds one space fewer than there are items |

## Left out

- Persistence: querysets, `prefetch_related` and the database itself. Tables are sequences in id order, and writing a planned seed record is not modelled.
- Email delivery: `Admin.SaveModel` returns the mail it would send. It does not send it, and it does not decide whether `send_mail` fails.
- Admin URLs: `reverse` and `build_absolute_uri` are not modelled. Their result is the `changeUrl` parameter, `None` when building the URL raised.
- `Text.StripTags`: Django's `strip_tags` is simplified. A tag is `<` up to the next `>`, and entities and comments are not decoded.
- `Text.Strip`: whitespace means the six ASCII whitespace characters, not Unicode whitespace.
- `Text.UpperChar`: case mapping covers ASCII letters only.
- Templates: `render_to_string` and the HTML markup of the page script are not modelled. The model keeps what the markup is built from: rows, update sections and the pager.
- Browser and editor plumbing: DOM, accordions, modals, scrolling and the counter animation are not modelled. The animation uses floating-point steps.
- `fetch` `.catch` error panel in `fetchAndDisplayActions`: not modelled, because the page script receives no response to render.
- modal.js: not modelled separately. Its `capitalizeEachWord` is the same as custom.js's.
- VS Code API: the VS Code API is not modelled. URIs are tags: `Parsed`, `Joined` and `FilePath`.
- `_update` and `resolveWebviewView`: their HTML assembly and event wiring are not modelled.
- `ImageSidebar.ToWorkspaceUri`: it ignores the `catch` branch, which returns null only when the VS Code API throws.
- Middleware, URL routing and language activation: not modelled. The active language is a `Lang` parameter.
- Roadmap: the current date, the lowest selectable year and the default year are parameters.
- Roadmap: the year parameter arrives already parsed.
- Roadmap: timestamps are local dates; timezone conversion and the month-label arrays are not modelled.
- Assertions from another version of the code are not modelled; the model follows the code:
  - tracker_app/tests.py:34-101 expects NOT_STARTED after a staff save with update text;
  - tracker_app/tests.py:238-269 expects no mail when nothing changed;
  - tracker_app/tests.py:340-361 expects a `get_readonly_fields` that admin.py does not have;
  - tracker_app/tests.py:657-663 expects an Irish title.
- The admin list configuration tests are not modelled, since they test configuration, not behaviour: tracker_app/tests.py:716-741.
- Language routing tests: not modelled. tracker_app/tests.py:698-714 tests the URL configuration.
- Seed scripts' side effects: the database backup, the deletions and the progress messages are not modelled.
- Seed data texts: the generated filler texts of seed_actions.py are a `Filler` parameter, and `SeedActions.ScriptFiller` gives the script's word counts. seed_mock_data.py's long text is the `mega` parameter.
- `ensure_themes_and_objectives`: how `get_or_create` matches existing rows is not modelled. The model uses its result: the four objectives in order.
- `SeedMockData.CreateActions`: it requires at least one objective. The script has no guard against zero objectives and fails with a division by zero there.
- Duplicate seed code: seed_actions_by_year.py's `dates_for_year` and `recreate_actions` are the same as seed_actions.py's, so `SeedActions.DatesForYear` and `SeedActions.RecreateActions` model both.
- seed_mock_data.py's final message: the "ALL NOT_STARTED" label is a fixed string and is not modelled. What it contradicts is proved in `SeedMockData.NotAllNotStarted`.
- `Listing.ResolvePage`: an out-of-range page is clamped to the nearest valid page. No test pins a page below 1; Django's `Paginator.get_page` would show the last page there, so page 1 for that case is a choice.
- `Calendar.ValidDate`: it does not model `datetime.date`'s upper year bound of 9999.
