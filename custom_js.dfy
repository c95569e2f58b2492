/** The page script tracker_app/static/js/custom.js: title capitalisation,
    external links, and what `fetchAndDisplayActions` asks for and renders.
    The DOM is reduced to the link attributes the script sets and to the
    structure of the generated table; the label texts that come from the
    page's `js-table-labels` element are a parameter. */
module CustomJs {
  import opened Wrappers
  import opened Text
  import opened Listing

  // ---- capitalizeEachWord ----------------------------------------------

  /** A character of the regular-expression class `\w`. */
  predicate IsWordChar(c: char) {
    ('a' <= c <= 'z') || ('A' <= c <= 'Z') || ('0' <= c <= '9') || c == '_'
  }

  /** A word character at `i` with no word character before it; `afterWord`
      says whether the text preceding `s` ended in one. */
  predicate StartsWordAt(s: string, i: int, afterWord: bool)
    requires 0 <= i < |s|
  {
    IsWordChar(s[i]) && !(if i == 0 then afterWord else IsWordChar(s[i - 1]))
  }

  /** `\b\w` matches at `i`: a word character at the start or after a non-word one. */
  predicate WordStart(s: string, i: int)
    requires 0 <= i < |s|
  {
    StartsWordAt(s, i, false)
  }

  /** The `replace` scan, carrying whether the previous character was a word
      character. */
  function CapitalizeFrom(s: string, afterWord: bool): (r: string)
    ensures |r| == |s|
    ensures forall i :: 0 <= i < |s| ==> r[i] == if StartsWordAt(s, i, afterWord) then UpperChar(s[i]) else s[i]
  {
    if s == [] then []
    else
      var c := if IsWordChar(s[0]) && !afterWord then UpperChar(s[0]) else s[0];
      var rest := CapitalizeFrom(s[1..], IsWordChar(s[0]));
      assert forall i :: 1 <= i < |s| ==> ([c] + rest)[i] == if StartsWordAt(s, i, afterWord) then UpperChar(s[i]) else s[i] by {
        forall i | 1 <= i < |s|
          ensures ([c] + rest)[i] == if StartsWordAt(s, i, afterWord) then UpperChar(s[i]) else s[i]
        {
          assert s[1..][i - 1] == s[i] && ([c] + rest)[i] == rest[i - 1];
          assert StartsWordAt(s, i, afterWord) == StartsWordAt(s[1..], i - 1, IsWordChar(s[0]));
        }
      }
      [c] + rest
  }

  /** `capitalizeEachWord(str)`: `''` for a missing or empty string. */
  function CapitalizeEachWord(str: Option<string>): (r: string)
    ensures str.None? || str == Some([]) ==> r == []
    ensures str.Some? ==> |r| == |str.value|
    ensures str.Some? ==> forall i :: 0 <= i < |str.value| ==>
              r[i] == if WordStart(str.value, i) then UpperChar(str.value[i]) else str.value[i]
  {
    match str
    case None => []
    case Some(s) => if s == [] then [] else CapitalizeFrom(s, false)
  }

  lemma UpperKeepsWordChars(c: char)
    ensures IsWordChar(UpperChar(c)) == IsWordChar(c)
    ensures UpperChar(UpperChar(c)) == UpperChar(c)
  {
  }

  /** Capitalising twice is capitalising once. */
  lemma CapitalizeIdempotent(s: string)
    ensures CapitalizeEachWord(Some(CapitalizeEachWord(Some(s)))) == CapitalizeEachWord(Some(s))
  {
    var r := CapitalizeEachWord(Some(s));
    if s != [] {
      forall i | 0 <= i < |s| ensures IsWordChar(r[i]) == IsWordChar(s[i]) {
        UpperKeepsWordChars(s[i]);
      }
      forall i | 0 <= i < |s| ensures WordStart(r, i) == WordStart(s, i) {
      }
      forall i | 0 <= i < |s|
        ensures CapitalizeEachWord(Some(r))[i] == r[i]
      {
        UpperKeepsWordChars(s[i]);
      }
    }
  }

  /** Only word starts can change, and letters elsewhere keep their case. */
  lemma CapitalizeOnlyTouchesWordStarts(s: string, i: int)
    requires 0 <= i < |s| && !WordStart(s, i)
    ensures CapitalizeEachWord(Some(s))[i] == s[i]
  {
  }

  // ---- processExternalLinks --------------------------------------------

  /** The attributes of an `<a>` element the script reads and sets; an
      attribute that is not set is `None`. */
  class Link {
    var hostname: string
    var target: Option<string>
    var rel: Option<string>

    constructor (hostname: string, target: Option<string>, rel: Option<string>)
      ensures this.hostname == hostname && this.target == target && this.rel == rel
    {
      this.hostname := hostname;
      this.target := target;
      this.rel := rel;
    }
  }

  const BlankTarget := "_blank"
  const SafeRel := "noopener noreferrer"

  /** `processExternalLinks`: every link to another host opens in a new tab
      without an opener; links to this page's host are left as they were. */
  method ProcessExternalLinks(links: seq<Link>, pageHostname: string)
    modifies set l | l in links
    ensures forall l :: l in links ==> l.hostname == old(l.hostname)
    ensures forall l :: l in links && l.hostname != pageHostname ==>
              l.target == Some(BlankTarget) && l.rel == Some(SafeRel)
    ensures forall l :: l in links && l.hostname == pageHostname ==>
              l.target == old(l.target) && l.rel == old(l.rel)
  {
    var i := 0;
    while i < |links|
      invariant 0 <= i <= |links|
      invariant forall l :: l in links ==> l.hostname == old(l.hostname)
      invariant forall j :: 0 <= j < i && links[j].hostname != pageHostname ==>
                  links[j].target == Some(BlankTarget) && links[j].rel == Some(SafeRel)
      invariant forall l :: l in links && l.hostname == pageHostname ==>
                  l.target == old(l.target) && l.rel == old(l.rel)
      invariant forall l :: l in links && l !in links[..i] ==> l.target == old(l.target) && l.rel == old(l.rel)
    {
      var link := links[i];
      if link.hostname != pageHostname {
        link.target := Some(BlankTarget);
        link.rel := Some(SafeRel);
      }
      i := i + 1;
    }
    assert forall l :: l in links ==> exists j :: 0 <= j < |links| && links[j] == l;
  }

  // ---- fetchAndDisplayActions ---------------------------------------------

  /** `document.documentElement.lang || 'en'`. */
  function PageLang(docLang: string): (r: string)
    ensures r != []
    ensures docLang != [] ==> r == docLang
    ensures docLang == [] ==> r == "en"
  {
    if docLang == [] then "en" else docLang
  }

  /** `currentThemeId ? '&theme_id=' + currentThemeId : ''`: null and the
      empty string are both unset. */
  function ThemeQuery(currentThemeId: Option<string>): (r: string)
    ensures r == [] <==> currentThemeId.None? || currentThemeId.value == []
  {
    match currentThemeId
    case Some(t) => if t != [] then "&theme_id=" + t else []
    case None => []
  }

  /** The request URL. */
  function FilterUrl(docLang: string, status: string, page: nat, currentThemeId: Option<string>): string {
    "/" + PageLang(docLang) + "/api/actions/filter/" + Lower(status) + "/?page=" + DecimalString(page)
    + ThemeQuery(currentThemeId)
  }

  /** The URL has a second query parameter exactly when a theme is selected,
      and then it ends with that theme's id. */
  lemma FilterUrlThemeQuery(docLang: string, status: string, page: nat, currentThemeId: Option<string>)
    requires '&' !in docLang && '&' !in status
    ensures '&' in FilterUrl(docLang, status, page, currentThemeId)
            <==> currentThemeId.Some? && currentThemeId.value != []
    ensures currentThemeId.Some? && currentThemeId.value != [] ==>
              var u := FilterUrl(docLang, status, page, currentThemeId);
              |u| >= |currentThemeId.value| && u[|u| - |currentThemeId.value|..] == currentThemeId.value
  {
    var base := "/" + PageLang(docLang) + "/api/actions/filter/" + Lower(status) + "/?page=" + DecimalString(page);
    assert forall k :: 0 <= k < |status| ==> Lower(status)[k] != '&';
    assert forall k :: 0 <= k < |DecimalString(page)| ==> DecimalString(page)[k] != '&';
    assert '&' !in base;
    var u := FilterUrl(docLang, status, page, currentThemeId);
    assert u == base + ThemeQuery(currentThemeId);
    if currentThemeId.Some? && currentThemeId.value != [] {
      var t := currentThemeId.value;
      assert u == (base + "&theme_id=") + t;
      assert u[|base|] == '&';
    }
  }

  /** `.replace(/\s+/g, '_')`: each run of whitespace becomes one `_`.
      Applied to the lower-cased status it gives `statusLower`, the key of
      the `status-` row class and of the update decision. */
  function UnderscoreSpaces(s: string): (r: string)
    ensures forall i :: 0 <= i < |r| ==> !IsSpace(r[i])
    ensures |r| <= |s|
    decreases |s|
  {
    if s == [] then []
    else if IsSpace(s[0]) then ['_'] + UnderscoreSpaces(TrimStart(s))
    else [s[0]] + UnderscoreSpaces(s[1..])
  }

  /** Update panels are shown for the in-progress and completed lists only. */
  predicate ShowUpdates(status: string) {
    var normal := UnderscoreSpaces(Lower(status));
    normal == "in_progress" || normal == "completed"
  }

  /** The texts the page supplies and the button labels of its language. */
  datatype Labels = Labels(noUpdate: string)

  /** One rendered table row: the summary, and the detail panel's update
      section when it is shown. */
  datatype Row = Row(id: nat, title: string, smallDescription: string, description: string,
                     update: Option<string>)

  /** The pagination bar: previous and next targets when offered. */
  datatype Pager = Pager(previous: Option<(int, string)>, pageLabel: string, currentPage: int,
                         totalPages: int, next: Option<(int, string)>)

  /** The table carries the suffixes of its `header-` class (the lower-cased
      status) and of its rows' `status-` class (`statusLower`). */
  datatype View =
    | NoActions
    | Table(headerClass: string, rowClass: string, rows: seq<Row>, pager: Option<Pager>)

  /** The JSON the listing returns, as the script reads it. */
  datatype Response = Response(actions: Option<seq<Item>>, currentPage: int, totalPages: int,
                               hasNext: bool, hasPrevious: bool)

  /** `action.update || labels.noUpdate` when updates are shown. */
  function RowOf(a: Item, showUpdates: bool, labels: Labels): Row {
    Row(a.id, a.title, a.smallDescription, a.description,
        if showUpdates then Some(if a.update != [] then a.update else labels.noUpdate) else None)
  }

  /** The pagination bar, in Irish or in English. */
  function PagerOf(data: Response, lang: string): (p: Option<Pager>)
    ensures p.Some? <==> data.totalPages > 1
    ensures p.Some? ==> (p.value.previous.Some? <==> data.hasPrevious)
                        && (p.value.next.Some? <==> data.hasNext)
    ensures p.Some? && data.hasPrevious ==> p.value.previous.value.0 == data.currentPage - 1
    ensures p.Some? && data.hasNext ==> p.value.next.value.0 == data.currentPage + 1
  {
    var ga := lang == "ga";
    if data.totalPages > 1 then
      Some(Pager(if data.hasPrevious then Some((data.currentPage - 1, if ga then "Roimhe seo" else "Previous")) else None,
                 if ga then "Leathanach" else "Page",
                 data.currentPage, data.totalPages,
                 if data.hasNext then Some((data.currentPage + 1, if ga then "Ar aghaidh" else "Next")) else None))
    else None
  }

  /** The rendering of a successful response: the row loop of
      `fetchAndDisplayActions`. */
  method RenderActions(status: string, docLang: string, data: Response, labels: Labels) returns (v: View)
    ensures v.NoActions? <==> data.actions.None? || data.actions.value == []
    ensures v.Table? ==> v.headerClass == Lower(status)
                         && v.rowClass == UnderscoreSpaces(Lower(status))
                         && |v.rows| == |data.actions.value|
                         && (forall i :: 0 <= i < |v.rows| ==>
                               v.rows[i] == RowOf(data.actions.value[i], ShowUpdates(status), labels))
                         && v.pager == PagerOf(data, PageLang(docLang))
  {
    if data.actions.None? || |data.actions.value| == 0 {
      return NoActions;
    }
    var actions := data.actions.value;
    var rows: seq<Row> := [];
    var i := 0;
    while i < |actions|
      invariant 0 <= i <= |actions|
      invariant |rows| == i
      invariant forall j :: 0 <= j < i ==> rows[j] == RowOf(actions[j], ShowUpdates(status), labels)
    {
      var statusLower := UnderscoreSpaces(Lower(status));
      var showUpdates := statusLower == "in_progress" || statusLower == "completed";
      rows := rows + [RowOf(actions[i], showUpdates, labels)];
      i := i + 1;
    }
    v := Table(Lower(status), UnderscoreSpaces(Lower(status)), rows, PagerOf(data, PageLang(docLang)));
  }

  /** A row's update section never shows an empty text: it is the update or
      the page's "no update" label, and it is present exactly for the
      in-progress and completed lists. */
  lemma RowUpdateShown(a: Item, status: string, labels: Labels)
    ensures RowOf(a, ShowUpdates(status), labels).update.Some? <==> ShowUpdates(status)
    ensures ShowUpdates(status) && labels.noUpdate != [] ==> RowOf(a, true, labels).update.value != []
  {
  }

  /** Without whitespace the status class is just the lower-cased token. */
  lemma ShowUpdatesPlainToken(status: string)
    requires forall i :: 0 <= i < |status| ==> !IsSpace(status[i])
    ensures ShowUpdates(status) <==> Lower(status) == "in_progress" || Lower(status) == "completed"
  {
    assert forall i :: 0 <= i < |status| ==> Lower(status)[i] == LowerChar(status[i]);
    NoSpaceUnchanged(Lower(status));
  }

  /** The status tokens the page passes: updates for in-progress and
      completed lists, none for the not-started one. */
  lemma ShowUpdatesInProgress()
    ensures ShowUpdates("in_progress")
  {
    ShowUpdatesPlainToken("in_progress");
    assert Lower("in_progress") == "in_progress";
  }

  lemma ShowUpdatesCompleted()
    ensures ShowUpdates("completed")
  {
    ShowUpdatesPlainToken("completed");
    assert Lower("completed") == "completed";
  }

  lemma NoUpdatesNotStarted()
    ensures !ShowUpdates("not_started")
  {
    ShowUpdatesPlainToken("not_started");
    assert Lower("not_started") == "not_started";
  }

  /** Two words with one whitespace character between them, such as the
      label `in progress`, are joined by one underscore. */
  lemma {:induction false} UnderscoreOneSpace(a: string, c: char, b: string)
    requires forall i :: 0 <= i < |a| ==> !IsSpace(a[i])
    requires forall i :: 0 <= i < |b| ==> !IsSpace(b[i])
    requires IsSpace(c)
    ensures UnderscoreSpaces(a + [c] + b) == a + "_" + b
    decreases |a|
  {
    if a == [] {
      assert a + [c] + b == [c] + b;
      assert ([c] + b)[1..] == b;
      assert TrimStart([c] + b) == TrimStart(b);
      NoSpaceUnchanged(b);
    } else {
      assert (a + [c] + b)[1..] == a[1..] + [c] + b;
      UnderscoreOneSpace(a[1..], c, b);
      assert a + "_" + b == [a[0]] + (a[1..] + "_" + b);
    }
  }

  /** A leading run of whitespace is all `TrimStart` removes. */
  lemma {:induction false} TrimSpaceRun(w: string, b: string)
    requires AllSpace(w)
    requires b == [] || !IsSpace(b[0])
    ensures TrimStart(w + b) == b
    decreases |w|
  {
    if w == [] {
      assert w + b == b;
    } else {
      assert (w + b)[1..] == w[1..] + b;
      TrimSpaceRun(w[1..], b);
    }
  }

  /** A whitespace run of any positive length after a space-free prefix
      becomes one `_`, and the rest is rewritten on its own. */
  lemma {:induction false} UnderscoreRun(a: string, w: string, b: string)
    requires forall i :: 0 <= i < |a| ==> !IsSpace(a[i])
    requires w != [] && AllSpace(w)
    requires b == [] || !IsSpace(b[0])
    ensures UnderscoreSpaces(a + w + b) == a + "_" + UnderscoreSpaces(b)
    decreases |a|
  {
    if a == [] {
      assert a + w + b == w + b;
      assert (w + b)[0] == w[0];
      TrimSpaceRun(w, b);
    } else {
      assert (a + w + b)[1..] == a[1..] + w + b;
      UnderscoreRun(a[1..], w, b);
      assert a + "_" + UnderscoreSpaces(b) == [a[0]] + (a[1..] + "_" + UnderscoreSpaces(b));
    }
  }

  /** Space-free words separated by runs of whitespace come out joined by
      single underscores. */
  lemma {:induction false} UnderscoreWords(ws: seq<string>, w: string)
    requires w != [] && AllSpace(w)
    requires forall k :: 0 <= k < |ws| ==> ws[k] != [] && forall i :: 0 <= i < |ws[k]| ==> !IsSpace(ws[k][i])
    ensures UnderscoreSpaces(Join(ws, w)) == Join(ws, "_")
    decreases |ws|
  {
    if ws == [] {
    } else if |ws| == 1 {
      NoSpaceUnchanged(ws[0]);
    } else {
      var rest := Join(ws[1..], w);
      assert ws[1..][0] == ws[1];
      assert rest[0] == ws[1][0];
      UnderscoreRun(ws[0], w, rest);
      assert forall k :: 0 <= k < |ws[1..]| ==> ws[1..][k] == ws[k + 1];
      UnderscoreWords(ws[1..], w);
    }
  }

  lemma {:induction false} NoSpaceUnchanged(s: string)
    requires forall i :: 0 <= i < |s| ==> !IsSpace(s[i])
    ensures UnderscoreSpaces(s) == s
    decreases |s|
  {
    if s != [] {
      NoSpaceUnchanged(s[1..]);
    }
  }
}
