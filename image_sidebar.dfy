/** The image side bar of vscode-image-sidebar/src/extension.js: finding the
    image references of a document and classifying each as a remote URL, a
    path relative to the document or an absolute file path.

    The two regular expressions are modelled by what they match:
    - markdown `/!\[[^\]]*\]\(([^)]+)\)/g`: `![`, any text up to the first
      `]`, then `(`, then a non-empty run up to the first `)`;
    - HTML `/<img[^>]+src=["']([^"']+)["']/g`: `<img`, at least one non-`>`
      character, then the last `src=` before the first `>` that is followed
      by a quote, a non-empty run of non-quote characters and a quote (the
      greedy `[^>]+` gives back characters until the rest matches).
    Each `exec` finds the leftmost match at or after the end of the previous
    one. VS Code's `Uri` objects are reduced to tags. */
module ImageSidebar {
  import opened Wrappers
  import opened Text

  datatype Pattern = Markdown | HtmlImg

  /** A match: its capture group and where the next search starts. */
  datatype Match = Match(capture: string, end: nat)

  predicate IsQuote(c: char) {
    c == '"' || c == '\''
  }

  /** Index of the first quote of either kind at or after `from`, or `|s|`. */
  function FindQuote(s: string, from: nat): (r: nat)
    requires from <= |s|
    ensures from <= r <= |s|
    ensures forall i :: from <= i < r ==> !IsQuote(s[i])
    ensures r < |s| ==> IsQuote(s[r])
    decreases |s| - from
  {
    if from == |s| then |s| else if IsQuote(s[from]) then from else FindQuote(s, from + 1)
  }

  /** The markdown image pattern, anchored at `p`. */
  function MarkdownAt(text: string, p: nat): (r: Option<Match>)
    requires p <= |text|
    ensures r.Some? ==> p < r.value.end <= |text|
  {
    if p + 2 <= |text| && text[p] == '!' && text[p + 1] == '[' then
      var q := FindChar(text, ']', p + 2);
      if q + 1 < |text| && text[q + 1] == '(' then
        var e := FindChar(text, ')', q + 2);
        if q + 2 < e < |text| then Some(Match(text[q + 2..e], e + 1)) else None
      else None
    else None
  }

  /** `src=["']([^"']+)["']` anchored at `k`. */
  function SrcAt(text: string, k: nat): (r: Option<Match>)
    requires k <= |text|
    ensures r.Some? ==> k < r.value.end <= |text|
  {
    if k + 5 <= |text| && text[k..k + 4] == "src=" && IsQuote(text[k + 4]) then
      var j := FindQuote(text, k + 5);
      if k + 5 < j < |text| then Some(Match(text[k + 5..j], j + 1)) else None
    else None
  }

  /** The greedy choice: the largest `k` in `[lo, hi]` where `src=` matches. */
  function LastSrc(text: string, lo: nat, hi: int): (r: Option<Match>)
    requires hi <= |text|
    ensures r.Some? ==> lo < r.value.end <= |text|
    decreases hi - lo
  {
    if hi < lo then None
    else match SrcAt(text, hi)
      case Some(m) => Some(m)
      case None => LastSrc(text, lo, hi - 1)
  }

  /** The `<img ... src="...">` pattern, anchored at `p`: `[^>]+` covers
      `text[p + 4..k]`, so `k` runs from `p + 5` to the first `>`. */
  function HtmlImgAt(text: string, p: nat): (r: Option<Match>)
    requires p <= |text|
    ensures r.Some? ==> p < r.value.end <= |text|
  {
    if p + 4 < |text| && text[p..p + 4] == "<img" then
      LastSrc(text, p + 5, FindChar(text, '>', p + 4))
    else None
  }

  /** A markdown match starts with `![`, ends with `)` and captures a
      non-empty path without `)`. */
  lemma MarkdownCapture(text: string, p: nat)
    requires p <= |text|
    ensures var r := MarkdownAt(text, p);
            r.Some? ==>
              && p + 2 < r.value.end && text[p] == '!' && text[p + 1] == '[' && text[r.value.end - 1] == ')'
              && r.value.capture != [] && forall k :: 0 <= k < |r.value.capture| ==> r.value.capture[k] != ')'
  {
  }

  /** A `src=` match captures a non-empty run without quotes. */
  lemma SrcCapture(text: string, k: nat)
    requires k <= |text|
    ensures var r := SrcAt(text, k);
            r.Some? ==> r.value.capture != [] && forall i :: 0 <= i < |r.value.capture| ==> !IsQuote(r.value.capture[i])
  {
  }

  lemma {:induction false} LastSrcCapture(text: string, lo: nat, hi: int)
    requires hi <= |text|
    ensures var r := LastSrc(text, lo, hi);
            r.Some? ==> r.value.capture != [] && forall i :: 0 <= i < |r.value.capture| ==> !IsQuote(r.value.capture[i])
    decreases hi - lo
  {
    if lo <= hi {
      SrcCapture(text, hi);
      LastSrcCapture(text, lo, hi - 1);
    }
  }

  /** An `<img>` match starts with `<img` and captures a non-empty path
      without quotes. */
  lemma HtmlImgCapture(text: string, p: nat)
    requires p <= |text|
    ensures var r := HtmlImgAt(text, p);
            r.Some? ==>
              && p + 4 < |text| && text[p..p + 4] == "<img"
              && r.value.capture != [] && forall i :: 0 <= i < |r.value.capture| ==> !IsQuote(r.value.capture[i])
  {
    if p + 4 < |text| && text[p..p + 4] == "<img" {
      LastSrcCapture(text, p + 5, FindChar(text, '>', p + 4));
    }
  }

  function MatchAt(pat: Pattern, text: string, p: nat): (r: Option<Match>)
    requires p <= |text|
    ensures r.Some? ==> p < r.value.end <= |text|
  {
    match pat
    case Markdown => MarkdownAt(text, p)
    case HtmlImg => HtmlImgAt(text, p)
  }

  /** The captures of successive matches of `pat` from `from` on, left to
      right. */
  function Scan(pat: Pattern, text: string, from: nat): (r: seq<string>)
    requires from <= |text|
    ensures |r| <= |text| - from
    decreases |text| - from
  {
    if from == |text| then []
    else match MatchAt(pat, text, from)
      case Some(m) => [m.capture] + Scan(pat, text, m.end)
      case None => Scan(pat, text, from + 1)
  }

  /** `m[1].trim()` on each capture. */
  function TrimAll(xs: seq<string>): (r: seq<string>)
    ensures |r| == |xs|
  {
    if xs == [] then [] else [Strip(xs[0])] + TrimAll(xs[1..])
  }

  /** The paths the extension pushes for `pat`. */
  function Paths(pat: Pattern, text: string): seq<string> {
    TrimAll(Scan(pat, text, 0))
  }

  /** A path `trim()` leaves as it is. */
  predicate Trimmed(x: string) {
    Strip(x) == x
  }

  /** Every pushed path is already trimmed. */
  lemma {:induction false} TrimAllTrimmed(xs: seq<string>)
    ensures forall x :: x in TrimAll(xs) ==> Trimmed(x)
  {
    if xs != [] {
      TrimAllTrimmed(xs[1..]);
      StripIdempotent(xs[0]);
    }
  }

  /** One `exec` step of the scan. */
  lemma ScanStep(pat: Pattern, text: string, from: nat)
    requires from < |text|
    ensures MatchAt(pat, text, from).Some? ==>
              Scan(pat, text, from) == [MatchAt(pat, text, from).value.capture] + Scan(pat, text, MatchAt(pat, text, from).value.end)
    ensures MatchAt(pat, text, from).None? ==> Scan(pat, text, from) == Scan(pat, text, from + 1)
  {
  }

  lemma AppendAssoc(a: seq<string>, b: seq<string>, c: seq<string>)
    ensures (a + b) + c == a + (b + c)
  {
  }

  lemma {:induction false} TrimAllSnoc(xs: seq<string>, x: string)
    ensures TrimAll(xs + [x]) == TrimAll(xs) + [Strip(x)]
  {
    if xs != [] {
      var h, t := Strip(xs[0]), Strip(x);
      assert (xs + [x])[0] == xs[0];
      assert (xs + [x])[1..] == xs[1..] + [x];
      TrimAllSnoc(xs[1..], x);
      AppendAssoc([h], TrimAll(xs[1..]), [t]);
    }
  }

  // ---- Array.from(new Set(paths)) -----------------------------------------

  /** The distinct elements of `xs` by first occurrence. */
  function Dedupe(xs: seq<string>): (r: seq<string>)
    ensures |r| <= |xs|
  {
    if xs == [] then []
    else
      var d := Dedupe(xs[..|xs| - 1]);
      if xs[|xs| - 1] in d then d else d + [xs[|xs| - 1]]
  }

  /** `Dedupe` keeps exactly the elements of its input, once each. */
  lemma {:induction false} DedupeDistinct(xs: seq<string>)
    ensures forall x :: x in Dedupe(xs) <==> x in xs
    ensures forall i, j :: 0 <= i < j < |Dedupe(xs)| ==> Dedupe(xs)[i] != Dedupe(xs)[j]
  {
    if xs != [] {
      var init, y := xs[..|xs| - 1], xs[|xs| - 1];
      assert xs == init + [y];
      DedupeDistinct(init);
    }
  }

  /** Position of the first occurrence of `x`. */
  function FirstIndex(xs: seq<string>, x: string): (i: nat)
    requires x in xs
    ensures i < |xs| && xs[i] == x && forall k :: 0 <= k < i ==> xs[k] != x
  {
    if xs[0] == x then 0 else 1 + FirstIndex(xs[1..], x)
  }

  lemma {:induction false} FirstIndexSnoc(xs: seq<string>, y: string, x: string)
    requires x in xs + [y]
    ensures x in xs ==> FirstIndex(xs + [y], x) == FirstIndex(xs, x)
    ensures x !in xs ==> FirstIndex(xs + [y], x) == |xs|
  {
    var i := FirstIndex(xs + [y], x);
    if x in xs {
      var k := FirstIndex(xs, x);
      assert (xs + [y])[k] == x;
      assert xs[i] == x by { assert i <= k; }
    } else {
      assert forall k :: 0 <= k < |xs| ==> (xs + [y])[k] != x;
    }
  }

  /** The distinct paths keep the order of their first occurrences. */
  lemma {:induction false} DedupeKeepsFirstOccurrenceOrder(xs: seq<string>)
    ensures forall x :: x in Dedupe(xs) ==> x in xs
    ensures forall i, j :: 0 <= i < j < |Dedupe(xs)| ==> FirstIndex(xs, Dedupe(xs)[i]) < FirstIndex(xs, Dedupe(xs)[j])
  {
    DedupeDistinct(xs);
    if xs != [] {
      var init, y := xs[..|xs| - 1], xs[|xs| - 1];
      assert xs == init + [y];
      DedupeKeepsFirstOccurrenceOrder(init);
      DedupeDistinct(init);
      var d := Dedupe(init);
      var r := Dedupe(xs);
      assert r == if y in d then d else d + [y];
      forall i, j | 0 <= i < j < |r| ensures FirstIndex(xs, r[i]) < FirstIndex(xs, r[j]) {
        assert r[i] == d[i] && d[i] in init;
        FirstIndexSnoc(init, y, r[i]);
        FirstIndexSnoc(init, y, r[j]);
        if j < |d| {
          assert r[j] == d[j] && d[j] in init;
          assert FirstIndex(init, d[i]) < FirstIndex(init, d[j]);
        } else {
          assert r[j] == y && y !in init;
        }
      }
    }
  }

  /** Appending more paths never reorders the distinct ones found so far. */
  lemma {:induction false} DedupePrefix(a: seq<string>, b: seq<string>)
    ensures |Dedupe(a)| <= |Dedupe(a + b)| && Dedupe(a + b)[..|Dedupe(a)|] == Dedupe(a)
    decreases |b|
  {
    if b == [] {
      assert a + b == a;
    } else {
      var b0 := b[..|b| - 1];
      DedupePrefix(a, b0);
      assert (a + b)[..|a + b| - 1] == a + b0;
    }
  }

  // ---- _extractImagePaths ---------------------------------------------

  /** `raw` are the captures the scan of `text` finds before `pos`. */
  predicate ScannedUpTo(pat: Pattern, text: string, pos: nat, raw: seq<string>)
    requires pos <= |text|
  {
    raw + Scan(pat, text, pos) == Scan(pat, text, 0)
  }

  /** One step of the scan keeps the captures so far followed by the
      captures still to come equal to all captures. */
  lemma ScanAdvance(pat: Pattern, text: string, pos: nat, raw: seq<string>)
    requires pos < |text| && ScannedUpTo(pat, text, pos, raw)
    ensures var m := MatchAt(pat, text, pos);
            m.Some? ==> ScannedUpTo(pat, text, m.value.end, raw + [m.value.capture])
    ensures MatchAt(pat, text, pos).None? ==> ScannedUpTo(pat, text, pos + 1, raw)
  {
    ScanStep(pat, text, pos);
    var m := MatchAt(pat, text, pos);
    if m.Some? {
      AppendAssoc(raw, [m.value.capture], Scan(pat, text, m.value.end));
    }
  }

  /** One `while ((m = regex.exec(text)))` loop: the trimmed captures of
      every match of `pat`, left to right. */
  method CollectMatches(pat: Pattern, text: string) returns (found: seq<string>)
    ensures found == Paths(pat, text)
  {
    found := [];
    ghost var raw: seq<string> := [];
    var pos := 0;
    while pos < |text|
      invariant pos <= |text|
      invariant ScannedUpTo(pat, text, pos, raw)
      invariant found == TrimAll(raw)
      decreases |text| - pos
    {
      ScanAdvance(pat, text, pos, raw);
      var m := MatchAt(pat, text, pos);
      if m.Some? {
        TrimAllSnoc(raw, m.value.capture);
        found := found + [Strip(m.value.capture)];
        raw := raw + [m.value.capture];
        pos := m.value.end;
      } else {
        pos := pos + 1;
      }
    }
    assert raw == Scan(pat, text, 0);
  }

  /** `Array.from(new Set(paths))`. */
  method Distinct(xs: seq<string>) returns (r: seq<string>)
    ensures r == Dedupe(xs)
  {
    r := [];
    var i := 0;
    while i < |xs|
      invariant 0 <= i <= |xs|
      invariant r == Dedupe(xs[..i])
    {
      assert xs[..i + 1][..i] == xs[..i];
      if xs[i] !in r {
        r := r + [xs[i]];
      }
      i := i + 1;
    }
    assert xs[..|xs|] == xs;
  }

  /** `_extractImagePaths(text)`: all markdown captures, then all `<img>`
      captures, trimmed, without repetitions. */
  method ExtractImagePaths(text: string) returns (paths: seq<string>)
    ensures paths == Dedupe(Paths(Markdown, text) + Paths(HtmlImg, text))
  {
    var md := CollectMatches(Markdown, text);
    var html := CollectMatches(HtmlImg, text);
    paths := Distinct(md + html);
  }

  /** The extracted paths are trimmed and distinct, keep the order of their
      first occurrences, and every markdown path comes before every path
      found only in an `<img>` tag. */
  lemma ExtractedPathsShape(text: string)
    ensures var md := Paths(Markdown, text);
            var all := md + Paths(HtmlImg, text);
            var r := Dedupe(all);
            && (forall x :: x in r <==> x in all)
            && (forall x :: x in r ==> Trimmed(x))
            && (forall i, j :: 0 <= i < j < |r| ==> r[i] != r[j])
            && (forall i, j :: 0 <= i < j < |r| ==> FirstIndex(all, r[i]) < FirstIndex(all, r[j]))
            && |Dedupe(md)| <= |r| && r[..|Dedupe(md)|] == Dedupe(md)
  {
    var md := Paths(Markdown, text);
    var html := Paths(HtmlImg, text);
    var all := md + html;
    TrimAllTrimmed(Scan(Markdown, text, 0));
    TrimAllTrimmed(Scan(HtmlImg, text, 0));
    DedupeDistinct(all);
    DedupeKeepsFirstOccurrenceOrder(all);
    DedupePrefix(md, html);
  }

  // ---- _toWorkspaceUri and _toWebviewSrc ----------------------------------

  /** The `vscode.Uri` values the extension builds. */
  datatype Uri =
    | Parsed(text: string)              // `vscode.Uri.parse(p)`
    | Joined(dir: string, rel: string)  // `joinPath(Uri.file(dirname(doc)), p)`
    | FilePath(path: string)            // `vscode.Uri.file(p)`

  predicate StartsWith(s: string, prefix: string) {
    |prefix| <= |s| && s[..|prefix|] == prefix
  }

  /** `/^(https?:)?\/\//`. */
  predicate IsRemote(p: string) {
    StartsWith(p, "//") || StartsWith(p, "http://") || StartsWith(p, "https://")
  }

  predicate IsAsciiLetter(c: char) {
    ('A' <= c <= 'Z') || ('a' <= c <= 'z')
  }

  /** `/^[A-Za-z]:\\/`: a Windows drive path. */
  predicate IsDrivePath(p: string) {
    |p| >= 3 && IsAsciiLetter(p[0]) && p[1] == ':' && p[2] == '\\'
  }

  /** `_toWorkspaceUri(possiblePath, doc)`, with `docDir` the directory of
      the document's file system path. */
  function ToWorkspaceUri(p: string, docDir: string): (r: Option<Uri>)
    ensures r.None? <==> p == []
    ensures p != [] && IsRemote(p) ==> r == Some(Parsed(p))
    ensures p != [] && !IsRemote(p) ==>
              (r == Some(Joined(docDir, p)) <==> !IsDrivePath(p) && !StartsWith(p, "/"))
    ensures p != [] && !IsRemote(p) && (IsDrivePath(p) || StartsWith(p, "/")) ==> r == Some(FilePath(p))
  {
    if p == [] then None
    else if IsRemote(p) then Some(Parsed(p))
    else if !IsDrivePath(p) && !StartsWith(p, "/") then Some(Joined(docDir, p))
    else Some(FilePath(p))
  }

  /** The scheme `Uri.parse` reads; text without one parses as a file URI. */
  function Scheme(u: Uri): string {
    match u
    case Parsed(t) =>
      if StartsWith(t, "http:") then "http" else if StartsWith(t, "https:") then "https" else "file"
    case _ => "file"
  }

  /** What the webview's `<img src>` receives. */
  datatype Src = Direct(url: string) | ThroughWebview(uri: Uri)

  /** `_toWebviewSrc(uri, webview)`: web URIs pass through, everything else
      goes through `asWebviewUri`. */
  function ToWebviewSrc(uri: Option<Uri>): (r: Option<Src>)
    ensures r.None? <==> uri.None?
    ensures uri.Some? && uri.value.Parsed? && Scheme(uri.value) in {"http", "https"} ==>
              r == Some(Direct(uri.value.text))
    ensures uri.Some? && Scheme(uri.value) == "file" ==> r == Some(ThroughWebview(uri.value))
  {
    match uri
    case None => None
    case Some(u) =>
      if (Scheme(u) == "http" || Scheme(u) == "https") && u.Parsed? then Some(Direct(u.text))
      else Some(ThroughWebview(u))
  }

  /** `http://` and `https://` references reach the webview unchanged; a
      protocol-relative `//host/...` one does not count as a web scheme. */
  lemma WebPathsPassThrough(p: string, docDir: string)
    requires StartsWith(p, "http://") || StartsWith(p, "https://")
    ensures ToWebviewSrc(ToWorkspaceUri(p, docDir)) == Some(Direct(p))
  {
    if StartsWith(p, "https://") {
      assert p[..6] == "https:";
      assert !StartsWith(p, "http:") by { assert p[4] == 's'; }
    } else {
      assert p[..5] == "http:";
    }
  }

  /** A relative path, such as `images/a.png`, goes through the webview as a
      path joined to the document's directory. */
  lemma RelativePathScenario(docDir: string)
    ensures ToWebviewSrc(ToWorkspaceUri("images/a.png", docDir)) == Some(ThroughWebview(Joined(docDir, "images/a.png")))
  {
    var p := "images/a.png";
    assert p[0] == 'i' && p[1] == 'm';
    assert !IsRemote(p) && !IsDrivePath(p) && !StartsWith(p, "/");
  }
}
