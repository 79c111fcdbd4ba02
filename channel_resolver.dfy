/**
 * Channel resolution: the first of three strategies that yields a label wins.
 *   1. the Slack client address `app.slack.com/client/<workspace>/C<ID>`;
 *   2. the trimmed text of the first selector, in a fixed order, whose element has text;
 *   3. the last path segment of the address.
 * Otherwise there is no channel (`None`).
 */
module ChannelResolver {
  import opened Optional
  import opened JsText

  const AppPrefix: string := "app.slack.com/client/"

  /** The DOM lookups of strategy 2, in the order they are tried. */
  const Selectors: seq<string> := [
    "[data-qa=\"channel_name\"]",
    ".p-channel_sidebar__channel--selected .p-channel_sidebar__name",
    ".p-ia__nav__user__title",
    ".c-channel_name",
    ".p-view_header__channel_title",
    ".c-breadcrumbs__item span"
  ]

  /** `[A-Z0-9]` */
  predicate IsIdChar(c: char) {
    'A' <= c <= 'Z' || '0' <= c <= '9'
  }

  /**
   * The pattern `app\.slack\.com\/client\/[^\/]+\/(C[A-Z0-9]+)` matches at `p`:
   * the workspace segment runs up to the slash at `n`, then `C` and an ID run
   * that ends at `j`, where the greedy `[A-Z0-9]+` stops.  The capture is `h[n+1..j]`.
   */
  ghost predicate AppUrlAt(h: string, p: int, n: int, j: int) {
    && 0 <= p && p + |AppPrefix| < n && n + 2 < j <= |h|
    && h[p..p + |AppPrefix|] == AppPrefix
    && (forall m :: p + |AppPrefix| <= m < n ==> h[m] != '/')
    && h[n] == '/' && h[n + 1] == 'C'
    && (forall m :: n + 2 <= m < j ==> IsIdChar(h[m]))
    && (j < |h| ==> !IsIdChar(h[j]))
  }

  /** The first `/` at or after `i`, or the end of `h`. */
  function SlashFrom(h: string, i: nat): (n: nat)
    requires i <= |h|
    ensures i <= n <= |h|
    ensures forall m :: i <= m < n ==> h[m] != '/'
    ensures n < |h| ==> h[n] == '/'
    decreases |h| - i
  {
    if i == |h| || h[i] == '/' then i else SlashFrom(h, i + 1)
  }

  /** Where a run of `[A-Z0-9]` starting at `i` ends. */
  function IdRunFrom(h: string, i: nat): (j: nat)
    requires i <= |h|
    ensures i <= j <= |h|
    ensures forall m :: i <= m < j ==> IsIdChar(h[m])
    ensures j < |h| ==> !IsIdChar(h[j])
    decreases |h| - i
  {
    if i == |h| || !IsIdChar(h[i]) then i else IdRunFrom(h, i + 1)
  }

  /** The regular expression tried at start position `p` only. */
  function MatchAppAt(h: string, p: nat): (r: Option<string>)
    requires p <= |h|
    ensures r.Some? <==> exists n, j :: AppUrlAt(h, p, n, j)
    ensures forall n, j :: AppUrlAt(h, p, n, j) ==> r == Some(h[n + 1..j])
  {
    if p + |AppPrefix| <= |h| && h[p..p + |AppPrefix|] == AppPrefix then
      var s := p + |AppPrefix|;
      var n := SlashFrom(h, s);
      MatchAppAtUnique(h, p, n);
      if s < n && n + 1 < |h| && h[n + 1] == 'C' then
        var j := IdRunFrom(h, n + 2);
        if n + 2 < j then
          assert AppUrlAt(h, p, n, j);
          Some(h[n + 1..j])
        else None
      else None
    else None
  }

  /** There is only one way the pattern can match at `p`: both runs are maximal. */
  lemma MatchAppAtUnique(h: string, p: nat, n0: nat)
    requires p + |AppPrefix| <= |h| && n0 == SlashFrom(h, p + |AppPrefix|)
    ensures forall n, j :: AppUrlAt(h, p, n, j) ==>
      n == n0 && n0 + 2 <= |h| && h[n0 + 1] == 'C' && j == IdRunFrom(h, n0 + 2)
  {
    forall n, j | AppUrlAt(h, p, n, j)
      ensures n == n0 && n0 + 2 <= |h| && h[n0 + 1] == 'C' && j == IdRunFrom(h, n0 + 2)
    {
      assert !(n < n0) && !(n0 < n);
      var j0 := IdRunFrom(h, n + 2);
      assert !(j < j0) && !(j0 < j);
    }
  }

  /** The leftmost match at or after `p`, as the regular expression engine searches. */
  function FindApp(h: string, p: nat): (r: Option<string>)
    requires p <= |h|
    ensures r.Some? ==> exists q :: FirstAppMatch(h, p, q) && MatchAppAt(h, q) == r
    ensures r.None? ==> forall q :: p <= q <= |h| ==> MatchAppAt(h, q).None?
    decreases |h| - p
  {
    match MatchAppAt(h, p)
    case Some(t) =>
      assert FirstAppMatch(h, p, p);
      Some(t)
    case None =>
      if p == |h| then None
      else
        var r := FindApp(h, p + 1);
        FindAppStep(h, p, r);
        r
  }

  /** A search that finds no match at `p` keeps both facts about the rest of the search. */
  lemma FindAppStep(h: string, p: nat, r: Option<string>)
    requires p < |h| && MatchAppAt(h, p).None?
    requires r.Some? ==> exists q :: FirstAppMatch(h, p + 1, q) && MatchAppAt(h, q) == r
    requires r.None? ==> forall q :: p + 1 <= q <= |h| ==> MatchAppAt(h, q).None?
    ensures r.Some? ==> exists q :: FirstAppMatch(h, p, q) && MatchAppAt(h, q) == r
    ensures r.None? ==> forall q :: p <= q <= |h| ==> MatchAppAt(h, q).None?
  {
    if r.Some? {
      var q :| FirstAppMatch(h, p + 1, q) && MatchAppAt(h, q) == r;
      assert FirstAppMatch(h, p, q);
    }
  }

  /** `q` is the first start position at or after `p` where the pattern matches. */
  ghost predicate FirstAppMatch(h: string, p: nat, q: int) {
    p <= q <= |h| && MatchAppAt(h, q).Some? && forall q' :: p <= q' < q ==> MatchAppAt(h, q').None?
  }

  /** Strategy 1: the `C…` capture of the Slack client address pattern. */
  function AppChannel(h: string): Option<string> {
    FindApp(h, 0)
  }

  /** The longest suffix of `h` without a `/`. */
  function TrailingSegment(h: string): (t: string)
    ensures |t| <= |h| && t == h[|h| - |t|..]
    ensures '/' !in t
    ensures |t| < |h| ==> h[|h| - |t| - 1] == '/'
  {
    if h == [] || h[|h| - 1] == '/' then []
    else
      var t := TrailingSegment(h[..|h| - 1]);
      TrailingStep(h, t);
      t + [h[|h| - 1]]
  }

  /** Extending the segment of `h` without its last character by that character. */
  lemma TrailingStep(h: string, t: string)
    requires h != [] && h[|h| - 1] != '/'
    requires |t| <= |h| - 1 && t == h[..|h| - 1][|h| - 1 - |t|..] && '/' !in t
    requires |t| < |h| - 1 ==> h[..|h| - 1][|h| - 1 - |t| - 1] == '/'
    ensures var u := t + [h[|h| - 1]];
      |u| <= |h| && u == h[|h| - |u|..] && '/' !in u && (|u| < |h| ==> h[|h| - |u| - 1] == '/')
  {
    assert h[..|h| - 1][|h| - 1 - |t|..] + [h[|h| - 1]] == h[|h| - |t| - 1..];
  }

  /**
   * Strategy 3, the pattern `\/([^\/]+)$`: the non-empty text after the last
   * `/`, or `None` when there is no `/` or the address ends in one.
   */
  function LastSegment(h: string): (r: Option<string>)
    ensures r.Some? ==> && r.value != [] && '/' !in r.value && |r.value| < |h|
                        && h[|h| - |r.value| - 1] == '/' && h[|h| - |r.value|..] == r.value
    ensures r.None? <==> (h == [] || h[|h| - 1] == '/' || '/' !in h)
  {
    var t := TrailingSegment(h);
    if t != [] && |t| < |h| then Some(t)
    else
      assert t == h ==> '/' !in h;
      None
  }

  /** The selector finds an element whose text is non-empty (a truthy `textContent`). */
  predicate HasText(query: map<string, string>, sel: string) {
    sel in query && query[sel] != ""
  }

  /** `sels[i]` is the first selector of `sels` with text. */
  ghost predicate FirstWithText(query: map<string, string>, sels: seq<string>, i: int) {
    0 <= i < |sels| && HasText(query, sels[i]) && forall k :: 0 <= k < i ==> !HasText(query, sels[k])
  }

  /** Strategy 2 over a list of selectors: the trimmed text of the first one with text. */
  function ScanSelectors(query: map<string, string>, sels: seq<string>): (r: Option<string>)
    ensures r.None? <==> forall i :: 0 <= i < |sels| ==> !HasText(query, sels[i])
    ensures r.Some? ==> exists i :: FirstWithText(query, sels, i) && r.value == Trim(query[sels[i]])
  {
    if sels == [] then None
    else if HasText(query, sels[0]) then
      assert FirstWithText(query, sels, 0);
      Some(Trim(query[sels[0]]))
    else
      var r := ScanSelectors(query, sels[1..]);
      ScanStep(query, sels, r);
      r
  }

  /** A scan that skips a first selector without text keeps both facts about its result. */
  lemma ScanStep(query: map<string, string>, sels: seq<string>, r: Option<string>)
    requires sels != [] && !HasText(query, sels[0])
    requires r.None? <==> forall i :: 0 <= i < |sels[1..]| ==> !HasText(query, sels[1..][i])
    requires r.Some? ==> exists i :: FirstWithText(query, sels[1..], i) && r.value == Trim(query[sels[1..][i]])
    ensures r.None? <==> forall i :: 0 <= i < |sels| ==> !HasText(query, sels[i])
    ensures r.Some? ==> exists i :: FirstWithText(query, sels, i) && r.value == Trim(query[sels[i]])
  {
    if r.Some? {
      var i :| FirstWithText(query, sels[1..], i) && r.value == Trim(query[sels[1..][i]]);
      FirstWithTextShift(query, sels, i);
    } else {
      NoTextShift(query, sels);
    }
  }

  lemma FirstWithTextShift(query: map<string, string>, sels: seq<string>, i: int)
    requires sels != [] && !HasText(query, sels[0]) && FirstWithText(query, sels[1..], i)
    ensures FirstWithText(query, sels, i + 1) && sels[i + 1] == sels[1..][i]
  {
    forall k | 0 <= k < i + 1 ensures !HasText(query, sels[k]) {
      if k > 0 { assert sels[k] == sels[1..][k - 1]; }
    }
  }

  lemma NoTextShift(query: map<string, string>, sels: seq<string>)
    requires sels != [] && !HasText(query, sels[0])
    requires forall i :: 0 <= i < |sels[1..]| ==> !HasText(query, sels[1..][i])
    ensures forall i :: 0 <= i < |sels| ==> !HasText(query, sels[i])
  {
    forall i | 0 <= i < |sels| ensures !HasText(query, sels[i]) {
      if i > 0 { assert sels[i] == sels[1..][i - 1]; }
    }
  }

  /** `getCurrentChannel()` as a function of the address and the page's selector texts. */
  function Resolve(href: string, query: map<string, string>): Option<string> {
    match AppChannel(href)
    case Some(id) => Some(id)
    case None =>
      match ScanSelectors(query, Selectors)
      case Some(name) => Some(name)
      case None => LastSegment(href)
  }

  /** `getCurrentChannel()`: the strategies in order, the selector list scanned by a loop that returns early. */
  method GetCurrentChannel(href: string, query: map<string, string>) returns (r: Option<string>)
    ensures r == Resolve(href, query)
  {
    var app := AppChannel(href);
    if app.Some? {
      return app;
    }
    var i := 0;
    while i < |Selectors|
      invariant 0 <= i <= |Selectors|
      invariant ScanSelectors(query, Selectors[i..]) == ScanSelectors(query, Selectors)
    {
      var sel := Selectors[i];
      if sel in query && query[sel] != "" {
        return Some(Trim(query[sel]));
      }
      assert Selectors[i..][1..] == Selectors[i + 1..];
      i := i + 1;
    }
    r := LastSegment(href);
  }

  // ---- Properties of resolution ----

  /**
   * Address first: when the Slack client pattern occurs in the address, the
   * result is the `C…` capture of its leftmost occurrence, whatever the page shows.
   */
  lemma UrlStrategyFirst(h: string, query: map<string, string>, p: int, n: int, j: int)
    requires AppUrlAt(h, p, n, j)
    ensures Resolve(h, query).Some?
    ensures exists p', n', j' :: p' <= p && FirstAppMatch(h, 0, p') && AppUrlAt(h, p', n', j') && Resolve(h, query).value == h[n' + 1..j']
    ensures forall query' :: Resolve(h, query') == Resolve(h, query)
  {
    assert MatchAppAt(h, p).Some?;
    var r := FindApp(h, 0);
    assert r.Some?;
    var q :| FirstAppMatch(h, 0, q) && MatchAppAt(h, q) == r;
    assert q <= p;
    var n', j' :| AppUrlAt(h, q, n', j');
    assert r == Some(h[n' + 1..j']);
  }

  /** The capture of a match is `C` followed by at least one `[A-Z0-9]`. */
  lemma CaptureShape(h: string, p: int, n: int, j: int, t: string)
    requires AppUrlAt(h, p, n, j) && t == h[n + 1..j]
    ensures |t| >= 2 && t[0] == 'C'
    ensures forall m :: 0 <= m < |t| ==> IsIdChar(t[m])
  {
    forall m | 0 <= m < |t| ensures IsIdChar(t[m]) {
      assert t[m] == h[n + 1 + m];
    }
  }

  /** A token from strategy 1 is `C` followed by at least one `[A-Z0-9]`. */
  lemma AppChannelShape(h: string)
    requires AppChannel(h).Some?
    ensures |AppChannel(h).value| >= 2 && AppChannel(h).value[0] == 'C'
    ensures forall m :: 0 <= m < |AppChannel(h).value| ==> IsIdChar(AppChannel(h).value[m])
  {
    var r := AppChannel(h);
    var q :| FirstAppMatch(h, 0, q) && MatchAppAt(h, q) == r;
    var n, j :| AppUrlAt(h, q, n, j);
    CaptureShape(h, q, n, j, r.value);
  }

  /** No occurrence of the client pattern means strategy 1 yields nothing. */
  lemma NoAppUrl(h: string)
    requires forall p, n, j :: !AppUrlAt(h, p, n, j)
    ensures AppChannel(h).None?
  {
    forall q | 0 <= q <= |h| ensures MatchAppAt(h, q).None? {
    }
  }

  /** In any selector list, the first selector with text decides the scan. */
  lemma ScanFirst(query: map<string, string>, sels: seq<string>, i: int)
    requires FirstWithText(query, sels, i)
    ensures ScanSelectors(query, sels) == Some(Trim(query[sels[i]]))
  {
    var r := ScanSelectors(query, sels);
    assert r.Some?;
    var k :| FirstWithText(query, sels, k) && r.value == Trim(query[sels[k]]);
    FirstWithTextUnique(query, sels, i, k);
  }

  /** There is only one first selector with text. */
  lemma FirstWithTextUnique(query: map<string, string>, sels: seq<string>, i: int, k: int)
    requires FirstWithText(query, sels, i) && FirstWithText(query, sels, k)
    ensures i == k
  {
    assert !(k < i) && !(i < k);
  }

  /**
   * Selector order: without a client address, the first selector (in the fixed
   * order) whose element has text decides, and its text is returned trimmed,
   * possibly as the empty string.
   */
  lemma SelectorStrategy(h: string, query: map<string, string>, i: int)
    requires forall p, n, j :: !AppUrlAt(h, p, n, j)
    requires FirstWithText(query, Selectors, i)
    ensures Resolve(h, query) == Some(Trim(query[Selectors[i]]))
  {
    NoAppUrl(h);
    ScanFirst(query, Selectors, i);
  }

  /** Selectors after the first one with text are never consulted. */
  lemma LaterSelectorsIgnored(h: string, query: map<string, string>, query': map<string, string>, i: int)
    requires FirstWithText(query, Selectors, i)
    requires forall k :: 0 <= k <= i ==> (Selectors[k] in query <==> Selectors[k] in query')
    requires forall k :: 0 <= k <= i && Selectors[k] in query ==> query[Selectors[k]] == query'[Selectors[k]]
    ensures Resolve(h, query') == Resolve(h, query)
  {
    assert FirstWithText(query', Selectors, i);
    ScanFirst(query, Selectors, i);
    ScanFirst(query', Selectors, i);
  }

  /**
   * Fallback: when neither the client address nor any selector applies, the
   * result is the last path segment, and there is none when the address ends in `/`.
   */
  lemma FallbackStrategy(h: string, query: map<string, string>)
    requires forall p, n, j :: !AppUrlAt(h, p, n, j)
    requires forall i :: 0 <= i < |Selectors| ==> !HasText(query, Selectors[i])
    ensures Resolve(h, query) == LastSegment(h)
    ensures h != [] && h[|h| - 1] == '/' ==> Resolve(h, query).None?
  {
    NoAppUrl(h);
  }

  /** Only strategy 2 can produce the empty label, and only from all-blank text. */
  lemma EmptyOnlyFromBlankText(h: string, query: map<string, string>)
    requires Resolve(h, query) == Some("")
    ensures AppChannel(h).None?
    ensures exists i :: FirstWithText(query, Selectors, i) && AllWhiteSpace(query[Selectors[i]])
  {
    if AppChannel(h).Some? {
      AppChannelShape(h);
    }
  }

  /** The pattern cannot start where the address has no `a`. */
  lemma NoMatchWithoutA(h: string, q: nat)
    requires q <= |h| && (q < |h| ==> h[q] != 'a')
    ensures MatchAppAt(h, q).None?
  {
    if q + |AppPrefix| <= |h| {
      assert h[q..q + |AppPrefix|][0] == h[q];
    }
  }

  /** Strategy 1 yields the capture at the first position where the pattern matches. */
  lemma AppChannelAtFirstMatch(h: string, p: nat)
    requires p <= |h| && MatchAppAt(h, p).Some?
    requires forall q :: 0 <= q < p ==> MatchAppAt(h, q).None?
    ensures AppChannel(h) == MatchAppAt(h, p)
  {
    var r := FindApp(h, 0);
    var q :| FirstAppMatch(h, 0, q) && MatchAppAt(h, q) == r;
    assert q == p;
  }

  /** The client pattern at the end of `scheme + AppPrefix + workspace + "/C" + id`. */
  lemma ClientAddressShape(scheme: string, workspace: string, id: string)
    requires workspace != [] && '/' !in workspace
    requires id != [] && forall m :: 0 <= m < |id| ==> IsIdChar(id[m])
    ensures var h := scheme + AppPrefix + workspace + "/C" + id;
      MatchAppAt(h, |scheme|) == Some("C" + id)
  {
    var h := scheme + AppPrefix + workspace + "/C" + id;
    var p := |scheme|;
    var n := p + |AppPrefix| + |workspace|;
    assert h[p..p + |AppPrefix|] == AppPrefix;
    forall m | p + |AppPrefix| <= m < n ensures h[m] != '/' {
      assert h[m] == workspace[m - p - |AppPrefix|];
    }
    forall m | n + 2 <= m < |h| ensures IsIdChar(h[m]) {
      assert h[m] == id[m - n - 2];
    }
    assert h[n] == '/' && h[n + 1] == 'C';
    assert AppUrlAt(h, p, n, |h|);
    assert h[n + 1..|h|] == "C" + id;
  }

  /**
   * An address made of a scheme and host part without `a`, the client prefix,
   * a workspace segment, `/C` and an ID resolves to `C` and that ID.
   */
  lemma ResolvesClientAddress(scheme: string, workspace: string, id: string, query: map<string, string>)
    requires 'a' !in scheme
    requires workspace != [] && '/' !in workspace
    requires id != [] && forall m :: 0 <= m < |id| ==> IsIdChar(id[m])
    ensures Resolve(scheme + AppPrefix + workspace + "/C" + id, query) == Some("C" + id)
  {
    var h := scheme + AppPrefix + workspace + "/C" + id;
    ClientAddressShape(scheme, workspace, id);
    forall q | 0 <= q < |scheme| ensures MatchAppAt(h, q).None? {
      assert h[q] == scheme[q];
      NoMatchWithoutA(h, q);
    }
    AppChannelAtFirstMatch(h, |scheme|);
  }

  /** An `https://app.slack.com/client/<workspace>/C<ID>` address resolves to `C<ID>`, whatever the page shows. */
  lemma HttpsAddressResolves(workspace: string, id: string, query: map<string, string>)
    requires workspace != [] && '/' !in workspace
    requires id != [] && forall m :: 0 <= m < |id| ==> IsIdChar(id[m])
    ensures Resolve("https://" + AppPrefix + workspace + "/C" + id, query) == Some("C" + id)
  {
    assert 'a' !in "https://";
    ResolvesClientAddress("https://", workspace, id, query);
  }
}
