/**
 * The content script's state and its re-evaluation entry point.  The two
 * script-wide globals, `currentlyColorizedId` and `lastUrl`, are the fields of
 * one `Colorizer`; `applyColors` runs resolve, reconcile, decide and decorate
 * against a `Document`, with the settings the storage read delivered.
 */
module ContentScript {
  import opened Optional
  import opened JsText
  import opened Dom
  import opened ChannelResolver
  import opened ColorizationTracker
  import opened Luminance
  import opened ColorPolicy

  /** A JavaScript truthy label: present and non-empty. */
  predicate Truthy(c: Option<string>) {
    c.Some? && c.value != ""
  }

  /** One run of `applyColors` on the tracked label and the page's elements. */
  ghost function Pipeline(tracked: Option<string>, href: string, query: map<string, string>,
                          input: Option<nat>, marks: seq<Element>, s: Settings): (Option<string>, seq<Element>)
    requires input.Some? ==> input.value < |marks|
  {
    var current := Resolve(href, query);
    var reconciled := Reconcile(tracked, current, marks);
    if !Truthy(current) then (current, reconciled)
    else (current, ApplySettings(reconciled, input, current.value, s))
  }

  /**
   * No stale decoration: every colorized element is owned by the tracked
   * channel, which is then a non-empty label, and every other element carries
   * no part of a mark.
   */
  ghost predicate MarksConsistent(tracked: Option<string>, marks: seq<Element>) {
    forall k :: 0 <= k < |marks| ==>
      (Colorized(marks[k]) ==> Truthy(tracked) && GetAttribute(marks[k], ChannelIdAttr) == tracked) &&
      (!Colorized(marks[k]) ==> Unmarked(marks[k]))
  }

  class Colorizer {
    var currentlyColorizedId: Option<string>
    var lastUrl: string

    /** Script start: nothing tracked, and the address seen at load time. */
    constructor (href: string)
      ensures currentlyColorizedId == None && lastUrl == href
    {
      currentlyColorizedId := None;
      lastUrl := href;
    }

    /** `removeOtherColorizations()` */
    method RemoveOtherColorizations(doc: Document)
      modifies this`currentlyColorizedId, doc.elements
      ensures currentlyColorizedId == Resolve(doc.href, doc.query)
      ensures doc.elements[..] == Reconcile(old(currentlyColorizedId), currentlyColorizedId, old(doc.elements[..]))
    {
      var currentId := GetCurrentChannel(doc.href, doc.query);
      if ChannelChanged(currentlyColorizedId, currentId) {
        ghost var before := doc.elements[..];
        StripStaleMarks(doc.elements, currentId);
        ghost var after := doc.elements[..];
        assert forall m :: 0 <= m < |before| ==> after[m] == StripIfStale(before[m], currentId);
        ReconcileByElement(currentlyColorizedId, currentId, before, after);
      }
      currentlyColorizedId := currentId;
    }

    /** `applyColors()`, with the asynchronous settings read replaced by its result `s`. */
    method ApplyColors(doc: Document, s: Settings)
      requires doc.Valid()
      modifies this`currentlyColorizedId, doc.elements
      ensures (currentlyColorizedId, doc.elements[..]) ==
              Pipeline(old(currentlyColorizedId), doc.href, doc.query, doc.input, old(doc.elements[..]), s)
    {
      RemoveOtherColorizations(doc);
      var currentChannel := GetCurrentChannel(doc.href, doc.query);
      if currentChannel.None? || currentChannel.value == "" {
        return;
      }
      ApplyStoredColors(doc, currentChannel.value, s);
    }

    /** The comparison step of `checkURLChange()`: remember the address and report whether it moved. */
    method CheckUrlChange(doc: Document) returns (reapply: bool)
      modifies this`lastUrl
      ensures lastUrl == doc.href
      ensures reapply <==> doc.href != old(lastUrl)
    {
      reapply := doc.href != lastUrl;
      if reapply {
        lastUrl := doc.href;
      }
    }
  }

  // ---- Properties of the pipeline ----

  /** Afterwards the tracker holds the resolved channel. */
  lemma PipelineTracksResolved(tracked: Option<string>, href: string, query: map<string, string>,
                               input: Option<nat>, marks: seq<Element>, s: Settings)
    requires input.Some? ==> input.value < |marks|
    ensures Pipeline(tracked, href, query, input, marks, s).0 == Resolve(href, query)
    ensures |Pipeline(tracked, href, query, input, marks, s).1| == |marks|
  {
  }

  /** With no usable channel the run ends after reconciliation: the surface is neither decorated nor cleared. */
  lemma NullChannelStopsAfterReconcile(tracked: Option<string>, href: string, query: map<string, string>,
                                       input: Option<nat>, marks: seq<Element>, s: Settings)
    requires input.Some? ==> input.value < |marks|
    requires !Truthy(Resolve(href, query))
    ensures Pipeline(tracked, href, query, input, marks, s).1 == Reconcile(tracked, Resolve(href, query), marks)
  {
  }

  /**
   * A non-excluded channel leaves the surface colorized for it with the
   * default colour as an important background, and `dark-theme` exactly when
   * that colour is dark.
   */
  lemma DecoratesNonExcluded(tracked: Option<string>, href: string, query: map<string, string>,
                             i: nat, marks: seq<Element>, s: Settings)
    requires i < |marks|
    requires Truthy(Resolve(href, query))
    requires !Excluded(Resolve(href, query).value, ExclusionMap(s).Keys)
    ensures var e := Pipeline(tracked, href, query, Some(i), marks, s).1[i];
      && Colorized(e) && GetAttribute(e, ChannelIdAttr) == Resolve(href, query)
      && BackgroundColor in e.style && e.style[BackgroundColor] == Declaration(DefaultColor(s), true)
      && (DarkTheme in e.classes <==> IsColorDark(DefaultColor(s)))
  {
  }

  /** Decoration changes only the input surface; every other element is as reconciliation left it. */
  lemma OnlyInputDecorated(tracked: Option<string>, href: string, query: map<string, string>,
                           input: Option<nat>, marks: seq<Element>, s: Settings, k: nat)
    requires input.Some? ==> input.value < |marks|
    requires k < |marks| && input != Some(k)
    ensures Pipeline(tracked, href, query, input, marks, s).1[k] == Reconcile(tracked, Resolve(href, query), marks)[k]
  {
  }

  /**
   * At most one live decoration per run: when before the run only the input
   * surface may be colorized, the same holds after it.
   */
  lemma PipelineOnlyInputColorized(tracked: Option<string>, href: string, query: map<string, string>,
                                   input: Option<nat>, marks: seq<Element>, s: Settings)
    requires input.Some? ==> input.value < |marks|
    requires forall k :: 0 <= k < |marks| && Colorized(marks[k]) ==> input == Some(k)
    ensures var (t, m) := Pipeline(tracked, href, query, input, marks, s);
      forall k :: 0 <= k < |m| && Colorized(m[k]) ==> input == Some(k)
  {
    ReconcileAddsNoColorization(tracked, Resolve(href, query), marks);
  }

  /** Reconciliation hands a consistent page over to the newly resolved channel. */
  lemma ReconcileKeepsMarksConsistent(tracked: Option<string>, current: Option<string>, marks: seq<Element>)
    requires MarksConsistent(tracked, marks)
    ensures MarksConsistent(current, Reconcile(tracked, current, marks))
  {
    var reconciled := Reconcile(tracked, current, marks);
    forall k | 0 <= k < |reconciled|
      ensures Colorized(reconciled[k]) ==> Truthy(current) && GetAttribute(reconciled[k], ChannelIdAttr) == current
      ensures !Colorized(reconciled[k]) ==> Unmarked(reconciled[k])
    {
      if Stale(marks[k], current) && ChannelChanged(tracked, current) {
        assert Unmarked(reconciled[k]);
      } else {
        assert reconciled[k] == marks[k];
      }
    }
  }

  /** Running `applyColors` on a consistent page keeps it consistent: no stale decoration survives a run. */
  lemma PipelineKeepsMarksConsistent(tracked: Option<string>, href: string, query: map<string, string>,
                                     input: Option<nat>, marks: seq<Element>, s: Settings)
    requires input.Some? ==> input.value < |marks|
    requires MarksConsistent(tracked, marks)
    ensures var (t, m) := Pipeline(tracked, href, query, input, marks, s); MarksConsistent(t, m)
  {
    var current := Resolve(href, query);
    var reconciled := Reconcile(tracked, current, marks);
    ReconcileKeepsMarksConsistent(tracked, current, marks);
    if Truthy(current) {
      var r := ApplySettings(reconciled, input, current.value, s);
      forall k | 0 <= k < |r|
        ensures Colorized(r[k]) ==> Truthy(current) && GetAttribute(r[k], ChannelIdAttr) == current
        ensures !Colorized(r[k]) ==> Unmarked(r[k])
      {
        if input == Some(k) && Decide(current.value, s).Clear? && Colorized(reconciled[k]) {
          assert Unmarked(r[k]);
        } else if input == Some(k) && Decide(current.value, s).Paint? {
          assert Colorized(r[k]);
        } else {
          assert r[k] == reconciled[k];
        }
      }
    }
  }

  /**
   * When the policy clears (no usable channel, or an excluded one), a
   * consistent page ends with no part of a mark on the input surface: no
   * background override, no `dark-theme` class and neither marker attribute.
   */
  lemma ClearLeavesSurfaceBare(tracked: Option<string>, href: string, query: map<string, string>,
                               i: nat, marks: seq<Element>, s: Settings)
    requires i < |marks|
    requires MarksConsistent(tracked, marks)
    requires !Truthy(Resolve(href, query)) || Excluded(Resolve(href, query).value, ExclusionMap(s).Keys)
    ensures var e := Pipeline(tracked, href, query, Some(i), marks, s).1[i];
      Unmarked(e) && !Colorized(e)
  {
    var current := Resolve(href, query);
    ReconcileKeepsMarksConsistent(tracked, current, marks);
    var reconciled := Reconcile(tracked, current, marks);
    assert Colorized(reconciled[i]) ==> Truthy(current);
    assert !Colorized(reconciled[i]) ==> Unmarked(reconciled[i]);
  }

  /**
   * Switching from channel `a` to a different channel: every mark owned by `a`
   * is gone after the same run, whatever the policy says about the new one.
   */
  lemma SwitchRemovesOldMarks(a: string, href: string, query: map<string, string>,
                              input: Option<nat>, marks: seq<Element>, s: Settings, k: nat)
    requires input.Some? ==> input.value < |marks|
    requires a != "" && Resolve(href, query) != Some(a)
    requires k < |marks|
    ensures var e := Pipeline(Some(a), href, query, input, marks, s).1[k];
      !(Colorized(e) && GetAttribute(e, ChannelIdAttr) == Some(a))
  {
    var current := Resolve(href, query);
    var reconciled := Reconcile(Some(a), current, marks);
    assert !Stale(reconciled[k], current);
    if Truthy(current) {
      var out := ApplySettings(reconciled, input, current.value, s);
      if input == Some(k) && Decide(current.value, s).Clear? {
        assert out[k] == if Colorized(reconciled[k]) then Strip(reconciled[k]) else reconciled[k];
      }
    }
  }

  /** Running `applyColors` twice on an unchanged page with unchanged settings is the same as running it once. */
  lemma PipelineIdempotent(tracked: Option<string>, href: string, query: map<string, string>,
                           input: Option<nat>, marks: seq<Element>, s: Settings)
    requires input.Some? ==> input.value < |marks|
    ensures var (t, m) := Pipeline(tracked, href, query, input, marks, s);
      Pipeline(t, href, query, input, m, s) == (t, m)
  {
    var current := Resolve(href, query);
    var reconciled := Reconcile(tracked, current, marks);
    if Truthy(current) {
      ApplySettingsIdempotent(reconciled, input, current.value, s);
    }
  }

  /**
   * End to end: on `https://app.slack.com/client/<workspace>/C<ID>`, with no
   * matching exclusion and the stored default `#f2f2f2`, the message input ends
   * colorized for `C<ID>` with an important `#f2f2f2` background and no `dark-theme`.
   */
  lemma EndToEndClientAddress(workspace: string, id: string, query: map<string, string>,
                              marks: seq<Element>, tracked: Option<string>, s: Settings)
    requires workspace != [] && '/' !in workspace
    requires id != [] && forall m :: 0 <= m < |id| ==> IsIdChar(id[m])
    requires |marks| > 0
    requires !Excluded("C" + id, ExclusionMap(s).Keys) && s.defaultColor == Some(FallbackColor)
    ensures var e := Pipeline(tracked, "https://" + AppPrefix + workspace + "/C" + id, query, Some(0), marks, s).1[0];
      && Colorized(e) && GetAttribute(e, ChannelIdAttr) == Some("C" + id)
      && BackgroundColor in e.style && e.style[BackgroundColor] == Declaration(FallbackColor, true)
      && DarkTheme !in e.classes
  {
    var href := "https://" + AppPrefix + workspace + "/C" + id;
    HttpsAddressResolves(workspace, id, query);
    assert DefaultColor(s) == FallbackColor;
    FallbackIsLight();
    DecoratesNonExcluded(tracked, href, query, 0, marks, s);
  }
}
