/**
 * Reconciliation of the tracked channel: when the label the script last
 * decorated for is set and differs from the one just resolved, every element
 * colorized for another channel loses its mark.
 */
module ColorizationTracker {
  import opened Optional
  import opened Dom

  /** `currentlyColorizedId && currentlyColorizedId !== currentId`: a non-empty tracked label that differs. */
  predicate ChannelChanged(tracked: Option<string>, current: Option<string>) {
    tracked.Some? && tracked.value != "" && tracked != current
  }

  /** Selected by `[data-colorized="true"]` and owned (by `data-channel-id`) by a channel other than `current`. */
  predicate Stale(e: Element, current: Option<string>) {
    Colorized(e) && GetAttribute(e, ChannelIdAttr) != current
  }

  /** Each element after the pass over `[data-colorized="true"]`. */
  function StripIfStale(e: Element, current: Option<string>): Element {
    if Stale(e, current) then Strip(e) else e
  }

  /** The page's elements after reconciling `tracked` with `current`. */
  function Reconcile(tracked: Option<string>, current: Option<string>, marks: seq<Element>): (r: seq<Element>)
    ensures |r| == |marks|
    ensures !ChannelChanged(tracked, current) ==> r == marks
    ensures ChannelChanged(tracked, current) ==> forall k :: 0 <= k < |r| ==> !Stale(r[k], current)
    ensures forall k :: 0 <= k < |r| && !Stale(marks[k], current) ==> r[k] == marks[k]
    ensures ChannelChanged(tracked, current) ==>
      forall k :: 0 <= k < |r| && Stale(marks[k], current) ==> r[k] == Strip(marks[k]) && Unmarked(r[k])
  {
    if ChannelChanged(tracked, current) then
      seq(|marks|, k requires 0 <= k < |marks| => StripIfStale(marks[k], current))
    else marks
  }

  /**
   * The `forEach` over `[data-colorized="true"]`: every colorized element owned
   * by a channel other than `current` loses its mark, in place.
   */
  method StripStaleMarks(elements: array<Element>, current: Option<string>)
    modifies elements
    ensures forall m :: 0 <= m < elements.Length ==> elements[m] == StripIfStale(old(elements[m]), current)
  {
    var k := 0;
    while k < elements.Length
      invariant 0 <= k <= elements.Length
      invariant forall m :: 0 <= m < k ==> elements[m] == StripIfStale(old(elements[m]), current)
      invariant forall m :: k <= m < elements.Length ==> elements[m] == old(elements[m])
    {
      var el := elements[k];
      if Stale(el, current) {
        elements[k] := Strip(el);
      }
      k := k + 1;
    }
  }

  /** Reconciliation after a change is the element-by-element pass over the page. */
  lemma ReconcileByElement(tracked: Option<string>, current: Option<string>, marks: seq<Element>, after: seq<Element>)
    requires ChannelChanged(tracked, current) && |after| == |marks|
    requires forall m :: 0 <= m < |marks| ==> after[m] == StripIfStale(marks[m], current)
    ensures after == Reconcile(tracked, current, marks)
  {
  }

  /** Reconciliation only removes marks: an element colorized afterwards was colorized before. */
  lemma ReconcileAddsNoColorization(tracked: Option<string>, current: Option<string>, marks: seq<Element>)
    ensures var r := Reconcile(tracked, current, marks);
      forall k :: 0 <= k < |r| && Colorized(r[k]) ==> Colorized(marks[k])
  {
    var r := Reconcile(tracked, current, marks);
    forall k | 0 <= k < |r| && Colorized(r[k]) ensures Colorized(marks[k]) {
      assert r[k] == marks[k];
    }
  }

  /** Once the tracker holds `current`, reconciling again changes nothing. */
  lemma ReconcileIdempotent(tracked: Option<string>, current: Option<string>, marks: seq<Element>)
    ensures Reconcile(current, current, Reconcile(tracked, current, marks)) == Reconcile(tracked, current, marks)
  {
  }
}
