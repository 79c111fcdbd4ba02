/**
 * The storage callback of `applyColors`: read the exclusion map and the
 * default colour, decide whether the channel is excluded, and decorate or
 * clear the message-input surface accordingly.
 */
module ColorPolicy {
  import opened Optional
  import opened JsText
  import opened Dom
  import opened Luminance

  /** What `chrome.storage.sync.get(['channelColors', 'defaultColor'])` delivers; a missing key is `None`. */
  datatype Settings = Settings(channelColors: Option<map<string, string>>, defaultColor: Option<string>)

  const FallbackColor: string := "#f2f2f2"

  /** `data.channelColors || {}` */
  function ExclusionMap(s: Settings): map<string, string> {
    if s.channelColors.Some? then s.channelColors.value else map[]
  }

  /** `data.defaultColor || '#f2f2f2'`: an absent or empty colour falls back. */
  function DefaultColor(s: Settings): (c: string)
    ensures c != ""
    ensures s.defaultColor.Some? && s.defaultColor.value != "" ==> c == s.defaultColor.value
    ensures !(s.defaultColor.Some? && s.defaultColor.value != "") ==> c == FallbackColor
  {
    if s.defaultColor.Some? && s.defaultColor.value != "" then s.defaultColor.value else FallbackColor
  }

  /** `currentChannel === key || currentChannel.includes(key)` */
  predicate KeyMatches(channel: string, key: string) {
    channel == key || Includes(channel, key)
  }

  /** Some key of the exclusion map equals the channel or occurs inside it. */
  ghost predicate Excluded(channel: string, keys: set<string>) {
    exists k :: k in keys && KeyMatches(channel, k)
  }

  /** The `for (const channel in channelColors)` scan, stopping at the first key that matches. */
  method IsExcludedChannel(channel: string, channelColors: map<string, string>) returns (excluded: bool)
    ensures excluded <==> Excluded(channel, channelColors.Keys)
  {
    excluded := false;
    var remaining := channelColors.Keys;
    while remaining != {}
      invariant remaining <= channelColors.Keys
      invariant !Excluded(channel, channelColors.Keys - remaining)
      decreases remaining
    {
      var key :| key in remaining;
      if channel == key || Includes(channel, key) {
        excluded := true;
        break;
      }
      remaining := remaining - {key};
    }
  }

  /** The equality test is subsumed by containment: a key matches exactly when it occurs in the channel. */
  lemma KeyMatchesIsContainment(channel: string, key: string)
    ensures KeyMatches(channel, key) <==> exists i :: OccursAt(channel, key, i)
  {
    if channel == key {
      assert OccursAt(channel, key, 0);
    }
  }

  /** Partial match, leading: key `general` excludes `general-team`. */
  lemma KeyAsPrefixExcludes(key: string, rest: string, keys: set<string>)
    requires key in keys
    ensures Excluded(key + rest, keys)
  {
    assert (key + rest)[0..|key|] == key;
    assert OccursAt(key + rest, key, 0);
    assert KeyMatches(key + rest, key);
  }

  /** Partial match, trailing: key `general` excludes `team-general`. */
  lemma KeyAsSuffixExcludes(rest: string, key: string, keys: set<string>)
    requires key in keys
    ensures Excluded(rest + key, keys)
  {
    assert (rest + key)[|rest|..|rest| + |key|] == key;
    assert OccursAt(rest + key, key, |rest|);
    assert KeyMatches(rest + key, key);
  }

  /** A key longer than the channel cannot match it: key `general` leaves `random` alone. */
  lemma LongerKeyNeverMatches(channel: string, key: string)
    requires |key| > |channel|
    ensures !KeyMatches(channel, key)
  {
  }

  /** A stored empty key excludes every channel, since every string includes the empty string. */
  lemma EmptyKeyExcludesAll(channel: string, keys: set<string>)
    requires "" in keys
    ensures Excluded(channel, keys)
  {
    assert OccursAt(channel, "", 0);
    assert KeyMatches(channel, "");
  }

  /** What the policy wants on the input surface for a resolved, non-empty channel. */
  datatype Decision = Paint(color: string) | Clear

  ghost function Decide(channel: string, s: Settings): Decision {
    if Excluded(channel, ExclusionMap(s).Keys) then Clear else Paint(DefaultColor(s))
  }

  /**
   * The elements after the callback ran for `channel`: only the input surface
   * can change; it is decorated when the channel is not excluded, and its mark
   * is removed when the channel is excluded and the surface is colorized.
   */
  ghost function ApplySettings(marks: seq<Element>, input: Option<nat>, channel: string, s: Settings): (r: seq<Element>)
    requires input.Some? ==> input.value < |marks|
    ensures |r| == |marks|
    ensures forall k :: 0 <= k < |marks| && input != Some(k) ==> r[k] == marks[k]
    ensures input.Some? && Decide(channel, s).Paint? ==>
      var e := r[input.value];
      && Colorized(e) && GetAttribute(e, ChannelIdAttr) == Some(channel)
      && BackgroundColor in e.style && e.style[BackgroundColor] == Declaration(DefaultColor(s), true)
      && (DarkTheme in e.classes <==> IsColorDark(DefaultColor(s)))
    ensures input.Some? && Decide(channel, s).Clear? ==>
      r[input.value] == if Colorized(marks[input.value]) then Strip(marks[input.value]) else marks[input.value]
  {
    match input
    case None => marks
    case Some(i) =>
      match Decide(channel, s)
      case Paint(color) => marks[i := Decorate(marks[i], color, channel, IsColorDark(color))]
      case Clear => if Colorized(marks[i]) then marks[i := Strip(marks[i])] else marks
  }

  /** A second run of the callback with the same channel and settings changes nothing more. */
  lemma ApplySettingsIdempotent(marks: seq<Element>, input: Option<nat>, channel: string, s: Settings)
    requires input.Some? ==> input.value < |marks|
    ensures ApplySettings(ApplySettings(marks, input, channel, s), input, channel, s) == ApplySettings(marks, input, channel, s)
  {
    var r := ApplySettings(marks, input, channel, s);
    if input.Some? {
      var i := input.value;
      match Decide(channel, s)
      case Paint(color) =>
        DecorateIdempotent(marks[i], color, channel, IsColorDark(color));
        RepaintSame(marks, i, Decorate(marks[i], color, channel, IsColorDark(color)), Decorate(r[i], color, channel, IsColorDark(color)));
      case Clear =>
        assert !Colorized(r[i]);
    }
  }

  lemma RepaintSame(marks: seq<Element>, i: nat, e: Element, e': Element)
    requires i < |marks| && e' == e
    ensures marks[i := e][i := e'] == marks[i := e]
  {
  }

  /** The storage callback, with the settings it receives and the channel captured before the read. */
  method ApplyStoredColors(doc: Document, channel: string, s: Settings)
    requires doc.Valid()
    modifies doc.elements
    ensures doc.elements[..] == ApplySettings(old(doc.elements[..]), doc.input, channel, s)
  {
    var channelColors := ExclusionMap(s);
    var defaultColor := DefaultColor(s);
    var isExcludedChannel := IsExcludedChannel(channel, channelColors);
    if !isExcludedChannel {
      if doc.input.Some? {
        var i := doc.input.value;
        doc.elements[i] := Decorate(doc.elements[i], defaultColor, channel, IsColorDark(defaultColor));
      }
    } else {
      if doc.input.Some? && Colorized(doc.elements[doc.input.value]) {
        var i := doc.input.value;
        doc.elements[i] := Strip(doc.elements[i]);
      }
    }
  }
}
