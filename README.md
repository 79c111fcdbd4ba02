# Slack Channel Colorizer: channel detection and colorization

This project models the content script of the Slack Channel Colorizer browser
extension. On every trigger the script does four things, in order:

1. It resolves which channel is on screen. It tries the Slack client address
   `app.slack.com/client/<workspace>/C<ID>` first, then six DOM selectors in a
   fixed order, then the last path segment of the address.
2. It reconciles that channel with the one it last decorated for. When the
   tracked channel changes, it strips every `data-colorized="true"` mark that
   belongs to another channel.
3. It checks the channel against the user's exclusion map. A key excludes a
   channel when it equals the channel or occurs inside it.
4. It decorates or clears the message-input surface `.p-message_pane_input`.
   Decorating sets an important background colour, the owner attributes and a
   `dark-theme` class chosen by BT.601 luma.

The address-poll step that decides whether to re-run the pipeline is modelled
as well.

Modules:
- `JsText`: the ECMAScript built-ins the script uses. These are `trim`,
  `includes`, `replace` with a one-character pattern, `substr`, and
  `parseInt(…, 16)`, whose steps are spelled out (white space, sign,
  `0x` prefix, longest run of hex digits, `NaN` as `None`).
- `Dom`: elements as inline style, attributes and class list, plus the
  `Document` class. The page holds the address, the text each selector
  finds, an array of elements, and the index of the message input.
- `ChannelResolver`: the three strategies as functions, with declarative
  partners for both regular expressions, and the `getCurrentChannel` loop as a
  method proved equal to them.
- `ColorizationTracker`: the reconciliation, as a specification function, and
  the in-place `forEach` pass over `[data-colorized="true"]` as the loop
  method `StripStaleMarks`, proved to produce it.
- `Luminance`: `isColorDark`.
- `ColorPolicy`: the settings defaults, the exclusion scan as a loop method,
  and the decoration callback as a method proved equal to a specification
  function.
- `ContentScript`: the `Colorizer` class. Its fields hold the script globals
  `currentlyColorizedId` and `lastUrl`. Its methods are
  `removeOtherColorizations`, `applyColors` and the comparison in
  `checkURLChange`. The module also defines the whole pipeline as a
  specification function and proves its invariants.

Facts about the code that the model keeps:
- A tracked `""` never triggers stripping, because the test at content.js:59
  is JavaScript truthiness.
- A resolved `""` stops `applyColors` after reconciliation, as a resolved
  `null` does (content.js:94).
- At most one live decoration: a run never colorizes anything but the message
  input, so a page whose only colorized element is the input keeps that
  property (`ContentScript.PipelineOnlyInputColorized`). Together with the
  consistency property `MarksConsistent` (every colorized element is owned by
  the tracked channel, every other element carries no part of a mark), this
  means at most one decoration, owned by the tracked channel. From such a page,
  every run keeps `MarksConsistent`.

## Model

| member | source | states |
|---|---|---|
| `JsText.Trim` | content.js:34 | the result is the slice of the text between its leading and trailing white space; it is empty exactly when the text is all white space |
| `JsText.Includes` | content.js:109 | true exactly when the key occurs at some index of the channel (the empty key occurs everywhere) |
| `JsText.RemoveFirst` | content.js:78 | removes only the first `#`; a string without `#` is unchanged |
| `JsText.Substr` | content.js:79-81 | at most `len` characters from `start`, empty when `start` is past the end |
| `JsText.HexPrefix` | content.js:79-81 | the longest prefix of hex digits that `parseInt` reads |
| `JsText.ParseIntHex` | content.js:79-81 | defined as `parseInt(s, 16)`: skip leading white space, take one sign, drop a `0x`/`0X` prefix, read the longest run of hex digits; `NaN` (none) when that run is empty; its meaning is stated by `Luminance.ParseTwoDigits` and `Luminance.ParseOneDigit` |
| `ChannelResolver.MatchAppAt` | content.js:14-16 | the client pattern matches at a position exactly when a well-formed occurrence starts there, and then the capture is the `C…` token ending where `[A-Z0-9]+` stops |
| `ChannelResolver.MatchAppAtUnique` | content.js:14 | at a given start the greedy workspace and ID runs leave only one way to match |
| `ChannelResolver.FindApp` | content.js:14-15 | the result is the capture at the leftmost matching position, or none when no position matches |
| `ChannelResolver.AppChannel` | content.js:14-19 | defined as the leftmost-match search from position 0: strategy 1 |
| `ChannelResolver.TrailingSegment` | content.js:41 | the longest slash-free suffix of the address, preceded by `/` when shorter than the address |
| `ChannelResolver.LastSegment` | content.js:41-45 | the non-empty, slash-free text after the last `/`; none exactly when the address is empty, ends in `/` or has no `/` |
| `ChannelResolver.ScanSelectors` | content.js:31-38 | the trimmed text of the first selector whose element has non-empty text; none exactly when no selector has text |
| `ChannelResolver.Resolve` | content.js:11-53 | defined as `getCurrentChannel` as a function: strategy 1 if it yields, else strategy 2 if any selector has text, else strategy 3 |
| `ChannelResolver.GetCurrentChannel` | content.js:11-53 | the early-return loop over the selector list returns what the three strategies in order return |
| `ChannelResolver.UrlStrategyFirst` | content.js:14-19 | when the client pattern occurs, the result is the capture at the first matching position (at or before the given one), whatever the page shows |
| `ChannelResolver.AppChannelShape` | content.js:14-19 | a strategy-1 token is `C` followed by one or more `[A-Z0-9]`, so never empty |
| `ChannelResolver.NoAppUrl` | content.js:14-16 | with no occurrence of the pattern, strategy 1 yields nothing |
| `ChannelResolver.ScanFirst` | content.js:31-38 | in any selector list the first selector with text decides the scan |
| `ChannelResolver.SelectorStrategy` | content.js:22-38 | without a client address, the first selector in the fixed order with text gives the result, trimmed and possibly empty |
| `ChannelResolver.LaterSelectorsIgnored` | content.js:31-38 | selectors after the first one with text are never consulted: pages agreeing up to it resolve alike |
| `ChannelResolver.FallbackStrategy` | content.js:40-48 | with no address match and no selector text the result is the last path segment, and none when the address ends in `/` |
| `ChannelResolver.EmptyOnlyFromBlankText` | content.js:16-45 | the empty label comes only from strategy 2, from selector text that is all white space |
| `ChannelResolver.NoMatchWithoutA` | content.js:14 | the pattern cannot start where the address has no `a` |
| `ChannelResolver.AppChannelAtFirstMatch` | content.js:14-15 | strategy 1 yields the capture at the first matching position |
| `ChannelResolver.ClientAddressShape` | content.js:14 | `<scheme>app.slack.com/client/<workspace>/C<ID>` matches after the scheme with capture `C<ID>` |
| `ChannelResolver.ResolvesClientAddress` | content.js:14-19 | such an address whose scheme has no `a` resolves to `C<ID>` for every page |
| `ChannelResolver.HttpsAddressResolves` | content.js:14-19 | `https://app.slack.com/client/<workspace>/C<ID>` resolves to `C<ID>` whatever the page shows |
| `Luminance.ParseTwoDigits` | content.js:79-81 | `parseInt` of two hex digits is their hexadecimal value |
| `Luminance.ParseOneDigit` | content.js:81 | `parseInt` of one hex digit is that digit |
| `Luminance.HexValueTwo` | content.js:79-81 | two hex digits read most significant first |
| `Luminance.Channels` | content.js:78-81 | defined as the three fields `parseInt(hex.substr(0/2/4, 2), 16)` after removing the first `#` |
| `Luminance.IsColorDark` | content.js:77-84 | defined as luma below 128000 when all three fields parse, false when any is `NaN`; its meaning is stated by `Luminance.DarkWellFormed` and the colour lemmas below |
| `Luminance.Field` | content.js:79-81 | a field of two hex digits is below 256 |
| `Luminance.FieldParsed` | content.js:78-81 | the field at each offset is what `parseInt(hex.substr(…, 2), 16)` reads |
| `Luminance.FieldDigits` | content.js:79-81 | a field is 16 times its first digit plus its second |
| `Luminance.DarkWellFormed` | content.js:77-84 | for `#RRGGBB`, dark exactly when 299·R + 587·G + 114·B < 128000 |
| `Luminance.DarkByDigits` | content.js:77-84 | the same test written over the six digits |
| `Luminance.BlackIsDark` | content.js:77-84 | `#000000` is dark |
| `Luminance.WhiteIsLight` | content.js:77-84 | `#ffffff` is not dark |
| `Luminance.FallbackIsLight` | content.js:77-84 | `#f2f2f2` (luma 242) is not dark |
| `Luminance.BoundaryIsLight` | content.js:83 | `#01bd93` has luma exactly 128 and is not dark |
| `Luminance.BelowBoundaryIsDark` | content.js:83 | `#01bd92`, just under 128, is dark |
| `Luminance.ShortColorIsLight` | content.js:78-83 | a colour with at most four characters after the `#` (such as `#fff`) has a `NaN` blue field, so it is never dark |
| `Luminance.FiveDigitColor` | content.js:78-83 | a colour of five hex digits (such as `#00000`) reads its blue field from the single last digit |
| `Dom.Strip` | content.js:65-68 | removes the background override, both marker attributes and `dark-theme`, and keeps every other style, attribute and class |
| `Dom.Decorate` | content.js:121-130 | an important background of the colour, colorized for the channel, `dark-theme` exactly when dark, every other style, attribute and class kept and nothing else added |
| `Dom.StripIdempotent` | content.js:65-68 | stripping twice is stripping once |
| `Dom.DecorateIdempotent` | content.js:121-130 | decorating twice with the same arguments is decorating once |
| `Dom.Document.constructor` | content.js:119 | the page holds the given address (`location.href`), selector texts, elements and message-input slot |
| `ColorizationTracker.StripStaleMarks` | content.js:62-70 | the in-place pass leaves each element stripped when stale and untouched otherwise |
| `ColorizationTracker.ChannelChanged` | content.js:59 | defined as a truthy tracked label that differs from the resolved channel |
| `ColorizationTracker.Stale` | content.js:62-64 | defined as an element selected by `[data-colorized="true"]` whose `data-channel-id` is not the resolved channel |
| `ColorizationTracker.StripIfStale` | content.js:63-69 | defined as a stale element stripped, any other element kept |
| `ColorizationTracker.ReconcileByElement` | content.js:59-70 | after a change, reconciliation is exactly the element-by-element pass |
| `ColorizationTracker.ReconcileAddsNoColorization` | content.js:59-70 | reconciliation only removes marks: an element colorized afterwards was colorized before |
| `ColorizationTracker.Reconcile` | content.js:59-70 | no element changes unless a non-empty tracked label differs from the resolved one; then no stale mark remains, each stale element is stripped, and unmarked elements and those owned by the current channel are untouched |
| `ColorizationTracker.ReconcileIdempotent` | content.js:59-73 | once the tracker holds the current label, reconciling again changes nothing |
| `ColorPolicy.DefaultColor` | content.js:102 | a stored non-empty default colour is used, and an absent or empty one gives `#f2f2f2`; never empty |
| `ColorPolicy.ExclusionMap` | content.js:101 | defined as `data.channelColors || {}`: the stored map, or the empty map when none is stored |
| `ColorPolicy.IsExcludedChannel` | content.js:105-114 | the scan with early exit is true exactly when some key equals or occurs in the channel |
| `ColorPolicy.KeyMatchesIsContainment` | content.js:109 | the equality test adds nothing to the containment test |
| `ColorPolicy.KeyAsPrefixExcludes` | content.js:108-113 | a key excludes every channel that starts with it (`general` excludes `general-team`) |
| `ColorPolicy.KeyAsSuffixExcludes` | content.js:108-113 | a key excludes every channel that ends with it (`general` excludes `team-general`) |
| `ColorPolicy.LongerKeyNeverMatches` | content.js:109 | a key longer than the channel never matches it (`general` leaves `random` alone) |
| `ColorPolicy.EmptyKeyExcludesAll` | content.js:109 | a stored empty key excludes every channel |
| `ColorPolicy.ApplySettings` | content.js:101-144 | only the input surface changes; it is decorated with the default colour and luminance class when the channel is not excluded; when excluded it is stripped if colorized and left alone otherwise; an absent input changes nothing |
| `ColorPolicy.Decide` | content.js:105-144 | defined as clear when the channel is excluded, otherwise paint with the default colour |
| `ColorPolicy.ApplySettingsIdempotent` | content.js:101-144 | a second run of the callback with the same channel and settings changes nothing |
| `ColorPolicy.ApplyStoredColors` | content.js:100-145 | the callback leaves the elements as the specification function says |
| `ContentScript.Colorizer.constructor` | content.js:2-3 | nothing tracked at script start; `lastUrl` is the address at load |
| `ContentScript.Colorizer.RemoveOtherColorizations` | content.js:56-74 | the tracker ends holding the resolved channel and the elements are the reconciliation of the old ones |
| `ContentScript.Colorizer.ApplyColors` | content.js:87-149 | tracker and elements end as the pipeline specification says |
| `ContentScript.Colorizer.CheckUrlChange` | content.js:152-157 | `lastUrl` ends as the current address, and a re-apply is requested exactly when it moved |
| `ContentScript.Pipeline` | content.js:87-149 | defined as one `applyColors` run: the tracker becomes the resolved channel, the page is reconciled, and the callback runs only for a truthy channel |
| `ContentScript.PipelineTracksResolved` | content.js:73 | after a run the tracker holds the resolved channel, and no element is added or lost |
| `ContentScript.NullChannelStopsAfterReconcile` | content.js:91-97 | with no usable channel nothing beyond reconciliation happens |
| `ContentScript.DecoratesNonExcluded` | content.js:117-133 | a non-excluded channel leaves the input colorized for it with the default colour, important, and `dark-theme` exactly when that colour is dark |
| `ContentScript.OnlyInputDecorated` | content.js:119-143 | every element other than the input is as reconciliation left it |
| `ContentScript.PipelineOnlyInputColorized` | content.js:87-149 | at most one live decoration: if before a run only the input may be colorized, the same holds after it |
| `ContentScript.ReconcileKeepsMarksConsistent` | content.js:56-74 | reconciliation hands a consistent page over to the newly resolved channel |
| `ContentScript.PipelineKeepsMarksConsistent` | content.js:87-149 | from a consistent page a run leads to a consistent page: every colorized element is owned by the tracked non-empty channel, the rest carry no mark |
| `ContentScript.ClearLeavesSurfaceBare` | content.js:91-144 | when the policy clears (no channel, or an excluded one) a consistent page ends with no background override, no `dark-theme` and neither marker attribute on the input |
| `ContentScript.SwitchRemovesOldMarks` | content.js:59-70 | switching away from channel A leaves no element colorized for A after the same run |
| `ContentScript.PipelineIdempotent` | content.js:87-149 | running the pipeline twice on an unchanged page and settings equals running it once |
| `ContentScript.EndToEndClientAddress` | content.js:87-149 | on `https://app.slack.com/client/<workspace>/C<ID>` with no matching exclusion and default `#f2f2f2`, the input ends colorized for `C<ID>`, background `#f2f2f2` important, no `dark-theme` |

## Left out

- Storage and events: `chrome.storage.sync.get` and `chrome.storage.onChanged` are replaced by a `Settings` parameter, so the callback runs synchronously. The same goes for the `load` and `click` listeners and every `setTimeout` (content.js:100, 156-181). These are asynchronous host plumbing; the out-of-order storage race is a concurrency matter.
- CSS selector matching and `closest()` are host DOM calls. The page is instead a map from the six selector strings to the text of the element each one finds.
- CSS value parsing: `style.setProperty` silently ignores a colour the CSS parser rejects, but the model records the colour string as given.
- The two regular expressions are written as hand-made matchers over strings, not a general regular-expression engine.
- Division: `/ 1000 < 128` is compared as `< 128000`. For the integer sums that arise (three fields of at most two hex digits) the two agree.
- Exceptions: the `try`/`catch` blocks (content.js:12, 49-52, 88, 146-148) serve only logging. Nothing in the modelled code throws on string inputs. A non-string stored value, which would make `replace` throw inside the callback, is outside the `Settings` type.
- Logging: `debugLog` and `console.log`/`console.error`.
- Strings: characters are Unicode scalar values rather than UTF-16 code units.
- Key order: the exclusion scan visits keys in an arbitrary order, not JavaScript property order. Only the boolean outcome is used, so order cannot matter.
- Element identity: a DOM node is an array slot, and the message input is one slot's index. Nodes the host inserts or removes between runs are not modelled; each run sees the array it is given.
- `ContentScript.Colorizer.CheckUrlChange`: only the comparison and update of `lastUrl` are modelled, not the rescheduling of the poll or the delayed `applyColors`.
- `ContentScript.PipelineKeepsMarksConsistent` and `ContentScript.ClearLeavesSurfaceBare`: both assume the run starts from a `MarksConsistent` page. On such a page, elements that are not colorized carry no inline `background-color`, no `dark-theme` class and no marker attribute. Nothing at script start (content.js:2) makes a host page so, and a page whose own styling sets a background on some element is never consistent. For such pages the model states only the per-run facts (`ContentScript.SwitchRemovesOldMarks`, `ContentScript.OnlyInputDecorated`).
- `ContentScript.PipelineOnlyInputColorized`: fixes one message-input slot across runs. If the host replaces the `.p-message_pane_input` node between runs while the channel stays the same, the code keeps the old node's mark, because the check at content.js:59 does not fire and content.js:119 finds only the new node. Each run of the model sees one array and one input index, so it cannot express that case.
- popup.js (the settings form) is not part of this model.
