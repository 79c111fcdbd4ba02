/**
 * The part of the host page the content script touches.  An element is its
 * inline style, its attributes and its class list; the page is the navigation
 * address, the text that each fixed selector finds, the array of elements, and
 * which of them (if any) is the message-input surface `.p-message_pane_input`.
 */
module Dom {
  import opened Optional

  /** One inline style declaration: a value and whether it was set `!important`. */
  datatype Declaration = Declaration(value: string, important: bool)

  datatype Element = Element(style: map<string, Declaration>, attrs: map<string, string>, classes: set<string>)

  const BackgroundColor: string := "background-color"
  const ColorizedAttr: string := "data-colorized"
  const ChannelIdAttr: string := "data-channel-id"
  const DarkTheme: string := "dark-theme"

  /** `el.getAttribute(name)`, with `null` as `None`. */
  function GetAttribute(e: Element, name: string): (r: Option<string>)
    ensures r.Some? <==> name in e.attrs
    ensures r.Some? ==> r.value == e.attrs[name]
  {
    if name in e.attrs then Some(e.attrs[name]) else None
  }

  /** Matched by the selector `[data-colorized="true"]`. */
  predicate Colorized(e: Element) {
    GetAttribute(e, ColorizedAttr) == Some("true")
  }

  /** Carries none of the four parts of a decoration mark. */
  predicate Unmarked(e: Element) {
    BackgroundColor !in e.style && ColorizedAttr !in e.attrs && ChannelIdAttr !in e.attrs && DarkTheme !in e.classes
  }

  /**
   * Removes the background override, both marker attributes and the
   * `dark-theme` class, and nothing else.
   */
  function Strip(e: Element): (r: Element)
    ensures Unmarked(r) && !Colorized(r)
    ensures forall p :: p in e.style && p != BackgroundColor ==> p in r.style && r.style[p] == e.style[p]
    ensures forall p :: p in r.style ==> p in e.style
    ensures forall a :: a in e.attrs && a != ColorizedAttr && a != ChannelIdAttr ==> a in r.attrs && r.attrs[a] == e.attrs[a]
    ensures forall a :: a in r.attrs ==> a in e.attrs
    ensures r.classes == e.classes - {DarkTheme}
  {
    Element(e.style - {BackgroundColor}, e.attrs - {ColorizedAttr, ChannelIdAttr}, e.classes - {DarkTheme})
  }

  /**
   * Sets the background to `color` with priority `important`, marks the element
   * as colorized for `channel`, and adds or removes `dark-theme` by `dark`.
   */
  function Decorate(e: Element, color: string, channel: string, dark: bool): (r: Element)
    ensures Colorized(r) && GetAttribute(r, ChannelIdAttr) == Some(channel)
    ensures BackgroundColor in r.style && r.style[BackgroundColor] == Declaration(color, true)
    ensures (DarkTheme in r.classes) == dark
    ensures forall p :: p in e.style && p != BackgroundColor ==> p in r.style && r.style[p] == e.style[p]
    ensures forall p :: p in r.style ==> p in e.style || p == BackgroundColor
    ensures forall a :: a in e.attrs && a != ColorizedAttr && a != ChannelIdAttr ==> a in r.attrs && r.attrs[a] == e.attrs[a]
    ensures forall a :: a in r.attrs ==> a in e.attrs || a == ColorizedAttr || a == ChannelIdAttr
    ensures r.classes - {DarkTheme} == e.classes - {DarkTheme}
  {
    Element(e.style[BackgroundColor := Declaration(color, true)],
            e.attrs[ColorizedAttr := "true"][ChannelIdAttr := channel],
            if dark then e.classes + {DarkTheme} else e.classes - {DarkTheme})
  }

  lemma StripIdempotent(e: Element)
    ensures Strip(Strip(e)) == Strip(e)
  {
  }

  lemma DecorateIdempotent(e: Element, color: string, channel: string, dark: bool)
    ensures Decorate(Decorate(e, color, channel, dark), color, channel, dark) == Decorate(e, color, channel, dark)
  {
  }

  /**
   * The page as the content script sees it.  `query` maps each selector string
   * to the `textContent` of the first element it finds; a selector that finds
   * nothing is not a key.  `input` is the index in `elements` of the
   * message-input surface, if the host has rendered it.
   */
  class Document {
    var href: string
    var query: map<string, string>
    const elements: array<Element>
    var input: Option<nat>

    ghost predicate Valid()
      reads this
    {
      input.Some? ==> input.value < elements.Length
    }

    constructor (href: string, query: map<string, string>, elements: seq<Element>, input: Option<nat>)
      requires input.Some? ==> input.value < |elements|
      ensures Valid()
      ensures this.href == href && this.query == query && this.input == input
      ensures this.elements[..] == elements && fresh(this.elements)
    {
      this.href := href;
      this.query := query;
      this.input := input;
      this.elements := new Element[|elements|](i requires 0 <= i < |elements| => elements[i]);
    }
  }
}
