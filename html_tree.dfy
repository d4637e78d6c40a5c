/**
 * The parsed markup both EPUB processors work on. A node is an element (tag, attributes,
 * identity, contents) or a run of character data, so an lxml element's `text` is the
 * character data before its first child element and its `tail` the character data after it in
 * its parent's contents.
 */
module HtmlTree {
  import opened Strings

  /** An attribute: its name and value. */
  datatype Attr = Attr(name: string, value: string)

  /** An element, whose `id` stands for the object's identity, or character data. */
  datatype Node =
    | Element(tag: string, attrs: seq<Attr>, id: nat, children: seq<Node>)
    | Text(s: string)

  /** All character data under `n` in document order, unstripped (lxml's `text_content()`). */
  function TextContent(n: Node): string
  {
    match n
    case Text(s) => s
    case Element(_, _, _, children) => TextContentList(children)
  }

  function TextContentList(cs: seq<Node>): string
  {
    if cs == [] then "" else TextContent(cs[0]) + TextContentList(cs[1..])
  }

  /**
   * BeautifulSoup's `get_text(strip=True)`: each piece of character data stripped on its own,
   * the empty ones dropped, and the rest concatenated without a separator.
   */
  function StrippedText(n: Node): string
  {
    match n
    case Text(s) => Strip(s)
    case Element(_, _, _, children) => StrippedTextList(children)
  }

  function StrippedTextList(cs: seq<Node>): string
  {
    if cs == [] then "" else StrippedText(cs[0]) + StrippedTextList(cs[1..])
  }

  /** The identities of every element in the given contents, at any depth. */
  function AllIds(cs: seq<Node>): set<nat>
  {
    if cs == [] then {}
    else (if cs[0].Element? then {cs[0].id} + AllIds(cs[0].children) else {}) + AllIds(cs[1..])
  }
}
