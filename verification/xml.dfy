/**
 * The parsed introspection documents the walk reads, in the shape the DOM
 * presents them. Parsing itself is not modelled: every document arrives as
 * the list of child nodes of its root `<node>` element.
 */
module Xml {

  /**
   * A DOM node. For an element, `introspected` holds what the service answers
   * when the object path this element names is introspected: the child nodes
   * of the root of that document. Only a `<node>` element directly under the
   * root is ever introspected, so for every other element the field is unused.
   * Because the answers are nested values, the object tree is finite.
   */
  datatype XmlNode =
    | Element(tagName: string, attributes: map<string, string>, childNodes: seq<XmlNode>, introspected: seq<XmlNode>)
    | Text(data: string)
    | Comment(data: string)

  /** `nodeName`: the tag of an element, a `#`-name for any other node. */
  function NodeName(x: XmlNode): string {
    match x
    case Element(tag, _, _, _) => tag
    case Text(_) => "#text"
    case Comment(_) => "#comment"
  }

  /** `childNodes`: text and comment nodes have none. */
  function ChildNodes(x: XmlNode): seq<XmlNode> {
    if x.Element? then x.childNodes else []
  }

  /** `getAttribute(name)`: a missing attribute reads as the empty string. */
  function GetAttribute(x: XmlNode, name: string): (r: string)
    ensures x.Element? && name in x.attributes ==> r == x.attributes[name]
    ensures !(x.Element? && name in x.attributes) ==> r == ""
  {
    if x.Element? && name in x.attributes then x.attributes[name] else ""
  }

  /** `[x for x in xs if x.nodeType == 1]`: the element nodes, in document order. */
  function Elements(xs: seq<XmlNode>): (r: seq<XmlNode>)
    ensures forall x :: x in r ==> x.Element? && x in xs
    ensures forall x :: x in xs && x.Element? ==> x in r
    ensures |r| <= |xs|
  {
    if xs == [] then []
    else
      var last := xs[|xs| - 1];
      assert xs == xs[..|xs| - 1] + [last];
      Elements(xs[..|xs| - 1]) + (if last.Element? then [last] else [])
  }

  /** Filtering keeps document order: it distributes over concatenation. */
  lemma {:induction false} ElementsAppend(a: seq<XmlNode>, b: seq<XmlNode>)
    ensures Elements(a + b) == Elements(a) + Elements(b)
  {
    if b == [] {
      assert a + b == a;
    } else {
      var init := b[..|b| - 1];
      assert (a + b)[..|a + b| - 1] == a + init;
      assert (a + b)[|a + b| - 1] == b[|b| - 1];
      ElementsAppend(a, init);
    }
  }
}
