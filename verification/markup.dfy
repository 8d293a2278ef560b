/**
 * The parsed markup tree that the splitter walks, the fixed set of block
 * tags, and the serialisation of nodes and tags.  The tree stands in for
 * the output of the HTML parser; `Serialize` stands in for the parser
 * library's own rendering of an element (no escaping, no void elements).
 */
module Markup {

  /** A node of the parsed document: a run of text or an element with its
      attributes (in insertion order) and its children (in document order). */
  datatype Node =
    | Text(content: string)
    | Element(name: string, attrs: seq<(string, string)>, children: seq<Node>)

  /** The tags whose content may be divided between fragments. */
  const BLOCK_TAGS: set<string> := {"p", "b", "strong", "i", "ul", "ol", "div", "span"}

  /** The length of the longest end tag of a block tag, `</strong>`. */
  const LONGEST_BLOCK_END_TAG: nat := 9

  predicate IsBlock(name: string) {
    name in BLOCK_TAGS
  }

  /** The attributes of a start tag, each as ` k="v"`, in insertion order.
      Each attribute adds at least its space, `=` and two quotes, and a
      start tag with attributes has a space right after its name. */
  function AttrText(attrs: seq<(string, string)>): (r: string)
    ensures r == "" <==> attrs == []
    ensures |r| >= 4 * |attrs|
    ensures attrs != [] ==> r[0] == ' '
  {
    if attrs == [] then ""
    else " " + attrs[0].0 + "=\"" + attrs[0].1 + "\"" + AttrText(attrs[1..])
  }

  function StartTag(name: string, attrs: seq<(string, string)>): (r: string)
    ensures |r| >= |name| + 2
    ensures attrs == [] ==> |r| == |name| + 2
  {
    "<" + name + AttrText(attrs) + ">"
  }

  function EndTag(name: string): (r: string)
    ensures |r| == |name| + 3
  {
    "</" + name + ">"
  }

  /** Every block tag's end tag is at most `LONGEST_BLOCK_END_TAG` long. */
  lemma BlockEndTagBound(name: string)
    requires IsBlock(name)
    ensures |EndTag(name)| <= LONGEST_BLOCK_END_TAG
  {
  }

  /** The markup of a whole subtree: an element's markup begins with its
      start tag, attributes included, and ends with its end tag. */
  function Serialize(node: Node): (r: string)
    ensures node.Element? ==> StartTag(node.name, node.attrs) <= r
    ensures node.Element? ==> |r| >= |StartTag(node.name, node.attrs)| + |EndTag(node.name)|
                              && r[|r| - |EndTag(node.name)|..] == EndTag(node.name)
    decreases node
  {
    match node
    case Text(s) => s
    case Element(name, attrs, children) =>
      StartTag(name, attrs) + SerializeAll(children) + EndTag(name)
  }

  /** The markup of a sequence of sibling subtrees, in order: no siblings
      give no markup, and a single child's markup is its own. */
  function SerializeAll(nodes: seq<Node>): (r: string)
    ensures nodes == [] ==> r == ""
    ensures |nodes| == 1 ==> r == Serialize(nodes[0])
    decreases nodes
  {
    if nodes == [] then "" else Serialize(nodes[0]) + SerializeAll(nodes[1..])
  }

  /** The close tags of the open elements, innermost (last pushed) first:
      what ends a fragment validly in the middle of those elements. */
  function Closing(stack: seq<string>): (r: string)
    ensures |r| == |Opening(stack)| + |stack|
  {
    if stack == [] then ""
    else EndTag(stack[|stack| - 1]) + Closing(stack[..|stack| - 1])
  }

  /** The start tags, without attributes, of the open elements, outermost
      first: what a new fragment begins with to resume the same nesting.
      Each open element contributes at least its `<` and `>`. */
  function Opening(stack: seq<string>): (r: string)
    ensures |r| >= 2 * |stack|
  {
    if stack == [] then ""
    else Opening(stack[..|stack| - 1]) + StartTag(stack[|stack| - 1], [])
  }

  /** The open elements as a chain of attribute-free elements around `inner`,
      the outermost first. */
  function Nest(stack: seq<string>, inner: Node): Node {
    if stack == [] then inner
    else Nest(stack[..|stack| - 1], Element(stack[|stack| - 1], [], [inner]))
  }

  /** The reopening prefix and the closing suffix balance: around any inner
      markup they are exactly the start and end tags of the chain of open
      elements. A stretch of markup that is itself well nested therefore
      stays well nested once the boundary markup is put around it. */
  lemma {:induction false} BoundaryMarkupIsBalanced(stack: seq<string>, inner: Node)
    ensures Serialize(Nest(stack, inner)) == Opening(stack) + Serialize(inner) + Closing(stack)
    decreases |stack|
  {
    if stack != [] {
      var init, last := stack[..|stack| - 1], stack[|stack| - 1];
      var wrapped := Element(last, [], [inner]);
      BoundaryMarkupIsBalanced(init, wrapped);
      assert Serialize(wrapped) == StartTag(last, []) + Serialize(inner) + EndTag(last);
      var a, b, c, d, e := Opening(init), StartTag(last, []), Serialize(inner), EndTag(last), Closing(init);
      Assoc(a, b + c, d);
      Assoc(a, b, c);
      Assoc(a + b + c, d, e);
    }
  }

  /** Solver helper: string concatenation is associative. */
  lemma Assoc(a: string, b: string, c: string)
    ensures (a + b) + c == a + (b + c)
  {
  }

  /** Pushing a tag adds its attribute-free start tag at the end of the
      reopening prefix and its end tag at the front of the closing suffix. */
  lemma PushTag(stack: seq<string>, name: string)
    ensures Opening(stack + [name]) == Opening(stack) + StartTag(name, [])
    ensures Closing(stack + [name]) == EndTag(name) + Closing(stack)
  {
    assert (stack + [name])[..|stack|] == stack;
  }
}
