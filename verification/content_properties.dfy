/**
 * The walk neither drops nor repeats content: what a successful walk emits
 * is the markup of the nodes it walked, in document order, with nothing
 * inserted but boundaries (the closing tags of the open elements followed
 * by their reopening prefix).  Removing those boundaries gives back the
 * document's markup.
 */
module ContentProperties {
  import opened Markup
  import opened Segmenter
  import opened TextProperties

  /** Helper: both views of the spans distribute over concatenation. */
  lemma {:induction false} JoinSpans(a: seq<Span>, b: seq<Span>)
    ensures Woven(a + b) == Woven(a) + Woven(b)
    ensures Plain(a + b) == Plain(a) + Plain(b)
    decreases |a|
  {
    if a != [] {
      assert (a + b)[0] == a[0] && (a + b)[1..] == a[1..] + b;
      JoinSpans(a[1..], b);
      Assoc(Boundary(a[0]) + a[0].text, Woven(a[1..]), Woven(b));
      Assoc(a[0].text, Plain(a[1..]), Plain(b));
    } else {
      assert a + b == b;
    }
  }

  /** Solver helper: the views of a single span. */
  lemma OneSpan(span: Span)
    ensures Woven([span]) == Boundary(span) + span.text
    ensures Plain([span]) == span.text
  {
    assert [span][1..] == [];
  }

  /** The walk over one node emits the node's markup with only boundaries
      inserted. */
  lemma {:induction false} ProcessKeepsContent(maxLen: int, node: Node, st: State, out: State)
    returns (spans: seq<Span>)
    requires ProcessF(maxLen, node, st) == Ok(out)
    ensures Plain(spans) == Serialize(node)
    ensures Flat(out) == Flat(st) + Woven(spans)
    decreases node, 1
  {
    match node
    case Text(s) =>
      spans := TextKeepsEveryCharacter(maxLen, s, 0, st, out);
      assert s[0..] == s;
    case Element(name, attrs, children) =>
      if IsBlock(name) {
        spans := BlockKeepsContent(maxLen, node, st, out);
      } else {
        spans := NonBlockKeepsContent(maxLen, node, st, out);
      }
  }

  /** A block element: its start tag (after a boundary if the entry
      flushed), its children's spans, its end tag (followed by a boundary if
      the close flushed). */
  lemma {:induction false} BlockKeepsContent(maxLen: int, node: Node, st: State, out: State)
    returns (spans: seq<Span>)
    requires node.Element?
    requires BlockF(maxLen, node, st) == Ok(out)
    ensures Plain(spans) == Serialize(node)
    ensures Flat(out) == Flat(st) + Woven(spans)
    decreases node, 0
  {
    var entered := EnterF(maxLen, node, st).value;
    var entry := EnterKeepsContent(maxLen, node, st, entered);
    var inner := ChildrenF(maxLen, node.children, entered).value;
    var middle := ChildrenKeepContent(maxLen, node.children, entered, inner);
    assert out == CloseF(maxLen, node.name, inner);
    var closing := CloseKeepsContent(maxLen, node.name, inner);
    spans := [entry] + middle + closing;
    OneSpan(entry);
    JoinSpans([entry], middle);
    JoinSpans([entry] + middle, closing);
    Assoc(Flat(st) + Woven([entry]), Woven(middle), Woven(closing));
    Assoc(Flat(st), Woven([entry]), Woven(middle) + Woven(closing));
    Assoc(Woven([entry]), Woven(middle), Woven(closing));
  }

  /** Entering a block element emits its start tag, after a boundary of the
      elements open before it when the entry flushed. */
  lemma EnterKeepsContent(maxLen: int, node: Node, st: State, entered: State) returns (span: Span)
    requires node.Element?
    requires EnterF(maxLen, node, st) == Ok(entered)
    ensures span.text == StartTag(node.name, node.attrs)
    ensures span.open == st.openTags
    ensures span.cut <==> BlockNeed(st, StartTag(node.name, node.attrs), EndTag(node.name)) > maxLen
    ensures Flat(entered) == Flat(st) + Woven([span])
  {
    var start, end := StartTag(node.name, node.attrs), EndTag(node.name);
    var cut := BlockNeed(st, start, end) > maxLen;
    span := Span(cut, st.openTags, start);
    var ready := if cut then Flush(st) else st;
    assert entered == State(ready.current + start, st.openTags + [node.name], ready.fragments);
    Ready(st, cut, start);
    EmitSpan(st, ready, span, entered);
  }

  /** Closing a block element emits its end tag, followed by a boundary of
      the elements still open exactly when the close flushed (the end tag
      counted twice, as the source checks it). */
  lemma CloseKeepsContent(maxLen: int, name: string, st: State) returns (spans: seq<Span>)
    requires st.openTags != []
    ensures 1 <= |spans| <= 2 && !spans[0].cut && spans[0].text == EndTag(name)
    ensures |spans| == 2 <==> |st.current| + |EndTag(name)| + |Closing(st.openTags)| > maxLen
    ensures |spans| == 2 ==> spans[1] == Span(true, st.openTags[..|st.openTags| - 1], "")
    ensures Plain(spans) == EndTag(name)
    ensures Flat(CloseF(maxLen, name, st)) == Flat(st) + Woven(spans)
  {
    var outer := st.openTags[..|st.openTags| - 1];
    var end := EndTag(name);
    var closed := State(st.current + end, outer, st.fragments);
    var tail := Span(false, st.openTags, end);
    OneSpan(tail);
    Ready(st, false, end);
    EmitSpan(st, st, tail, closed);
    if |st.current| + |end| + |Closing(st.openTags)| > maxLen {
      assert CloseF(maxLen, name, st) == Flush(closed);
      var cut := Span(true, outer, "");
      Ready(closed, true, "");
      EmitSpan(closed, Flush(closed), cut, Flush(closed));
      OneSpan(cut);
      JoinSpans([tail], [cut]);
      spans := [tail] + [cut];
      Assoc(Flat(st), Woven([tail]), Woven([cut]));
    } else {
      assert CloseF(maxLen, name, st) == closed;
      spans := [tail];
    }
  }

  /** A non-block element emits its whole markup as one stretch, after a
      boundary of the open elements exactly when it did not fit in the
      buffer. */
  lemma NonBlockKeepsContent(maxLen: int, node: Node, st: State, out: State) returns (spans: seq<Span>)
    requires node.Element?
    requires NonBlockF(maxLen, node, st) == Ok(out)
    ensures |spans| == 1 && spans[0].text == Serialize(node) && spans[0].open == st.openTags
    ensures spans[0].cut <==> |st.current| + |Serialize(node)| + |Closing(st.openTags)| > maxLen
    ensures Plain(spans) == Serialize(node)
    ensures Flat(out) == Flat(st) + Woven(spans)
  {
    var full := Serialize(node);
    var cut := |st.current| + |full| + |Closing(st.openTags)| > maxLen;
    var span := Span(cut, st.openTags, full);
    var ready := if cut then Flush(st) else st;
    assert out == Append(ready, full);
    Ready(st, cut, full);
    EmitSpan(st, ready, span, out);
    OneSpan(span);
    spans := [span];
  }

  /** Solver helper: the state a step writes into, flushed or not, follows
      the output so far by the span's boundary. */
  lemma Ready(st: State, cut: bool, text: string)
    ensures Flat(if cut then Flush(st) else st) == Flat(st) + Boundary(Span(cut, st.openTags, text))
  {
    if cut {
      Assoc(Flat(st), Closing(st.openTags), Opening(st.openTags));
    } else {
      assert Flat(st) + "" == Flat(st);
    }
  }

  /** Solver helper: writing a span's text into the state that follows its
      boundary emits the span. */
  lemma EmitSpan(before: State, ready: State, span: Span, after: State)
    requires Flat(ready) == Flat(before) + Boundary(span)
    requires after.fragments == ready.fragments && after.current == ready.current + span.text
    ensures Flat(after) == Flat(before) + Woven([span])
  {
    OneSpan(span);
    Assoc(Concat(ready.fragments), ready.current, span.text);
    Assoc(Flat(before), Boundary(span), span.text);
  }

  /** The walk over siblings emits their markup, in order, with only
      boundaries inserted. */
  lemma {:induction false} ChildrenKeepContent(maxLen: int, nodes: seq<Node>, st: State, out: State)
    returns (spans: seq<Span>)
    requires ChildrenF(maxLen, nodes, st) == Ok(out)
    ensures Plain(spans) == SerializeAll(nodes)
    ensures Flat(out) == Flat(st) + Woven(spans)
    decreases nodes, 0
  {
    if nodes == [] {
      spans := [];
    } else {
      var mid := ProcessF(maxLen, nodes[0], st).value;
      var first := ProcessKeepsContent(maxLen, nodes[0], st, mid);
      var rest := ChildrenKeepContent(maxLen, nodes[1..], mid, out);
      spans := first + rest;
      JoinSpans(first, rest);
      Assoc(Flat(st), Woven(first), Woven(rest));
    }
  }

  /** Closing a block element adds its end tag to the output, followed by
      a boundary for the elements still open if the close step flushed. */
  lemma CloseAddsEndTag(maxLen: int, name: string, st: State)
    requires st.openTags != []
    ensures var outer := st.openTags[..|st.openTags| - 1];
            || Flat(CloseF(maxLen, name, st)) == Flat(st) + EndTag(name)
            || Flat(CloseF(maxLen, name, st)) == Flat(st) + EndTag(name) + Closing(outer) + Opening(outer)
  {
    var closed := State(st.current + EndTag(name), st.openTags[..|st.openTags| - 1], st.fragments);
    assert Flat(closed) == Flat(st) + EndTag(name);
  }

  /** The final step of the split loses nothing: the fragments together are
      exactly what the walk emitted, the buffer included. */
  lemma SplitKeepsOutput(tree: seq<Node>, maxLen: int)
    requires SplitF(tree, maxLen).Ok?
    ensures Concat(SplitF(tree, maxLen).value) == Flat(ChildrenF(maxLen, tree, START).value)
  {
    var st := ChildrenF(maxLen, tree, START).value;
    assert Closing(st.openTags) == "";
    var last := st.fragments + [st.current];
    assert last[..|last| - 1] == st.fragments;
  }

  /** The whole split never skips or drops content: the fragments together
      are the document's markup with only boundaries inserted, and removing
      the boundaries gives the document's markup back. */
  lemma SplitKeepsContent(tree: seq<Node>, maxLen: int) returns (spans: seq<Span>)
    requires SplitF(tree, maxLen).Ok?
    ensures Plain(spans) == SerializeAll(tree)
    ensures Concat(SplitF(tree, maxLen).value) == Woven(spans)
  {
    var walked := ChildrenF(maxLen, tree, START).value;
    spans := ChildrenKeepContent(maxLen, tree, START, walked);
    SplitKeepsOutput(tree, maxLen);
    assert Flat(START) == "";
  }
}
