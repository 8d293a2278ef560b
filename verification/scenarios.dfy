/**
 * The split on the documents of the repository's unit tests, and on small
 * documents that show how the algorithm behaves at its edges: an empty
 * fragment, a fragment over the budget, an end tag counted twice, and the
 * text loop that never stops.
 */
module Scenarios {
  import opened Markup
  import opened Segmenter
  import opened TextProperties
  import opened BudgetProperties
  import opened StructureProperties

  function Paragraph(text: string): Node {
    Element("p", [], [Text(text)])
  }

  /** A paragraph that fits comes out as one fragment equal to its markup. */
  lemma NoSplitNeeded()
    ensures SplitF([Paragraph("Hello World!")], 1000) == Ok(["<p>Hello World!</p>"])
  {
    var tree := [Paragraph("Hello World!")];
    assert SerializeAll([Text("Hello World!")]) == "Hello World!";
    assert SerializeAll(tree) == "<p>Hello World!</p>";
    SingleFragmentWhenItFits(tree, 1000);
  }

  /** A non-block element longer than the budget makes the whole split
      fail, naming the element; no fragment is produced. */
  lemma UnbreakableTagTooLong(s: string)
    requires |s| == 5000
    ensures SplitF([Element("a", [], [Text(s)])], 1000)
            == Err(NonBlockTextTooLong("a", "<a>" + s + "</a>", 5007))
  {
    var node := Element("a", [], [Text(s)]);
    assert SerializeAll([Text(s)]) == s;
    assert Serialize(node) == "<a>" + s + "</a>";
    NonBlockTooLongFails(1000, node, START);
  }

  /** The link inside each paragraph of a document that splits without
      error appears whole in one fragment. */
  lemma LinkNeverSliced(tree: seq<Node>, maxLen: int, i: nat)
    requires i < |tree|
    requires tree[i] == Element("p", [], [Text("Text with a "), Element("a", [("href", "link")], [Text("link")]), Text(" in it.")])
    requires SplitF(tree, maxLen).Ok?
    ensures exists k :: 0 <= k < |SplitF(tree, maxLen).value|
                        && Within("<a href=\"link\">link</a>", SplitF(tree, maxLen).value[k])
  {
    var link := Element("a", [("href", "link")], [Text("link")]);
    assert tree[i].children[1] == link;
    assert Inside(link, tree[i].children[1]);
    assert Inside(link, tree[i]);
    NonBlockNeverSliced(tree, maxLen, i, link);
    LinkMarkup();
  }

  /** Solver helper: the markup of the test's link. */
  lemma LinkMarkup()
    ensures Serialize(Element("a", [("href", "link")], [Text("link")])) == "<a href=\"link\">link</a>"
  {
    assert AttrText([("href", "link")][1..]) == "";
    assert StartTag("a", [("href", "link")]) == "<a href=\"link\">";
    assert SerializeAll([Text("link")]) == "link";
  }

  /** One long paragraph: whenever the budget leaves room for one character
      besides `<p>` and `</p>`, the split succeeds, and every fragment is
      within the budget, starts with `<p>` and ends with `</p>`. */
  lemma LongParagraphSplits(text: string, maxLen: int)
    requires maxLen >= 8
    ensures SplitF([Paragraph(text)], maxLen).Ok?
    ensures forall k | 0 <= k < |SplitF([Paragraph(text)], maxLen).value| ::
              && |SplitF([Paragraph(text)], maxLen).value[k]| <= maxLen
              && Framed(SplitF([Paragraph(text)], maxLen).value[k], ["p"])
  {
    ParagraphFragmentsFramed(text, maxLen);
    ParagraphBlocksFit(text, maxLen);
    FragmentsWithinBudget([Paragraph(text)], maxLen);
  }

  lemma ParagraphFragmentsFramed(text: string, maxLen: int)
    requires maxLen >= 8
    ensures SplitF([Paragraph(text)], maxLen).Ok?
    ensures forall k | 0 <= k < |SplitF([Paragraph(text)], maxLen).value| ::
              Framed(SplitF([Paragraph(text)], maxLen).value[k], ["p"])
  {
    var inner := ParagraphWalk(text, maxLen);
    TextFramesFragments(maxLen, text, 0, State("<p>", ["p"], []), inner);
    ParagraphFramed(inner);
    AllFramedExtend(inner.fragments, inner.current + "</p>", ["p"]);
  }

  /** Solver helper: adding a framed fragment keeps every fragment framed. */
  lemma AllFramedExtend(fragments: seq<string>, last: string, stack: seq<string>)
    requires forall k | 0 <= k < |fragments| :: Framed(fragments[k], stack)
    requires Framed(last, stack)
    ensures forall k | 0 <= k < |fragments + [last]| :: Framed((fragments + [last])[k], stack)
  {
  }

  /** Opening a paragraph at the start of a document with room for `<p>`
      and `</p>`. */
  lemma ParagraphOpens(text: string, maxLen: int)
    requires maxLen >= 7
    ensures EnterF(maxLen, Paragraph(text), START) == Ok(State("<p>", ["p"], []))
  {
    NestedTags();
    assert Closing([]) == "";
    assert BlockNeed(START, "<p>", "</p>") == 7;
    assert "" + "<p>" == "<p>" && [] + ["p"] == ["p"];
  }

  /** The walk over one paragraph: its text loop ends, and the close is the
      last step. */
  lemma ParagraphWalk(text: string, maxLen: int) returns (inner: State)
    requires maxLen >= 8
    ensures TextF(maxLen, text, 0, State("<p>", ["p"], [])) == Ok(inner)
    ensures inner.openTags == ["p"]
    ensures ChildrenF(maxLen, [Paragraph(text)], START) == Ok(CloseF(maxLen, "p", inner))
    ensures SplitF([Paragraph(text)], maxLen) == Ok(inner.fragments + [inner.current + "</p>"])
  {
    inner := ParagraphText(text, maxLen);
    ParagraphOpens(text, maxLen);
    var closed := CloseF(maxLen, "p", inner);
    assert ProcessF(maxLen, Paragraph(text), START) == Ok(closed);
    ChildrenStep(maxLen, [Paragraph(text)], START, closed, closed);
    ParagraphCloses(maxLen, inner);
  }

  /** Solver helper: the text loop inside a fresh paragraph ends, and it is
      the only child. */
  lemma ParagraphText(text: string, maxLen: int) returns (inner: State)
    requires maxLen >= 8
    ensures TextF(maxLen, text, 0, State("<p>", ["p"], [])) == Ok(inner)
    ensures inner.openTags == ["p"]
    ensures ChildrenF(maxLen, [Text(text)], State("<p>", ["p"], [])) == Ok(inner)
  {
    NestedTags();
    var entered := State("<p>", ["p"], []);
    TextEndsWhenReopenFits(maxLen, text, 0, entered);
    inner := TextF(maxLen, text, 0, entered).value;
    assert [Text(text)][1..] == [];
  }

  /** Solver helper: closing the paragraph leaves nothing open, and the
      final emit of the split gives the paragraph's fragments followed by
      its buffer and end tag, whether or not the close flushed. */
  lemma ParagraphCloses(maxLen: int, inner: State)
    requires inner.openTags == ["p"]
    ensures CloseF(maxLen, "p", inner).openTags == []
    ensures var c := CloseF(maxLen, "p", inner);
            (if c.current != "" then c.fragments + [c.current + Closing(c.openTags)] else c.fragments)
            == inner.fragments + [inner.current + "</p>"]
  {
    NestedTags();
    assert ["p"][..0] == [] && Closing([]) == "" && Opening([]) == "";
    assert inner.current + "</p>" + "" == inner.current + "</p>";
  }

  lemma ParagraphBlocksFit(text: string, maxLen: int)
    requires maxLen >= 8
    ensures AllBlocksFit(maxLen, [Paragraph(text)], [])
  {
    NestedTags();
    assert Closing([]) == "" && Opening([]) == "";
    assert [Text(text)][1..] == [] && [Paragraph(text)][1..] == [];
    assert BlocksFit(maxLen, Text(text), ["p"]) && AllBlocksFit(maxLen, [], ["p"]);
    assert AllBlocksFit(maxLen, [Text(text)], ["p"]);
    assert BlocksFit(maxLen, Paragraph(text), []);
  }

  /** The last fragment of a one-paragraph split is framed like the others. */
  lemma ParagraphFramed(inner: State)
    requires inner.openTags == ["p"] && Opening(["p"]) <= inner.current
    ensures Framed(inner.current + "</p>", ["p"])
  {
    NestedTags();
  }

  /** Three paragraphs in a `div` with a budget of 50: the first two share
      a fragment, the third goes to a second fragment that reopens the
      `div`; both fragments close it. */
  lemma PreserveStructure()
    ensures SplitF([Element("div", [], [Paragraph("Paragraph 1"), Paragraph("Paragraph 2"), Paragraph("Paragraph 3")])], 50)
            == Ok(["<div><p>Paragraph 1</p><p>Paragraph 2</p></div>", "<div><p>Paragraph 3</p></div>"])
  {
    DivOfParagraphs("Paragraph 1", "Paragraph 2", "Paragraph 3");
    FirstFragment();
    SecondFragment();
  }

  /** Solver helper: the first fragment of `PreserveStructure`, regrouped. */
  lemma FirstFragment()
    ensures "<div><p>" + "Paragraph 1" + "</p><p>" + "Paragraph 2" + "</p></div>"
            == "<div><p>Paragraph 1</p><p>Paragraph 2</p></div>"
  {
  }

  /** Solver helper: the second fragment of `PreserveStructure`, regrouped. */
  lemma SecondFragment()
    ensures "<div><p>" + "Paragraph 3" + "</p></div>" == "<div><p>Paragraph 3</p></div>"
  {
  }

  /** `PreserveStructure` for any three texts of the same length. */
  lemma DivOfParagraphs(t1: string, t2: string, t3: string)
    requires |t1| == 11 && |t2| == 11 && |t3| == 11
    ensures SplitF([Element("div", [], [Paragraph(t1), Paragraph(t2), Paragraph(t3)])], 50)
            == Ok(["<div><p>" + t1 + "</p><p>" + t2 + "</p></div>", "<div><p>" + t3 + "</p></div>"])
  {
    var paras := [Paragraph(t1), Paragraph(t2), Paragraph(t3)];
    var node := Element("div", [], paras);
    var first := "<div><p>" + t1 + "</p><p>" + t2 + "</p></div>";
    StructureDivOpens(50, paras);
    ParagraphsInDiv(t1, t2, t3);
    var s4 := State("<div><p>" + t3 + "</p>", ["div"], [first]);
    var s5 := State(s4.current + "</div>", [], [first]);
    DivCloses(50, s4);
    assert ProcessF(50, node, START) == Ok(s5);
    assert [node][1..] == [];
    assert ChildrenF(50, [node], START) == Ok(s5);
    assert s5.current + Closing([]) == "<div><p>" + t3 + "</p></div>";
    assert s5.current != "";
    assert SplitF([node], 50) == Ok(s5.fragments + [s5.current + Closing(s5.openTags)]);
    assert s5.fragments + [s5.current + Closing(s5.openTags)] == [first, "<div><p>" + t3 + "</p></div>"];
  }

  /** Three paragraphs of eleven characters each, walked inside a freshly
      opened `div` with a budget of 50: one flush, at the close of the
      second. */
  lemma ParagraphsInDiv(t1: string, t2: string, t3: string)
    requires |t1| == 11 && |t2| == 11 && |t3| == 11
    ensures ChildrenF(50, [Paragraph(t1), Paragraph(t2), Paragraph(t3)], State("<div>", ["div"], []))
            == Ok(State("<div><p>" + t3 + "</p>", ["div"], ["<div><p>" + t1 + "</p><p>" + t2 + "</p></div>"]))
  {
    var paras := [Paragraph(t1), Paragraph(t2), Paragraph(t3)];
    var first := "<div><p>" + t1 + "</p><p>" + t2 + "</p></div>";
    var s1 := State("<div>", ["div"], []);
    var s2 := State("<div><p>" + t1 + "</p>", ["div"], []);
    ParagraphFitsInDiv(t1, []);
    var s3 := State("<div>", ["div"], [first]);
    SecondParagraphFlushesAtClose(t1, t2);
    var s4 := State("<div><p>" + t3 + "</p>", ["div"], [first]);
    ParagraphFitsInDiv(t3, [first]);
    assert paras[2..][1..] == [];
    ChildrenStep(50, paras[2..], s3, s4, s4);
    assert paras[1..][1..] == paras[2..];
    ChildrenStep(50, paras[1..], s2, s3, s4);
    ChildrenStep(50, paras, s1, s2, s4);
  }

  /** Solver helper: the walk over siblings is the walk over the first, then
      over the rest (one unfolding of `ChildrenF`). */
  lemma ChildrenStep(maxLen: int, nodes: seq<Node>, st: State, mid: State, out: State)
    requires nodes != []
    requires ProcessF(maxLen, nodes[0], st) == Ok(mid)
    requires ChildrenF(maxLen, nodes[1..], mid) == Ok(out)
    ensures ChildrenF(maxLen, nodes, st) == Ok(out)
  {
  }

  lemma ParagraphMarkup(text: string)
    ensures Serialize(Paragraph(text)) == "<p>" + text + "</p>"
  {
    NestedTags();
    assert SerializeAll([Text(text)]) == text;
  }

  lemma StructureDivOpens(maxLen: int, paras: seq<Node>)
    requires maxLen >= 11
    ensures EnterF(maxLen, Element("div", [], paras), START) == Ok(State("<div>", ["div"], []))
  {
    NestedTags();
    assert Closing([]) == "";
    assert BlockNeed(START, "<div>", "</div>") == 11;
    assert "" + "<div>" == "<div>" && [] + ["div"] == ["div"];
  }

  /** A paragraph right after a freshly opened `div` goes in whole. */
  lemma ParagraphFitsInDiv(text: string, frags: seq<string>)
    requires |text| == 11
    ensures ProcessF(50, Paragraph(text), State("<div>", ["div"], frags))
            == Ok(State("<div><p>" + text + "</p>", ["div"], frags))
  {
    NestedTags();
    ParagraphMarkup(text);
    ProcessFitsWhole(50, Paragraph(text), State("<div>", ["div"], frags));
    assert "<div>" + ("<p>" + text + "</p>") == "<div><p>" + text + "</p>";
  }

  /** A second paragraph opens and takes its text within the budget, but
      its end tag, counted twice, forces a flush at its close. */
  lemma SecondParagraphFlushesAtClose(t1: string, t2: string)
    requires |t1| == 11 && |t2| == 11
    ensures ProcessF(50, Paragraph(t2), State("<div><p>" + t1 + "</p>", ["div"], []))
            == Ok(State("<div>", ["div"], ["<div><p>" + t1 + "</p><p>" + t2 + "</p></div>"]))
  {
    NestedTags();
    var filled := SecondParagraphFills(t1, t2);
    assert ["div", "p"][..1] == ["div"];
    var closed := State(filled.current + "</p>", ["div"], []);
    assert CloseF(50, "p", filled) == Flush(closed);
    assert closed.current + "</div>" == "<div><p>" + t1 + "</p><p>" + t2 + "</p></div>";
    assert [] + [closed.current + "</div>"] == [closed.current + "</div>"];
  }

  /** Solver helper: the second paragraph opens without a flush and its
      eleven characters go into the buffer in one chunk. */
  lemma SecondParagraphFills(t1: string, t2: string) returns (filled: State)
    requires |t1| == 11 && |t2| == 11
    ensures filled == State("<div><p>" + t1 + "</p>" + "<p>" + t2, ["div", "p"], [])
    ensures BlockF(50, Paragraph(t2), State("<div><p>" + t1 + "</p>", ["div"], []))
            == Ok(CloseF(50, "p", filled))
  {
    NestedTags();
    var s2 := State("<div><p>" + t1 + "</p>", ["div"], []);
    var entered := State(s2.current + "<p>", ["div", "p"], []);
    assert BlockNeed(s2, "<p>", "</p>") == 36;
    assert ["div"] + ["p"] == ["div", "p"];
    assert EnterF(50, Paragraph(t2), s2) == Ok(entered);
    filled := State(entered.current + t2, ["div", "p"], []);
    assert SpaceLeft(50, entered) == 14;
    assert t2[0..Min(0 + 14, 11)] == t2;
    assert TextF(50, t2, 11, filled) == Ok(filled);
    assert TextF(50, t2, 0, entered) == Ok(filled);
    assert [Text(t2)][1..] == [];
    assert ChildrenF(50, [Text(t2)], entered) == Ok(filled);
  }

  lemma DivCloses(maxLen: int, st: State)
    requires st.openTags == ["div"] && |st.current| + 12 <= maxLen
    ensures CloseF(maxLen, "div", st) == State(st.current + "</div>", [], st.fragments)
    // solver helper for the caller: nothing is left open afterwards
    ensures Closing([]) == ""
  {
    NestedTags();
    assert ["div"][..0] == [];
  }

  /** The tags of the open elements `["p"]` and `["div", "p"]`. */
  lemma NestedTags()
    ensures StartTag("p", []) == "<p>" && EndTag("p") == "</p>"
    ensures StartTag("div", []) == "<div>" && EndTag("div") == "</div>"
    ensures Opening(["p"]) == "<p>" && Closing(["p"]) == "</p>"
    ensures Opening(["div"]) == "<div>" && Closing(["div"]) == "</div>"
    ensures Opening(["div", "p"]) == "<div><p>" && Closing(["div", "p"]) == "</p></div>"
  {
    PushTag([], "p");
    PushTag([], "div");
    PushTag(["div"], "p");
    assert [] + ["p"] == ["p"] && [] + ["div"] == ["div"];
  }

  /** A block element with children whose start tag carries attributes is
      opened over budget after flushing an empty buffer: the split emits an
      empty fragment, then a fragment longer than the budget. */
  lemma OverBudgetBlockWithChildren()
    ensures SplitF([Element("p", [("k", "v")], [Text("a")])], 12)
            == Ok(["", "<p k=\"v\"></p>", "<p>a</p>"])
    ensures |"<p k=\"v\"></p>"| > 12
  {
    var node := Element("p", [("k", "v")], [Text("a")]);
    var entered := State("<p k=\"v\">", ["p"], [""]);
    AttributedParagraphOpens();
    var filled := State("<p>a", ["p"], ["", "<p k=\"v\"></p>"]);
    AttributedParagraphText();
    assert ChildrenF(12, [Text("a")], entered) == Ok(filled);
    var closed := State("<p>a</p>", [], ["", "<p k=\"v\"></p>"]);
    AttributedParagraphCloses();
    assert ProcessF(12, node, START) == Ok(closed);
    assert ChildrenF(12, [node], START) == Ok(closed);
    assert closed.fragments + ["<p>a</p>"] == ["", "<p k=\"v\"></p>", "<p>a</p>"];
  }

  /** The second fragment of `OverBudgetBlockWithChildren` holds the
      attributed start tag, so it does not begin with the attribute-free
      reopening prefix: `Framed` does not hold for every fragment of a split. */
  lemma AttributedFragmentNotFramed()
    ensures !Framed("<p k=\"v\"></p>", ["p"])
  {
    NestedTags();
    assert "<p k=\"v\"></p>"[1] == 'p' && "<p k=\"v\"></p>"[2] == ' ';
    assert "<p>"[2] == '>';
  }

  lemma AttributedParagraphOpens()
    ensures EnterF(12, Element("p", [("k", "v")], [Text("a")]), START)
            == Ok(State("<p k=\"v\">", ["p"], [""]))
  {
    var start := StartTag("p", [("k", "v")]);
    AttributedStartTag();
    assert Closing([]) == "" && Opening([]) == "";
    assert "" + "" == "";
    assert [] + [""] == [""];
    assert Flush(START) == State("", [], [""]);
    assert BlockNeed(START, start, "</p>") == 13;
    assert "" + start == start && [] + ["p"] == ["p"];
  }

  lemma AttributedStartTag()
    ensures StartTag("p", [("k", "v")]) == "<p k=\"v\">"
  {
    assert AttrText([("k", "v")][1..]) == "";
  }

  lemma AttributedParagraphText()
    ensures TextF(12, "a", 0, State("<p k=\"v\">", ["p"], [""]))
            == Ok(State("<p>a", ["p"], ["", "<p k=\"v\"></p>"]))
  {
    NestedTags();
    var entered := State("<p k=\"v\">", ["p"], [""]);
    var reopened := State("<p>", ["p"], ["", "<p k=\"v\"></p>"]);
    assert "<p k=\"v\">" + "</p>" == "<p k=\"v\"></p>";
    assert [""] + ["<p k=\"v\"></p>"] == ["", "<p k=\"v\"></p>"];
    assert Flush(entered) == reopened;
    assert SpaceLeft(12, entered) == -1 && SpaceLeft(12, reopened) == 5;
    var filled := State("<p>a", ["p"], ["", "<p k=\"v\"></p>"]);
    assert "a"[0..Min(0 + 5, 1)] == "a" && "<p>" + "a" == "<p>a";
    assert TextF(12, "a", 1, filled) == Ok(filled);
    assert TextF(12, "a", 0, reopened) == Ok(filled);
  }

  lemma AttributedParagraphCloses()
    ensures CloseF(12, "p", State("<p>a", ["p"], ["", "<p k=\"v\"></p>"]))
            == State("<p>a</p>", [], ["", "<p k=\"v\"></p>"])
    // solver helper for the caller: nothing is left open afterwards
    ensures "<p>a</p>" + Closing([]) == "<p>a</p>"
  {
    NestedTags();
    assert Closing([]) == "";
    assert ["p"][..0] == [] && "<p>a" + "</p>" == "<p>a</p>";
  }

  /** The end of a block element reserves room for its end tag twice: a
      document whose markup is exactly the budget long is split in two, the
      second fragment holding only the reopened and closed `div`. */
  lemma EndTagCountedTwice()
    ensures |SerializeAll([Element("div", [], [Paragraph("a")])])| == 19
    ensures SplitF([Element("div", [], [Paragraph("a")])], 19)
            == Ok(["<div><p>a</p></div>", "<div></div>"])
  {
    DivWithParagraph("a");
    OneCharDivFragment();
  }

  /** Solver helper: the first fragment of `EndTagCountedTwice`, regrouped. */
  lemma OneCharDivFragment()
    ensures "<div><p>" + "a" + "</p></div>" == "<div><p>a</p></div>"
  {
  }

  /** `EndTagCountedTwice` for any one-character text. */
  lemma DivWithParagraph(t: string)
    requires |t| == 1
    ensures |SerializeAll([Element("div", [], [Paragraph(t)])])| == 19
    ensures SplitF([Element("div", [], [Paragraph(t)])], 19)
            == Ok(["<div><p>" + t + "</p></div>", "<div></div>"])
  {
    var first := "<div><p>" + t + "</p></div>";
    DivMarkup(t);
    var s5 := DivWithParagraphWalk(t);
    assert s5.current + Closing([]) == "<div></div>";
    assert s5.fragments + [s5.current + Closing(s5.openTags)] == [first, "<div></div>"];
  }

  /** Solver helper: the walk of `DivWithParagraph` flushes at the
      paragraph's close and leaves an empty `div` in the buffer. */
  lemma DivWithParagraphWalk(t: string) returns (s5: State)
    requires |t| == 1
    ensures s5 == State("<div></div>", [], ["<div><p>" + t + "</p></div>"])
    ensures ChildrenF(19, [Element("div", [], [Paragraph(t)])], START) == Ok(s5)
    ensures Closing([]) == ""
  {
    var node := Element("div", [], [Paragraph(t)]);
    var s1 := State("<div>", ["div"], []);
    StructureDivOpens(19, [Paragraph(t)]);
    var s4 := State("<div>", ["div"], ["<div><p>" + t + "</p></div>"]);
    InnerParagraphFlushesAtClose(t);
    assert [Paragraph(t)][1..] == [];
    ChildrenStep(19, [Paragraph(t)], s1, s4, s4);
    s5 := State("<div></div>", [], s4.fragments);
    BlockSteps(19, node, START, s1, s4);
    DivCloses(19, s4);
    assert "<div>" + "</div>" == "<div></div>";
    assert IsBlock("div");
    assert ProcessF(19, node, START) == Ok(s5);
    assert [node][1..] == [];
    ChildrenStep(19, [node], START, s5, s5);
  }

  lemma DivMarkup(t: string)
    ensures SerializeAll([Element("div", [], [Paragraph(t)])]) == "<div><p>" + t + "</p></div>"
  {
    var div := Element("div", [], [Paragraph(t)]);
    NestedTags();
    ParagraphMarkup(t);
    assert SerializeAll([Paragraph(t)]) == "<p>" + t + "</p>";
    assert Serialize(div) == "<div>" + ("<p>" + t + "</p>") + "</div>";
    DivParagraphText(t);
    assert SerializeAll([div]) == Serialize(div);
  }

  /** Solver helper: the markup of a `div` around a paragraph, regrouped. */
  lemma DivParagraphText(t: string)
    ensures "<div>" + ("<p>" + t + "</p>") + "</div>" == "<div><p>" + t + "</p></div>"
  {
  }

  /** The paragraph inside the `div` of `EndTagCountedTwice` fits, but its
      end tag is counted once more at the close and forces a flush. */
  lemma InnerParagraphFlushesAtClose(t: string)
    requires |t| == 1
    ensures ProcessF(19, Paragraph(t), State("<div>", ["div"], []))
            == Ok(State("<div>", ["div"], ["<div><p>" + t + "</p></div>"]))
  {
    NestedTags();
    var s1 := State("<div>", ["div"], []);
    var s2 := State("<div><p>", ["div", "p"], []);
    assert BlockNeed(s1, "<p>", "</p>") == 18;
    assert "<div>" + "<p>" == "<div><p>" && ["div"] + ["p"] == ["div", "p"];
    assert EnterF(19, Paragraph(t), s1) == Ok(s2);
    var s3 := State("<div><p>" + t, ["div", "p"], []);
    assert SpaceLeft(19, s2) == 1;
    assert t[0..Min(0 + 1, 1)] == t;
    assert TextF(19, t, 1, s3) == Ok(s3);
    assert TextF(19, t, 0, s2) == Ok(s3);
    assert [Text(t)][1..] == [];
    assert ChildrenF(19, [Text(t)], s2) == Ok(s3);
    assert ["div", "p"][..1] == ["div"];
    var closed := State(s3.current + "</p>", ["div"], []);
    assert CloseF(19, "p", s3) == Flush(closed);
    assert closed.current + "</div>" == "<div><p>" + t + "</p></div>";
    assert [] + [closed.current + "</div>"] == [closed.current + "</div>"];
  }

  /** When `<p>` and `</p>` alone use up the budget, the text loop flushes
      `<p></p>` forever. */
  lemma EndlessFlushInParagraph()
    ensures SplitF([Paragraph("ab")], 7) == Err(EndlessFlush("<p></p>"))
  {
    NestedTags();
    var node := Paragraph("ab");
    var entered := State("<p>", ["p"], []);
    ParagraphOpens("ab", 7);
    var flushed := State("<p>", ["p"], ["<p></p>"]);
    assert "<p>" + "</p>" == "<p></p>";
    assert [] + ["<p></p>"] == ["<p></p>"];
    assert Flush(entered) == flushed;
    assert SpaceLeft(7, entered) == 0 && SpaceLeft(7, flushed) == 0;
    FlushStep(7, "ab", 0, entered, flushed);
    assert ChildrenF(7, [Text("ab")], entered) == Err(EndlessFlush("<p></p>"));
    assert ProcessF(7, node, START) == Err(EndlessFlush("<p></p>"));
    assert ChildrenF(7, [node], START) == Err(EndlessFlush("<p></p>"));
  }
}
