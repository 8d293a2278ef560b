/**
 * The length bound.  The walk keeps the buffer plus its closing tags within
 * the budget and emits only fragments within the budget, as long as every
 * block element it meets would fit, empty, in a fragment that has just
 * reopened the elements around it.  Without that condition a block element
 * with children is opened over budget and the bound fails.
 */
module BudgetProperties {
  import opened Markup
  import opened Segmenter

  /** The budget invariant of the walk. */
  predicate WithinBudget(maxLen: int, st: State) {
    && SpaceLeft(maxLen, st) >= 0
    && forall k | 0 <= k < |st.fragments| :: |st.fragments[k]| <= maxLen
  }

  /** Every block element of `node`, empty and with its attributes, fits
      after the reopening prefix of the elements open around it. */
  predicate BlocksFit(maxLen: int, node: Node, stack: seq<string>)
    decreases node, 1
  {
    match node
    case Text(_) => true
    case Element(name, attrs, children) =>
      IsBlock(name) ==>
        && |Opening(stack)| + |StartTag(name, attrs)| + |EndTag(name)| + |Closing(stack)| <= maxLen
        && AllBlocksFit(maxLen, children, stack + [name])
  }

  predicate AllBlocksFit(maxLen: int, nodes: seq<Node>, stack: seq<string>)
    decreases nodes, 0
  {
    nodes == [] || (BlocksFit(maxLen, nodes[0], stack) && AllBlocksFit(maxLen, nodes[1..], stack))
  }

  /** A flush from within the budget emits a fragment within the budget. */
  lemma FlushKeepsFragments(maxLen: int, st: State)
    requires WithinBudget(maxLen, st)
    ensures forall k | 0 <= k < |Flush(st).fragments| :: |Flush(st).fragments[k]| <= maxLen
  {
    var fragments := Flush(st).fragments;
    forall k | 0 <= k < |fragments|
      ensures |fragments[k]| <= maxLen
    {
      if k < |st.fragments| {
        assert fragments[k] == st.fragments[k];
      }
    }
  }

  lemma {:induction false} TextKeepsBudget(maxLen: int, text: string, idx: nat, st: State, out: State)
    requires idx <= |text|
    requires WithinBudget(maxLen, st)
    requires TextF(maxLen, text, idx, st) == Ok(out)
    ensures WithinBudget(maxLen, out)
    decreases |text| - idx, if SpaceLeft(maxLen, st) <= 0 then 1 else 0
  {
    if idx == |text| {
    } else if SpaceLeft(maxLen, st) <= 0 {
      var flushed := Flush(st);
      FlushStep(maxLen, text, idx, st, flushed);
      FlushKeepsFragments(maxLen, st);
      TextKeepsBudget(maxLen, text, idx, flushed, out);
    } else {
      var j := Min(idx + SpaceLeft(maxLen, st), |text|);
      var chunk := text[idx..j];
      var next := Append(st, chunk);
      ChunkStep(maxLen, text, idx, st, j, next);
      TextKeepsBudget(maxLen, text, j, next, out);
    }
  }

  lemma EnterKeepsBudget(maxLen: int, node: Node, st: State, out: State)
    requires node.Element? && IsBlock(node.name)
    requires WithinBudget(maxLen, st)
    requires BlocksFit(maxLen, node, st.openTags)
    requires EnterF(maxLen, node, st) == Ok(out)
    ensures WithinBudget(maxLen, out)
  {
    var start, end := StartTag(node.name, node.attrs), EndTag(node.name);
    PushTag(st.openTags, node.name);
    if BlockNeed(st, start, end) > maxLen {
      var flushed := Flush(st);
      FlushKeepsBudget(maxLen, st);
      assert out == State(flushed.current + start, st.openTags + [node.name], flushed.fragments);
    } else {
      assert out == State(st.current + start, st.openTags + [node.name], st.fragments);
    }
  }

  lemma CloseKeepsBudget(maxLen: int, name: string, st: State)
    requires st.openTags != [] && st.openTags[|st.openTags| - 1] == name
    requires WithinBudget(maxLen, st)
    requires |Opening(st.openTags[..|st.openTags| - 1])| + |Closing(st.openTags[..|st.openTags| - 1])| <= maxLen
    ensures WithinBudget(maxLen, CloseF(maxLen, name, st))
  {
    var popped := st.openTags[..|st.openTags| - 1];
    var closed := State(st.current + EndTag(name), popped, st.fragments);
    assert Closing(st.openTags) == EndTag(name) + Closing(popped);
    if |st.current| + |EndTag(name)| + |Closing(st.openTags)| > maxLen {
      FlushKeepsBudget(maxLen, closed);
    }
  }

  /** A flush keeps the budget when the reopening prefix and the closing
      tags fit. */
  lemma FlushKeepsBudget(maxLen: int, st: State)
    requires WithinBudget(maxLen, st)
    requires |Opening(st.openTags)| + |Closing(st.openTags)| <= maxLen
    ensures WithinBudget(maxLen, Flush(st))
  {
    FlushKeepsFragments(maxLen, st);
  }

  lemma {:induction false} ProcessKeepsBudget(maxLen: int, node: Node, st: State, out: State)
    requires WithinBudget(maxLen, st)
    requires BlocksFit(maxLen, node, st.openTags)
    requires ProcessF(maxLen, node, st) == Ok(out)
    ensures WithinBudget(maxLen, out)
    decreases node, 1
  {
    match node
    case Text(s) =>
      TextKeepsBudget(maxLen, s, 0, st, out);
    case Element(name, attrs, children) =>
      if IsBlock(name) {
        BlockKeepsBudget(maxLen, node, st, out);
      } else {
        NonBlockKeepsBudget(maxLen, node, st, out);
      }
  }

  lemma {:induction false} BlockKeepsBudget(maxLen: int, node: Node, st: State, out: State)
    requires node.Element? && IsBlock(node.name)
    requires WithinBudget(maxLen, st)
    requires BlocksFit(maxLen, node, st.openTags)
    requires BlockF(maxLen, node, st) == Ok(out)
    ensures WithinBudget(maxLen, out)
    decreases node, 0
  {
    var entered := EnterF(maxLen, node, st).value;
    EnterKeepsBudget(maxLen, node, st, entered);
    var inner := ChildrenF(maxLen, node.children, entered).value;
    ChildrenKeepBudget(maxLen, node.children, entered, inner);
    assert out == CloseF(maxLen, node.name, inner);
    assert inner.openTags[..|inner.openTags| - 1] == st.openTags;
    CloseKeepsBudget(maxLen, node.name, inner);
  }

  lemma NonBlockKeepsBudget(maxLen: int, node: Node, st: State, out: State)
    requires node.Element?
    requires WithinBudget(maxLen, st)
    requires NonBlockF(maxLen, node, st) == Ok(out)
    ensures WithinBudget(maxLen, out)
  {
    FlushKeepsFragments(maxLen, st);
  }

  lemma {:induction false} ChildrenKeepBudget(maxLen: int, nodes: seq<Node>, st: State, out: State)
    requires WithinBudget(maxLen, st)
    requires AllBlocksFit(maxLen, nodes, st.openTags)
    requires ChildrenF(maxLen, nodes, st) == Ok(out)
    ensures WithinBudget(maxLen, out)
    decreases nodes, 0
  {
    if nodes != [] {
      var first := ProcessF(maxLen, nodes[0], st).value;
      ProcessKeepsBudget(maxLen, nodes[0], st, first);
      ChildrenKeepBudget(maxLen, nodes[1..], first, out);
    }
  }

  /** The length bound: when every block element fits empty after its
      reopening prefix, every fragment of a successful split is at most
      `maxLen` characters long. */
  lemma FragmentsWithinBudget(tree: seq<Node>, maxLen: int)
    requires maxLen >= 0
    requires AllBlocksFit(maxLen, tree, [])
    requires SplitF(tree, maxLen).Ok?
    ensures forall k | 0 <= k < |SplitF(tree, maxLen).value| :: |SplitF(tree, maxLen).value[k]| <= maxLen
  {
    var out := ChildrenF(maxLen, tree, START).value;
    ChildrenKeepBudget(maxLen, tree, START, out);
  }
}
