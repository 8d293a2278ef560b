/**
 * Structural guarantees of the walk: the buffer is never cut (whatever it
 * holds goes whole into one fragment or stays in the buffer), a non-block
 * element goes whole into the buffer, and a document that fits with room to
 * spare comes out as one fragment equal to its markup.
 */
module StructureProperties {
  import opened Markup
  import opened Segmenter

  /** `b` follows `a` without cutting `a`'s buffer: the fragments of `a`
      are kept, and `a`'s buffer is the start of the first fragment emitted
      after `a`, or of `b`'s buffer if none was. */
  predicate Kept(a: State, b: State) {
    && a.fragments <= b.fragments
    && if |b.fragments| == |a.fragments| then a.current <= b.current
       else a.current <= b.fragments[|a.fragments|]
  }

  /** Helper: "the buffer was not cut" composes across steps. */
  lemma KeptTransitive(a: State, b: State, c: State)
    requires Kept(a, b) && Kept(b, c)
    ensures Kept(a, c)
  {
    if |b.fragments| > |a.fragments| {
      assert b.fragments[|a.fragments|] == c.fragments[|a.fragments|];
    }
  }

  lemma FlushKeeps(st: State)
    ensures Kept(st, Flush(st))
  {
  }

  lemma AppendKeeps(st: State, s: string)
    ensures Kept(st, Append(st, s))
  {
  }

  lemma {:induction false} TextKeepsBuffer(maxLen: int, text: string, idx: nat, st: State, out: State)
    requires idx <= |text|
    requires TextF(maxLen, text, idx, st) == Ok(out)
    ensures Kept(st, out)
    decreases |text| - idx, if SpaceLeft(maxLen, st) <= 0 then 1 else 0
  {
    if idx == |text| {
    } else if SpaceLeft(maxLen, st) <= 0 {
      var flushed := Flush(st);
      FlushStep(maxLen, text, idx, st, flushed);
      FlushKeeps(st);
      TextKeepsBuffer(maxLen, text, idx, flushed, out);
      KeptTransitive(st, flushed, out);
    } else {
      var j := Min(idx + SpaceLeft(maxLen, st), |text|);
      var next := Append(st, text[idx..j]);
      ChunkStep(maxLen, text, idx, st, j, next);
      AppendKeeps(st, text[idx..j]);
      TextKeepsBuffer(maxLen, text, j, next, out);
      KeptTransitive(st, next, out);
    }
  }

  lemma CloseKeeps(maxLen: int, name: string, st: State)
    requires st.openTags != []
    ensures Kept(st, CloseF(maxLen, name, st))
  {
    var closed := State(st.current + EndTag(name), st.openTags[..|st.openTags| - 1], st.fragments);
    FlushKeeps(closed);
    KeptTransitive(st, closed, Flush(closed));
  }

  /** The buffer is never cut: after the walk over any node, what the buffer
      held before is the start of one fragment, or of the buffer. */
  lemma {:induction false} ProcessKeepsBuffer(maxLen: int, node: Node, st: State, out: State)
    requires ProcessF(maxLen, node, st) == Ok(out)
    ensures Kept(st, out)
    decreases node, 1
  {
    match node
    case Text(s) =>
      TextKeepsBuffer(maxLen, s, 0, st, out);
    case Element(name, attrs, children) =>
      if IsBlock(name) {
        BlockKeepsBuffer(maxLen, node, st, out);
      } else {
        NonBlockKeepsBuffer(maxLen, node, st, out);
      }
  }

  lemma {:induction false} BlockKeepsBuffer(maxLen: int, node: Node, st: State, out: State)
    requires node.Element? && IsBlock(node.name)
    requires BlockF(maxLen, node, st) == Ok(out)
    ensures Kept(st, out)
    decreases node, 0
  {
    var entered := EnterF(maxLen, node, st).value;
    EnterKeeps(maxLen, node, st, entered);
    var inner := ChildrenF(maxLen, node.children, entered).value;
    ChildrenKeepBuffer(maxLen, node.children, entered, inner);
    KeptTransitive(st, entered, inner);
    CloseKeeps(maxLen, node.name, inner);
    KeptTransitive(st, inner, out);
  }

  lemma EnterKeeps(maxLen: int, node: Node, st: State, entered: State)
    requires node.Element?
    requires EnterF(maxLen, node, st) == Ok(entered)
    ensures Kept(st, entered)
  {
    var start := StartTag(node.name, node.attrs);
    var ready := if BlockNeed(st, start, EndTag(node.name)) > maxLen then Flush(st) else st;
    FlushKeeps(st);
    assert Kept(st, ready);
    assert entered == State(ready.current + start, ready.openTags + [node.name], ready.fragments);
    KeptTransitive(st, ready, entered);
  }

  lemma NonBlockKeepsBuffer(maxLen: int, node: Node, st: State, out: State)
    requires node.Element?
    requires NonBlockF(maxLen, node, st) == Ok(out)
    ensures Kept(st, out)
  {
    FlushKeeps(st);
    AppendKeeps(st, Serialize(node));
    AppendKeeps(Flush(st), Serialize(node));
    KeptTransitive(st, Flush(st), Append(Flush(st), Serialize(node)));
  }

  lemma {:induction false} ChildrenKeepBuffer(maxLen: int, nodes: seq<Node>, st: State, out: State)
    requires ChildrenF(maxLen, nodes, st) == Ok(out)
    ensures Kept(st, out)
    decreases nodes, 0
  {
    if nodes != [] {
      var first := ProcessF(maxLen, nodes[0], st).value;
      ProcessKeepsBuffer(maxLen, nodes[0], st, first);
      ChildrenKeepBuffer(maxLen, nodes[1..], first, out);
      KeptTransitive(st, first, out);
    }
  }

  /** A non-block element that does not fail goes whole at the end of the
      buffer: either after what the buffer held, or, after one flush of that
      buffer, right after the reopening prefix. */
  lemma NonBlockAppendedWhole(maxLen: int, node: Node, st: State, out: State)
    requires node.Element? && !IsBlock(node.name)
    requires ProcessF(maxLen, node, st) == Ok(out)
    ensures |Serialize(node)| <= maxLen
    ensures out.openTags == st.openTags
    ensures || (out.current == st.current + Serialize(node) && out.fragments == st.fragments)
            || (&& out.current == Opening(st.openTags) + Serialize(node)
                && out.fragments == st.fragments + [st.current + Closing(st.openTags)])
    ensures |out.current| + |Closing(out.openTags)| <= maxLen
  {
  }

  /** A non-block element whose markup is longer than the budget fails with
      the error that names it, whatever the state. */
  lemma NonBlockTooLongFails(maxLen: int, node: Node, st: State)
    requires node.Element? && !IsBlock(node.name)
    requires |Serialize(node)| > maxLen
    ensures ProcessF(maxLen, node, st)
            == Err(NonBlockTextTooLong(node.name, Serialize(node), |Serialize(node)|))
  {
  }

  /** Opening a block element fails exactly when it has no children and
      its start and end tags with the closing tags do not fit either in the
      buffer or right after a flush; one with children always goes ahead. */
  lemma EnterFailsExactly(maxLen: int, node: Node, st: State)
    requires node.Element? && IsBlock(node.name)
    ensures EnterF(maxLen, node, st).Err?
            <==> && node.children == []
                 && BlockNeed(st, StartTag(node.name, node.attrs), EndTag(node.name)) > maxLen
                 && BlockNeed(Flush(st), StartTag(node.name, node.attrs), EndTag(node.name)) > maxLen
    ensures EnterF(maxLen, node, st).Err? ==>
              EnterF(maxLen, node, st).error
              == BlockElementTooLong(Opening(st.openTags) + Closing(st.openTags),
                                     |Opening(st.openTags) + Closing(st.openTags)|)
  {
  }

  /** When a node's markup fits the buffer with room for one more block
      end tag, the walk appends it whole with no flush. */
  lemma {:induction false} ProcessFitsWhole(maxLen: int, node: Node, st: State)
    requires |st.current| + |Serialize(node)| + |Closing(st.openTags)| + LONGEST_BLOCK_END_TAG <= maxLen
    ensures ProcessF(maxLen, node, st) == Ok(Append(st, Serialize(node)))
    decreases node, 1
  {
    match node
    case Text(s) =>
      if s == [] {
        assert Append(st, s) == st;
      } else {
        var chunk := s[0..Min(0 + SpaceLeft(maxLen, st), |s|)];
        assert chunk == s;
        assert TextF(maxLen, s, 0, st) == TextF(maxLen, s, |s|, Append(st, s));
      }
    case Element(name, attrs, children) =>
      if IsBlock(name) {
        BlockFitsWhole(maxLen, node, st);
      }
  }

  lemma {:induction false} BlockFitsWhole(maxLen: int, node: Node, st: State)
    requires node.Element? && IsBlock(node.name)
    requires |st.current| + |Serialize(node)| + |Closing(st.openTags)| + LONGEST_BLOCK_END_TAG <= maxLen
    ensures BlockF(maxLen, node, st) == Ok(Append(st, Serialize(node)))
    decreases node, 0
  {
    var name, attrs, children := node.name, node.attrs, node.children;
    var start, end := StartTag(name, attrs), EndTag(name);
    assert Serialize(node) == start + SerializeAll(children) + end;
    BlockEndTagBound(name);
    PushTag(st.openTags, name);
    var entered := State(st.current + start, st.openTags + [name], st.fragments);
    EnterFits(maxLen, node, st);
    ChildrenFitWhole(maxLen, children, entered);
    var inner := Append(entered, SerializeAll(children));
    CloseFits(maxLen, name, inner, st);
    BlockSteps(maxLen, node, st, entered, inner);
    Assoc(st.current, start, SerializeAll(children));
    Assoc(st.current, start + SerializeAll(children), end);
  }

  /** Solver helper: `BlockF` unfolded once, for a block element that
      opens and walks its children without error. */
  lemma BlockSteps(maxLen: int, node: Node, st: State, entered: State, inner: State)
    requires node.Element?
    requires EnterF(maxLen, node, st) == Ok(entered)
    requires ChildrenF(maxLen, node.children, entered) == Ok(inner)
    ensures inner.openTags != []
    ensures BlockF(maxLen, node, st) == Ok(CloseF(maxLen, node.name, inner))
  {
  }

  /** Solver helper: `EnterF` unfolded once, on its branch without a
      flush. */
  lemma EnterFits(maxLen: int, node: Node, st: State)
    requires node.Element?
    requires |st.current| + |StartTag(node.name, node.attrs)| + |EndTag(node.name)| + |Closing(st.openTags)| <= maxLen
    ensures EnterF(maxLen, node, st)
            == Ok(State(st.current + StartTag(node.name, node.attrs), st.openTags + [node.name], st.fragments))
  {
  }

  /** Solver helper: `CloseF` unfolded once, on its branch without a
      flush. */
  lemma CloseFits(maxLen: int, name: string, inner: State, st: State)
    requires inner.openTags == st.openTags + [name] && inner.fragments == st.fragments
    requires |inner.current| + |EndTag(name)| + |Closing(inner.openTags)| <= maxLen
    ensures CloseF(maxLen, name, inner) == State(inner.current + EndTag(name), st.openTags, st.fragments)
  {
    assert (st.openTags + [name])[..|st.openTags|] == st.openTags;
  }

  /** The close step flushes exactly when the end tag, counted a second
      time, and the closing tags of the elements still open pass the budget
      together with the buffer. */
  lemma CloseFlushesExactly(maxLen: int, name: string, st: State)
    requires st.openTags != [] && st.openTags[|st.openTags| - 1] == name
    ensures var outer := st.openTags[..|st.openTags| - 1];
            |CloseF(maxLen, name, st).fragments| == |st.fragments| + 1
            <==> |st.current| + 2 * |EndTag(name)| + |Closing(outer)| > maxLen
  {
    assert Closing(st.openTags) == EndTag(name) + Closing(st.openTags[..|st.openTags| - 1]);
  }

  /** Opening a block element flushes exactly when its empty form, with the
      closing tags of the elements already open, does not fit after the
      buffer. */
  lemma EnterFlushesExactly(maxLen: int, node: Node, st: State)
    requires node.Element?
    ensures EnterF(maxLen, node, st).Ok? ==>
              (|EnterF(maxLen, node, st).value.fragments| == |st.fragments| + 1
               <==> BlockNeed(st, StartTag(node.name, node.attrs), EndTag(node.name)) > maxLen)
  {
  }

  lemma {:induction false} ChildrenFitWhole(maxLen: int, nodes: seq<Node>, st: State)
    requires |st.current| + |SerializeAll(nodes)| + |Closing(st.openTags)| + LONGEST_BLOCK_END_TAG <= maxLen
    ensures ChildrenF(maxLen, nodes, st) == Ok(Append(st, SerializeAll(nodes)))
    decreases nodes, 0
  {
    if nodes == [] {
      assert Append(st, "") == st;
    } else {
      ProcessFitsWhole(maxLen, nodes[0], st);
      var first := Append(st, Serialize(nodes[0]));
      ChildrenFitWhole(maxLen, nodes[1..], first);
      assert first.current + SerializeAll(nodes[1..]) == st.current + SerializeAll(nodes);
    }
  }

  /** No split needed: a document whose markup fits in the budget with room
      for one more block end tag comes out as exactly one fragment equal to
      its markup (none if the markup is empty). */
  lemma SingleFragmentWhenItFits(tree: seq<Node>, maxLen: int)
    requires |SerializeAll(tree)| + LONGEST_BLOCK_END_TAG <= maxLen
    ensures SplitF(tree, maxLen)
            == Ok(if SerializeAll(tree) == "" then [] else [SerializeAll(tree)])
  {
    var markup := SerializeAll(tree);
    ChildrenFitWhole(maxLen, tree, START);
    assert "" + markup == markup;
    assert ChildrenF(maxLen, tree, START) == Ok(State(markup, [], []));
    LastFragment(State(markup, [], []));
  }

  /** Solver helper: the end of the split after a walk that emitted no
      fragment and left nothing open. */
  lemma LastFragment(st: State)
    requires st.openTags == [] && st.fragments == []
    ensures (if st.current != "" then st.fragments + [st.current + Closing(st.openTags)] else st.fragments)
            == (if st.current == "" then [] else [st.current])
  {
    assert Closing([]) == "";
    assert st.current + "" == st.current;
  }

  /** The walk over a run of siblings is the walk over its first part
      followed by the walk over the rest. */
  lemma {:induction false} ChildrenSplitAt(maxLen: int, nodes: seq<Node>, i: nat, st: State)
    requires i <= |nodes|
    requires ChildrenF(maxLen, nodes, st).Ok?
    ensures ChildrenF(maxLen, nodes[..i], st).Ok?
    ensures ChildrenF(maxLen, nodes[i..], ChildrenF(maxLen, nodes[..i], st).value)
            == ChildrenF(maxLen, nodes, st)
    decreases i
  {
    if i > 0 {
      var first := ProcessF(maxLen, nodes[0], st).value;
      ChildrenSplitAt(maxLen, nodes[1..], i - 1, first);
      assert nodes[1..][..i - 1] == nodes[..i][1..];
      assert nodes[1..][i - 1..] == nodes[i..];
    } else {
      assert nodes[..0] == [];
      assert nodes[0..] == nodes;
    }
  }

  /** `s` occurs as one contiguous piece of `t`. */
  ghost predicate Within(s: string, t: string) {
    exists k :: OccursAt(s, t, k)
  }

  predicate OccursAt(s: string, t: string, k: int) {
    0 <= k <= |t| - |s| && t[k..k + |s|] == s
  }

  /** Helper: a piece of a string stays whole in any extension of it. */
  lemma WithinPrefix(s: string, t: string, u: string)
    requires Within(s, t) && t <= u
    ensures Within(s, u)
  {
    var k :| OccursAt(s, t, k);
    assert u[k..k + |s|] == t[k..k + |s|];
    assert OccursAt(s, u, k);
  }

  /** Helper: what is appended to a string appears whole in the result. */
  lemma WithinSuffix(p: string, s: string)
    ensures Within(s, p + s)
  {
    assert (p + s)[|p|..|p| + |s|] == s;
    assert OccursAt(s, p + s, |p|);
  }

  /** `target` is `node` or one of its descendants. */
  ghost predicate Inside(target: Node, node: Node)
    decreases node
  {
    || target == node
    || (node.Element? && exists i :: 0 <= i < |node.children| && Inside(target, node.children[i]))
  }

  /** `m` appears whole in one fragment of `st` or in its buffer. */
  ghost predicate Shows(m: string, st: State) {
    || (exists k :: 0 <= k < |st.fragments| && Within(m, st.fragments[k]))
    || Within(m, st.current)
  }

  /** What appears whole stays whole as the walk goes on. */
  lemma ShowsKept(m: string, a: State, b: State)
    requires Shows(m, a) && Kept(a, b)
    ensures Shows(m, b)
  {
    if k :| 0 <= k < |a.fragments| && Within(m, a.fragments[k]) {
      assert b.fragments[k] == a.fragments[k];
    } else if |b.fragments| == |a.fragments| {
      WithinPrefix(m, a.current, b.current);
    } else {
      WithinPrefix(m, a.current, b.fragments[|a.fragments|]);
      assert 0 <= |a.fragments| < |b.fragments|;
    }
  }

  /** Helper: a piece of a piece is a piece. */
  lemma WithinTransitive(r: string, s: string, t: string)
    requires Within(r, s) && Within(s, t)
    ensures Within(r, t)
  {
    var i :| OccursAt(r, s, i);
    var j :| OccursAt(s, t, j);
    forall x | 0 <= x < |r|
      ensures t[j + i + x] == r[x]
    {
      assert t[j..j + |s|][i + x] == s[i + x];
      assert s[i..i + |r|][x] == s[i + x];
    }
    assert t[j + i..j + i + |r|] == r;
    assert OccursAt(r, t, j + i);
  }

  /** The markup of a descendant appears whole in the markup of the node. */
  lemma {:induction false} InsideSerialized(target: Node, node: Node)
    requires Inside(target, node)
    ensures Within(Serialize(target), Serialize(node))
    decreases node
  {
    if target == node {
      assert OccursAt(Serialize(node), Serialize(node), 0);
    } else {
      var i :| 0 <= i < |node.children| && Inside(target, node.children[i]);
      InsideSerialized(target, node.children[i]);
      ChildSerialized(node.children, i);
      WithinTransitive(Serialize(target), Serialize(node.children[i]), SerializeAll(node.children));
      var start := StartTag(node.name, node.attrs);
      WithinSuffix(start, SerializeAll(node.children));
      WithinTransitive(Serialize(target), SerializeAll(node.children), start + SerializeAll(node.children));
      WithinPrefix(Serialize(target), start + SerializeAll(node.children), Serialize(node));
    }
  }

  lemma {:induction false} ChildSerialized(nodes: seq<Node>, i: nat)
    requires i < |nodes|
    ensures Within(Serialize(nodes[i]), SerializeAll(nodes))
    decreases i
  {
    if i == 0 {
      WithinPrefix(Serialize(nodes[0]), Serialize(nodes[0]), SerializeAll(nodes)) by {
        assert OccursAt(Serialize(nodes[0]), Serialize(nodes[0]), 0);
      }
    } else {
      ChildSerialized(nodes[1..], i - 1);
      assert nodes[1..][i - 1] == nodes[i];
      WithinSuffix(Serialize(nodes[0]), SerializeAll(nodes[1..]));
      WithinTransitive(Serialize(nodes[i]), SerializeAll(nodes[1..]), SerializeAll(nodes));
    }
  }

  /** After the walk over `node`, every non-block element inside it appears
      whole in one fragment or in the buffer. */
  lemma {:induction false} ProcessShowsNonBlock(maxLen: int, node: Node, st: State, out: State, target: Node)
    requires ProcessF(maxLen, node, st) == Ok(out)
    requires target.Element? && !IsBlock(target.name) && Inside(target, node)
    ensures Shows(Serialize(target), out)
    decreases node, 1
  {
    var m := Serialize(target);
    if node.Element? && !IsBlock(node.name) {
      InsideSerialized(target, node);
      NonBlockAppendedWhole(maxLen, node, st, out);
      if out.current == st.current + Serialize(node) {
        WithinSuffix(st.current, Serialize(node));
      } else {
        WithinSuffix(Opening(st.openTags), Serialize(node));
      }
      WithinTransitive(m, Serialize(node), out.current);
    } else {
      assert target != node;
      var i :| 0 <= i < |node.children| && Inside(target, node.children[i]);
      var entered := EnterF(maxLen, node, st).value;
      var inner := ChildrenF(maxLen, node.children, entered).value;
      ChildrenShowNonBlock(maxLen, node.children, entered, inner, target, i);
      CloseKeeps(maxLen, node.name, inner);
      ShowsKept(m, inner, out);
    }
  }

  lemma {:induction false} ChildrenShowNonBlock(maxLen: int, nodes: seq<Node>, st: State, out: State, target: Node, i: nat)
    requires ChildrenF(maxLen, nodes, st) == Ok(out)
    requires i < |nodes|
    requires target.Element? && !IsBlock(target.name) && Inside(target, nodes[i])
    ensures Shows(Serialize(target), out)
    decreases nodes, 0
  {
    ChildrenSplitAt(maxLen, nodes, i, st);
    var before := ChildrenF(maxLen, nodes[..i], st).value;
    assert nodes[i..][1..] == nodes[i + 1..];
    var after := ProcessF(maxLen, nodes[i], before).value;
    assert ChildrenF(maxLen, nodes[i + 1..], after) == Ok(out);
    ProcessShowsNonBlock(maxLen, nodes[i], before, after, target);
    ChildrenKeepBuffer(maxLen, nodes[i + 1..], after, out);
    ShowsKept(Serialize(target), after, out);
  }

  /** A non-block element anywhere in a document that splits without error
      appears whole, as one contiguous piece, in one fragment. */
  lemma NonBlockNeverSliced(tree: seq<Node>, maxLen: int, i: nat, target: Node)
    requires i < |tree|
    requires target.Element? && !IsBlock(target.name) && Inside(target, tree[i])
    requires SplitF(tree, maxLen).Ok?
    ensures exists k :: 0 <= k < |SplitF(tree, maxLen).value| && Within(Serialize(target), SplitF(tree, maxLen).value[k])
  {
    var frags := SplitF(tree, maxLen).value;
    var m := Serialize(target);
    var final := ChildrenF(maxLen, tree, START).value;
    ChildrenShowNonBlock(maxLen, tree, START, final, target, i);
    if k :| 0 <= k < |final.fragments| && Within(m, final.fragments[k]) {
      assert frags[k] == final.fragments[k];
    } else {
      var j :| OccursAt(m, final.current, j);
      assert |m| > 0;
      var last := final.current + Closing(final.openTags);
      WithinPrefix(m, final.current, last);
      assert frags[|frags| - 1] == last;
    }
  }
}
