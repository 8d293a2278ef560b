/**
 * The splitter as the source runs it: one object owns the buffer of the
 * fragment being built, the stack of open block tags and the list of
 * finished fragments, and a recursive walk updates them in place.  Every
 * method is proved to do exactly what the functions of `Segmenter` say.
 */
module MsgSplit {
  import opened Markup
  import opened Segmenter

  /** How one step of the walk ends: normally, or with an error. */
  datatype Outcome = Pass | Fail(error: SplitError)

  class Splitter {
    const maxLen: int
    var current: string
    var openTags: seq<string>
    var fragments: seq<string>

    /** The object's state as a value. */
    function Snapshot(): State
      reads this
    {
      State(current, openTags, fragments)
    }

    /** `r` and the object's state are what `spec` describes: the new state
        on success, the same error on failure. */
    predicate Follows(r: Outcome, spec: Result<State>)
      reads this
    {
      match spec
      case Ok(st) => r == Pass && Snapshot() == st
      case Err(e) => r == Fail(e)
    }

    constructor (maxLen: int)
      ensures this.maxLen == maxLen
      ensures Snapshot() == START
    {
      this.maxLen := maxLen;
      current := "";
      openTags := [];
      fragments := [];
    }

    /** End the fragment with the closing tags of every open element and
        start the next one with their attribute-free start tags. */
    method Flush()
      modifies this
      ensures openTags == old(openTags)
      ensures fragments == old(fragments) + [old(current) + Closing(openTags)]
      ensures current == Opening(openTags)
    {
      var closingTags := Closing(openTags);
      fragments := fragments + [current + closingTags];
      current := Opening(openTags);
    }

    /** The text branch: take as much text as the budget leaves after the
        closing tags, flush when nothing is left, until the text runs out. */
    method ProcessText(text: string) returns (r: Outcome)
      modifies this
      ensures Follows(r, TextF(maxLen, text, 0, old(Snapshot())))
    {
      var idx := 0;
      while idx < |text|
        invariant idx <= |text|
        invariant TextF(maxLen, text, idx, Snapshot()) == TextF(maxLen, text, 0, old(Snapshot()))
        decreases |text| - idx, if SpaceLeft(maxLen, Snapshot()) <= 0 then 1 else 0
      {
        var next, outcome := TextRound(text, idx);
        if outcome.Fail? {
          return outcome;
        }
        idx := next;
      }
      return Pass;
    }

    /** One round of the text loop from read position `idx`: a flush, or
        one chunk taken into the buffer. A round that fails is where the
        loop would flush forever; any other round leaves the rest of the
        loop to compute the same result, and makes progress. */
    method TextRound(text: string, idx: nat) returns (next: nat, r: Outcome)
      requires idx < |text|
      modifies this
      ensures r.Fail? ==> TextF(maxLen, text, idx, old(Snapshot())) == Err(r.error)
      ensures r == Pass ==> next <= |text|
      ensures r == Pass ==> TextF(maxLen, text, next, Snapshot()) == TextF(maxLen, text, idx, old(Snapshot()))
      ensures r == Pass ==>
                || idx < next
                || (next == idx && SpaceLeft(maxLen, old(Snapshot())) <= 0 && SpaceLeft(maxLen, Snapshot()) > 0)
    {
      ghost var before := Snapshot();
      var closingTags := Closing(openTags);
      var spaceLeft := maxLen - |current| - |closingTags|;
      if spaceLeft <= 0 {
        Flush();
        FlushStep(maxLen, text, idx, before, Snapshot());
        closingTags := Closing(openTags);
        if maxLen - |current| - |closingTags| <= 0 {
          // the source would flush this same fragment forever from here
          return idx, Fail(EndlessFlush(current + closingTags));
        }
        return idx, Pass;
      }
      var stop := Min(idx + spaceLeft, |text|);
      var chunk := text[idx..stop];
      current := current + chunk;
      ChunkStep(maxLen, text, idx, before, stop, Snapshot());
      // the read position advances by the length of the chunk
      return stop, Pass;
    }

    /** The walk over one node: the text branch, the block-tag branch and
        the non-block branch. */
    method ProcessNode(node: Node) returns (r: Outcome)
      modifies this
      ensures Follows(r, ProcessF(maxLen, node, old(Snapshot())))
      decreases node, 2
    {
      match node
      case Text(s) =>
        r := ProcessText(s);
      case Element(name, _, _) =>
        if IsBlock(name) {
          r := ProcessBlock(node);
        } else {
          r := ProcessNonBlock(node);
        }
    }

    /** A block element: open it, walk its children, close it. */
    method ProcessBlock(node: Node) returns (r: Outcome)
      requires node.Element?
      modifies this
      ensures Follows(r, BlockF(maxLen, node, old(Snapshot())))
      decreases node, 1
    {
      var children := node.children;
      r := EnterBlock(node);
      if r.Fail? {
        return;
      }
      ghost var entered := Snapshot();
      for i := 0 to |children|
        invariant ChildrenF(maxLen, children[i..], Snapshot()) == ChildrenF(maxLen, children, entered)
      {
        assert children[i..][1..] == children[i + 1..];
        var c := ProcessNode(children[i]);
        if c.Fail? {
          return c;
        }
      }
      assert ChildrenF(maxLen, children, entered) == Ok(Snapshot());
      CloseBlock(node.name);
    }

    /** Before a block element: flush first if its empty form does not fit,
        fail if it is empty and still does not fit, then open it. */
    method EnterBlock(node: Node) returns (r: Outcome)
      requires node.Element?
      modifies this
      ensures Follows(r, EnterF(maxLen, node, old(Snapshot())))
    {
      var startTag, endTag := StartTag(node.name, node.attrs), EndTag(node.name);
      var closingTags := Closing(openTags);
      var potentialLength := |current| + |startTag| + |endTag| + |closingTags|;
      if potentialLength > maxLen {
        Flush();
        closingTags := Closing(openTags);
        potentialLength := |current| + |startTag| + |endTag| + |closingTags|;
        if potentialLength > maxLen && node.children == [] {
          return Fail(BlockElementTooLong(current + closingTags, |current + closingTags|));
        }
      }
      current := current + startTag;
      openTags := openTags + [node.name];
      r := Pass;
    }

    /** After a block element's children: append its end tag and pop it,
        flushing if the end tag does not fit. */
    method CloseBlock(name: string)
      requires openTags != []
      modifies this
      ensures Snapshot() == CloseF(maxLen, name, old(Snapshot()))
    {
      var endTag := EndTag(name);
      var closingTags := Closing(openTags);
      if |current| + |endTag| + |closingTags| > maxLen {
        current := current + endTag;
        openTags := openTags[..|openTags| - 1];
        closingTags := Closing(openTags);
        fragments := fragments + [current + closingTags];
        current := Opening(openTags);
      } else {
        current := current + endTag;
        openTags := openTags[..|openTags| - 1];
      }
    }

    /** A non-block element goes into the buffer whole, or the walk fails. */
    method ProcessNonBlock(node: Node) returns (r: Outcome)
      requires node.Element?
      modifies this
      ensures Follows(r, NonBlockF(maxLen, node, old(Snapshot())))
    {
      var fullTagStr := Serialize(node);
      var closingTags := Closing(openTags);
      if |fullTagStr| > maxLen {
        return Fail(NonBlockTextTooLong(node.name, fullTagStr, |fullTagStr|));
      }
      if |current| + |fullTagStr| + |closingTags| > maxLen {
        Flush();
        closingTags := Closing(openTags);
        if |fullTagStr| + |current| + |closingTags| > maxLen {
          var markup := current + fullTagStr + closingTags;
          return Fail(NonBlockTooLong(node.name, markup, |markup|));
        }
      }
      current := current + fullTagStr;
      r := Pass;
    }
  }

  /** Split a parsed document into fragments meant to be at most `maxLen`
      characters each, every fragment closing the block elements open at
      its end and the next one reopening them; or the error that stopped the
      walk, with no fragments. */
  method SplitMessage(tree: seq<Node>, maxLen: int := MAX_LEN) returns (r: Result<seq<string>>)
    ensures r == SplitF(tree, maxLen)
  {
    var splitter := new Splitter(maxLen);
    for i := 0 to |tree|
      invariant ChildrenF(maxLen, tree[i..], splitter.Snapshot()) == ChildrenF(maxLen, tree, START)
    {
      assert tree[i..][1..] == tree[i + 1..];
      var c := splitter.ProcessNode(tree[i]);
      if c.Fail? {
        return Err(c.error);
      }
    }
    if splitter.current != "" {
      var closingTags := Closing(splitter.openTags);
      splitter.fragments := splitter.fragments + [splitter.current + closingTags];
    }
    return Ok(splitter.fragments);
  }
}
