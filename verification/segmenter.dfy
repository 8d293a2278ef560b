/**
 * The fragment-boundary algorithm as functions over an explicit state:
 * the buffer of the fragment being built, the stack of open block tags and
 * the fragments emitted so far.  Each function follows one branch of the
 * depth-first walk step by step; the imperative `Splitter` class is proved
 * to compute exactly these functions.
 */
module Segmenter {
  import opened Markup

  /** The three ways the walk stops with an error, and the one way the
      walk never stops. */
  datatype SplitError =
      /** A block element with no children does not fit even right after a
          flush; carries the fresh fragment with its closing tags. */
    | BlockElementTooLong(fragment: string, length: nat)
      /** A non-block element's whole markup is longer than the budget. */
    | NonBlockTextTooLong(name: string, markup: string, length: nat)
      /** A non-block element does not fit after the reopening prefix of a
          fresh fragment. */
    | NonBlockTooLong(name: string, markup: string, length: nat)
      /** The text loop has flushed and the reopening prefix plus the
          closing tags already use up the budget: the loop would flush the
          same fragment forever. Carries that fragment. */
    | EndlessFlush(fragment: string)

  /** The default budget: the length limit of one message. */
  const MAX_LEN: int := 4096

  datatype Result<T> = Ok(value: T) | Err(error: SplitError)

  /** The splitter's mutable state. */
  datatype State = State(current: string, openTags: seq<string>, fragments: seq<string>)

  const START: State := State("", [], [])

  function Min(a: int, b: int): int {
    if a <= b then a else b
  }

  /** The concatenation of a sequence of strings. */
  function Concat(ss: seq<string>): string {
    if ss == [] then "" else Concat(ss[..|ss| - 1]) + ss[|ss| - 1]
  }

  /** Everything emitted so far, in order: the fragments, then the buffer. */
  function Flat(st: State): string {
    Concat(st.fragments) + st.current
  }

  /** The budget the closing tags leave for the buffer. */
  function SpaceLeft(maxLen: int, st: State): int {
    maxLen - |st.current| - |Closing(st.openTags)|
  }

  /** End the fragment being built with the closing tags of every open
      element, and start the next one by reopening them. The stack stays,
      one fragment is added after the earlier ones, and the output so far
      grows by exactly the closing tags followed by the reopening prefix. */
  function Flush(st: State): (r: State)
    ensures r.openTags == st.openTags
    ensures r.fragments == st.fragments + [st.current + Closing(st.openTags)]
    ensures r.current == Opening(st.openTags)
    ensures Flat(r) == Flat(st) + Closing(st.openTags) + Opening(st.openTags)
  {
    var fragments := st.fragments + [st.current + Closing(st.openTags)];
    assert fragments[..|fragments| - 1] == st.fragments;
    State(Opening(st.openTags), st.openTags, fragments)
  }

  /** Add text to the buffer: the output so far grows by exactly that text
      and nothing else changes. */
  function Append(st: State, s: string): (r: State)
    ensures r.openTags == st.openTags && r.fragments == st.fragments
    ensures Flat(r) == Flat(st) + s
  {
    st.(current := st.current + s)
  }

  /** The text loop from read position `idx`: fill the buffer up to the
      budget, flushing whenever it is full. It leaves the stack alone, only
      adds fragments, and when it has taken any text, the last chunk keeps
      the buffer and its closing tags within the budget. */
  function TextF(maxLen: int, text: string, idx: nat, st: State): (r: Result<State>)
    requires idx <= |text|
    ensures r.Ok? ==> r.value.openTags == st.openTags
    ensures r.Ok? ==> st.fragments <= r.value.fragments
    ensures r.Ok? && idx < |text| ==> SpaceLeft(maxLen, r.value) >= 0
    decreases |text| - idx, if SpaceLeft(maxLen, st) <= 0 then 1 else 0
  {
    if idx == |text| then Ok(st)
    else if SpaceLeft(maxLen, st) <= 0 then
      var flushed := Flush(st);
      if SpaceLeft(maxLen, flushed) <= 0 then Err(EndlessFlush(flushed.current + Closing(flushed.openTags)))
      else TextF(maxLen, text, idx, flushed)
    else
      var chunk := text[idx..Min(idx + SpaceLeft(maxLen, st), |text|)];
      TextF(maxLen, text, idx + |chunk|, Append(st, chunk))
  }

  /** Solver helper: `TextF` unfolded once, on its flush branch. */
  lemma FlushStep(maxLen: int, text: string, idx: nat, st: State, next: State)
    requires idx < |text|
    requires SpaceLeft(maxLen, st) <= 0 && next == Flush(st)
    ensures TextF(maxLen, text, idx, st)
            == if SpaceLeft(maxLen, next) <= 0 then Err(EndlessFlush(next.current + Closing(next.openTags)))
               else TextF(maxLen, text, idx, next)
  {
  }

  /** Solver helper: `TextF` unfolded once, on its chunk branch, with the
      end `stop` of the chunk named so that callers can refer to it. */
  lemma ChunkStep(maxLen: int, text: string, idx: nat, st: State, stop: nat, next: State)
    requires idx < |text| && SpaceLeft(maxLen, st) > 0
    requires stop == Min(idx + SpaceLeft(maxLen, st), |text|)
    requires next == Append(st, text[idx..stop])
    ensures idx < stop <= |text| && stop == idx + |text[idx..stop]|
    ensures TextF(maxLen, text, idx, st) == TextF(maxLen, text, stop, next)
  {
  }

  /** The space a block element needs with no content: its start and end
      tags plus the closing tags of the elements already open. */
  function BlockNeed(st: State, start: string, end: string): int {
    |st.current| + |start| + |end| + |Closing(st.openTags)|
  }

  /** Close a block element after its children: append its end tag and
      pop it; flush if the end tag, counted once more together with the
      closing tags of the stack before the pop, passes the budget. */
  function CloseF(maxLen: int, name: string, st: State): (r: State)
    requires st.openTags != []
    ensures r.openTags == st.openTags[..|st.openTags| - 1]
    ensures st.fragments <= r.fragments && |r.fragments| <= |st.fragments| + 1
  {
    var end := EndTag(name);
    var closed := State(st.current + end, st.openTags[..|st.openTags| - 1], st.fragments);
    assert Flat(closed) == Flat(st) + end;
    if |st.current| + |end| + |Closing(st.openTags)| > maxLen then Flush(closed) else closed
  }

  /** The walk over one node. On success the stack of open tags is what it
      was before the call and the fragments emitted before the call are
      kept as they were. */
  function ProcessF(maxLen: int, node: Node, st: State): (r: Result<State>)
    ensures r.Ok? ==> r.value.openTags == st.openTags
    ensures r.Ok? ==> st.fragments <= r.value.fragments
    decreases node, 2
  {
    match node
    case Text(s) => TextF(maxLen, s, 0, st)
    case Element(name, _, _) =>
      if IsBlock(name) then BlockF(maxLen, node, st) else NonBlockF(maxLen, node, st)
  }

  /** Before a block element: flush if its empty form does not fit; fail if
      it has no children and still does not fit; then open it. */
  function EnterF(maxLen: int, node: Node, st: State): (r: Result<State>)
    requires node.Element?
    ensures r.Ok? ==> r.value.openTags == st.openTags + [node.name]
    ensures r.Ok? ==> st.fragments <= r.value.fragments
  {
    var start, end := StartTag(node.name, node.attrs), EndTag(node.name);
    var ready :=
      if BlockNeed(st, start, end) > maxLen then
        var flushed := Flush(st);
        if BlockNeed(flushed, start, end) > maxLen && node.children == [] then
          Err(BlockElementTooLong(flushed.current + Closing(flushed.openTags),
                                  |flushed.current + Closing(flushed.openTags)|))
        else Ok(flushed)
      else Ok(st);
    if ready.Err? then ready
    else Ok(State(ready.value.current + start, ready.value.openTags + [node.name], ready.value.fragments))
  }

  /** A block element: open it, walk its children, close it. */
  function BlockF(maxLen: int, node: Node, st: State): (r: Result<State>)
    requires node.Element?
    ensures r.Ok? ==> r.value.openTags == st.openTags
    ensures r.Ok? ==> st.fragments <= r.value.fragments
    decreases node, 1
  {
    var entered := EnterF(maxLen, node, st);
    if entered.Err? then entered
    else
      var inner := ChildrenF(maxLen, node.children, entered.value);
      if inner.Err? then inner
      else Ok(CloseF(maxLen, node.name, inner.value))
  }

  /** A non-block element goes in whole: fail if its markup is longer than
      the budget, flush if it does not fit in the buffer, fail if it does not
      fit after the reopening prefix either. */
  function NonBlockF(maxLen: int, node: Node, st: State): (r: Result<State>)
    requires node.Element?
    ensures r.Ok? ==> r.value.openTags == st.openTags
    ensures r.Ok? ==> st.fragments <= r.value.fragments
  {
    var full := Serialize(node);
    if |full| > maxLen then Err(NonBlockTextTooLong(node.name, full, |full|))
    else if |st.current| + |full| + |Closing(st.openTags)| > maxLen then
      var flushed := Flush(st);
      if |full| + |flushed.current| + |Closing(flushed.openTags)| > maxLen then
        Err(NonBlockTooLong(node.name, flushed.current + full + Closing(flushed.openTags),
                            |flushed.current + full + Closing(flushed.openTags)|))
      else Ok(Append(flushed, full))
    else Ok(Append(st, full))
  }

  /** The walk over a sequence of siblings, in order, stopping at the first
      error. */
  function ChildrenF(maxLen: int, nodes: seq<Node>, st: State): (r: Result<State>)
    ensures r.Ok? ==> r.value.openTags == st.openTags
    ensures r.Ok? ==> st.fragments <= r.value.fragments
    decreases nodes, 0
  {
    if nodes == [] then Ok(st)
    else
      var first := ProcessF(maxLen, nodes[0], st);
      if first.Err? then first else ChildrenF(maxLen, nodes[1..], first.value)
  }

  /** The whole split: walk the top-level nodes from an empty state, then
      emit the buffer if it is not empty. It fails exactly when the walk
      fails, with the walk's error; otherwise the fragments the walk emitted
      come first and the fragments together hold everything the walk
      emitted, with no element left open at the end. */
  function SplitF(tree: seq<Node>, maxLen: int): (r: Result<seq<string>>)
    ensures r.Err? <==> ChildrenF(maxLen, tree, START).Err?
    ensures r.Err? ==> r.error == ChildrenF(maxLen, tree, START).error
    ensures r.Ok? ==> ChildrenF(maxLen, tree, START).value.fragments <= r.value
  {
    var walked := ChildrenF(maxLen, tree, START);
    if walked.Err? then Err(walked.error)
    else
      var st := walked.value;
      var last := st.fragments + [st.current + Closing(st.openTags)];
      assert last[..|last| - 1] == st.fragments;
      Ok(if st.current != "" then last else st.fragments)
  }
}
