/**
 * What the text loop guarantees: it never drops or repeats a character,
 * it stops only when the reopening prefix and the closing tags leave no
 * room (and then it would flush forever), and every fragment it emits is
 * framed by the reopening prefix and the closing tags.
 */
module TextProperties {
  import opened Markup
  import opened Segmenter

  /** A stretch of the document's markup as the walk emits it, preceded by
      the boundary of the elements `open` at that point when `cut` holds. */
  datatype Span = Span(cut: bool, open: seq<string>, text: string)

  /** The boundary emitted before a span: nothing, or the closing tags and
      then the reopening prefix of the elements open there. */
  function Boundary(span: Span): string {
    if span.cut then Closing(span.open) + Opening(span.open) else ""
  }

  /** What the spans add to the output: each boundary, then its stretch. */
  function Woven(spans: seq<Span>): string {
    if spans == [] then "" else Boundary(spans[0]) + spans[0].text + Woven(spans[1..])
  }

  /** The markup the spans carry, boundaries removed. */
  function Plain(spans: seq<Span>): string {
    if spans == [] then "" else spans[0].text + Plain(spans[1..])
  }

  /** Text is neither dropped nor duplicated: the output grows by the rest
      of the text, in order, with boundaries of the open elements inserted
      between its stretches; `spans` are those stretches. */
  lemma {:induction false} TextKeepsEveryCharacter(maxLen: int, text: string, idx: nat, st: State, out: State)
    returns (spans: seq<Span>)
    requires idx <= |text|
    requires TextF(maxLen, text, idx, st) == Ok(out)
    ensures Plain(spans) == text[idx..]
    ensures forall k | 0 <= k < |spans| :: spans[k].open == st.openTags
    ensures Flat(out) == Flat(st) + Woven(spans)
    decreases |text| - idx, if SpaceLeft(maxLen, st) <= 0 then 1 else 0
  {
    if idx == |text| {
      spans := [];
    } else if SpaceLeft(maxLen, st) <= 0 {
      var flushed := Flush(st);
      FlushStep(maxLen, text, idx, st, flushed);
      var rest := TextKeepsEveryCharacter(maxLen, text, idx, flushed, out);
      spans := FlushSpan(st, rest, out);
    } else {
      var j := Min(idx + SpaceLeft(maxLen, st), |text|);
      var chunk := text[idx..j];
      var next := Append(st, chunk);
      ChunkStep(maxLen, text, idx, st, j, next);
      var rest := TextKeepsEveryCharacter(maxLen, text, j, next, out);
      spans := ChunkSpan(st, chunk, rest, out);
      SliceAt(text, idx, j);
    }
  }

  /** Solver helper: a suffix is the slice up to `j` followed by the suffix
      from `j`. */
  lemma SliceAt(s: string, i: nat, j: nat)
    requires i <= j <= |s|
    ensures s[i..] == s[i..j] + s[j..]
  {
  }

  lemma FlushSpan(st: State, rest: seq<Span>, out: State) returns (spans: seq<Span>)
    requires Flat(out) == Flat(Flush(st)) + Woven(rest)
    requires forall k | 0 <= k < |rest| :: rest[k].open == st.openTags
    ensures Plain(spans) == Plain(rest)
    ensures forall k | 0 <= k < |spans| :: spans[k].open == st.openTags
    ensures Flat(out) == Flat(st) + Woven(spans)
  {
    var head := Span(true, st.openTags, "");
    spans := [head] + rest;
    SameStack(head, rest, st.openTags);
    var before, closing, opening := Flat(st), Closing(st.openTags), Opening(st.openTags);
    Assoc(before, closing, opening);
    assert before + Boundary(head) + head.text == before + (closing + opening);
    PrependSpan(before, head, rest, Flat(Flush(st)), Flat(out));
  }

  lemma ChunkSpan(st: State, chunk: string, rest: seq<Span>, out: State) returns (spans: seq<Span>)
    requires Flat(out) == Flat(Append(st, chunk)) + Woven(rest)
    requires forall k | 0 <= k < |rest| :: rest[k].open == st.openTags
    ensures Plain(spans) == chunk + Plain(rest)
    ensures forall k | 0 <= k < |spans| :: spans[k].open == st.openTags
    ensures Flat(out) == Flat(st) + Woven(spans)
  {
    var head := Span(false, st.openTags, chunk);
    spans := [head] + rest;
    SameStack(head, rest, st.openTags);
    var before := Flat(st);
    assert before + Boundary(head) == before;
    PrependSpan(before, head, rest, Flat(Append(st, chunk)), Flat(out));
  }

  /** Solver helper: a span under `stack` prepended to spans under `stack`. */
  lemma SameStack(head: Span, rest: seq<Span>, stack: seq<string>)
    requires head.open == stack
    requires forall k | 0 <= k < |rest| :: rest[k].open == stack
    ensures forall k | 0 <= k < |[head] + rest| :: ([head] + rest)[k].open == stack
  {
  }

  /** Solver helper: output that reaches `mid` by emitting `span` after
      `prefix`, then grows by the rest, is `prefix` followed by all of the
      spans. */
  lemma PrependSpan(prefix: string, span: Span, rest: seq<Span>, mid: string, out: string)
    requires mid == prefix + Boundary(span) + span.text
    requires out == mid + Woven(rest)
    ensures Plain([span] + rest) == span.text + Plain(rest)
    ensures out == prefix + Woven([span] + rest)
  {
    assert ([span] + rest)[1..] == rest;
    assert Woven([span] + rest) == Boundary(span) + span.text + Woven(rest);
    Assoc(prefix, Boundary(span) + span.text, Woven(rest));
    Assoc(prefix, Boundary(span), span.text);
  }

  /** The text loop fails only by flushing forever, and only when the
      reopening prefix and the closing tags together reach the budget. */
  lemma {:induction false} TextFailsOnlyByEndlessFlush(maxLen: int, text: string, idx: nat, st: State)
    requires idx <= |text|
    requires TextF(maxLen, text, idx, st).Err?
    ensures TextF(maxLen, text, idx, st).error
            == EndlessFlush(Opening(st.openTags) + Closing(st.openTags))
    ensures |Opening(st.openTags)| + |Closing(st.openTags)| >= maxLen
    decreases |text| - idx, if SpaceLeft(maxLen, st) <= 0 then 1 else 0
  {
    if SpaceLeft(maxLen, st) <= 0 {
      var flushed := Flush(st);
      FlushStep(maxLen, text, idx, st, flushed);
      if SpaceLeft(maxLen, flushed) > 0 {
        TextFailsOnlyByEndlessFlush(maxLen, text, idx, flushed);
      }
    } else {
      var j := Min(idx + SpaceLeft(maxLen, st), |text|);
      var chunk := text[idx..j];
      var next := Append(st, chunk);
      ChunkStep(maxLen, text, idx, st, j, next);
      TextFailsOnlyByEndlessFlush(maxLen, text, j, next);
    }
  }

  /** When the reopening prefix and the closing tags leave room for at least
      one character, the text loop always ends normally. */
  lemma TextEndsWhenReopenFits(maxLen: int, text: string, idx: nat, st: State)
    requires idx <= |text|
    requires |Opening(st.openTags)| + |Closing(st.openTags)| < maxLen
    ensures TextF(maxLen, text, idx, st).Ok?
  {
    if TextF(maxLen, text, idx, st).Err? {
      TextFailsOnlyByEndlessFlush(maxLen, text, idx, st);
    }
  }

  /** The state the loop stops in when it reports an endless flush is a
      fixed point of its body: the guard still holds, the flush branch is
      taken again, and the flush leaves buffer and stack as they were while
      appending the same fragment. */
  lemma EndlessFlushRepeats(maxLen: int, text: string, idx: nat, st: State)
    requires idx < |text|
    requires st.current == Opening(st.openTags)
    requires SpaceLeft(maxLen, st) <= 0
    ensures TextF(maxLen, text, idx, st) == Err(EndlessFlush(st.current + Closing(st.openTags)))
    ensures Flush(st).current == st.current && Flush(st).openTags == st.openTags
    ensures Flush(st).fragments[|st.fragments|] == Flush(Flush(st)).fragments[|st.fragments| + 1]
  {
  }

  /** Every fragment the text loop emits starts with the reopening prefix
      and ends with the closing tags of the open elements, and the buffer it
      leaves starts with the reopening prefix, provided the buffer it was
      given did. */
  lemma {:induction false} TextFramesFragments(maxLen: int, text: string, idx: nat, st: State, out: State)
    requires idx <= |text|
    requires Opening(st.openTags) <= st.current
    requires TextF(maxLen, text, idx, st) == Ok(out)
    ensures Opening(st.openTags) <= out.current
    ensures forall k | |st.fragments| <= k < |out.fragments| :: Framed(out.fragments[k], st.openTags)
    decreases |text| - idx, if SpaceLeft(maxLen, st) <= 0 then 1 else 0
  {
    if idx == |text| {
    } else if SpaceLeft(maxLen, st) <= 0 {
      var flushed := Flush(st);
      FlushStep(maxLen, text, idx, st, flushed);
      FlushFrames(st);
      TextFramesFragments(maxLen, text, idx, flushed, out);
      forall k | |st.fragments| <= k < |out.fragments|
        ensures Framed(out.fragments[k], st.openTags)
      {
        if k == |st.fragments| {
          assert out.fragments[k] == flushed.fragments[k];
        }
      }
    } else {
      var j := Min(idx + SpaceLeft(maxLen, st), |text|);
      var chunk := text[idx..j];
      var next := Append(st, chunk);
      ChunkStep(maxLen, text, idx, st, j, next);
      assert Opening(st.openTags) <= next.current;
      TextFramesFragments(maxLen, text, j, next, out);
    }
  }

  /** A flush from a buffer that starts with the reopening prefix emits a
      framed fragment and leaves a buffer that starts with it again. */
  lemma FlushFrames(st: State)
    requires Opening(st.openTags) <= st.current
    ensures Framed(Flush(st).fragments[|st.fragments|], st.openTags)
    ensures Opening(st.openTags) <= Flush(st).current
  {
    var fragment := st.current + Closing(st.openTags);
    assert Flush(st).fragments[|st.fragments|] == fragment;
    assert fragment[|fragment| - |Closing(st.openTags)|..] == Closing(st.openTags);
  }

  /** A fragment that begins by reopening and ends by closing the elements
      of `stack`. */
  predicate Framed(fragment: string, stack: seq<string>) {
    && Opening(stack) <= fragment
    && |Closing(stack)| <= |fragment|
    && fragment[|fragment| - |Closing(stack)|..] == Closing(stack)
  }
}
