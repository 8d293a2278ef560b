# msg_split: splitting an HTML message into length-limited fragments

`split_message` takes an HTML message and a length budget `max_len` (4096 by
default). It cuts the message into fragments that can be sent one by one. It
walks the parsed document depth-first and keeps three pieces of state:

- the buffer of the fragment being built;
- the stack of open block tags (`p`, `b`, `strong`, `i`, `ul`, `ol`, `div`,
  `span`);
- the list of finished fragments.

A run of text may be divided anywhere. The content of a block element may be
divided between fragments. A non-block element (a link, say) goes into one
fragment whole. At each cut, the walk ends the fragment with the end tags of
every open block element, innermost first. It starts the next fragment with
their start tags, outermost first and without attributes.

The model has these modules:

- `Markup` holds the parsed tree, the block tags, and the serialisation of
  tags and subtrees.
- `Segmenter` holds the algorithm as functions over an explicit `State`, one
  function per branch of the walk. The source's three errors and its
  endless loop are distinct `SplitError` values.
- `MsgSplit` holds the splitter as the source runs it. A `Splitter` object
  owns the buffer, the stack and the fragment list, and its methods update
  them in place. The text branch is a `while` loop. Each method is proved to
  compute exactly the function of `Segmenter` for its branch.
- `TextProperties`, `BudgetProperties`, `StructureProperties` and
  `ContentProperties` prove what the algorithm guarantees.
- `Scenarios` works through the repository's unit-test documents and small
  documents that show the algorithm's edge behaviour.

Behaviour at the edges, modelled as the code does it:

- The text loop has no guard against a budget that the reopening prefix and
  the closing tags already fill. In that case it flushes the same fragment
  forever. The model returns `EndlessFlush` right after a flush that leaves
  the buffer with no room, before the next flush. That next flush is the
  one the source would repeat forever. `EndlessFlushRepeats` shows that the
  state reached is a fixed point of the loop body.
- When a block element closes, its end tag is counted twice, because the
  closing string is built before the pop. A document exactly `max_len` long
  can therefore be split (`EndTagCountedTwice`).
- A block element with children is opened even when it does not fit after a
  flush. The fragment that holds it can then exceed the budget
  (`OverBudgetBlockWithChildren`).
- A flush with an empty buffer emits an empty fragment
  (`OverBudgetBlockWithChildren`).
- The source raises three distinct errors (msg_split.py:51, :78, :84):
  `BlockElementTooLong`, `NonBlockTextTooLong` and `NonBlockTooLong`. Every
  fragment is built before the first one is yielded. So a failure produces
  no fragment, and the model returns only the error.

## Model

| member | source | states |
|---|---|---|
| Markup.AttrText | msg_split.py:34 | no attributes give no text; otherwise the text starts with a space and each attribute adds at least its space, `=` and two quotes |
| Markup.StartTag | msg_split.py:34-35 | a start tag is `<name` plus each attribute as ` k="v"` in insertion order plus `>`; it is two characters longer than the name when there are no attributes |
| Markup.EndTag | msg_split.py:36 | an end tag is `</name>`, three characters longer than the name |
| Markup.BlockEndTagBound | msg_split.py:5 | no block tag's end tag is longer than `</strong>` (9 characters) |
| Markup.Serialize | msg_split.py:75 | an element's markup begins with its start tag, attributes included, and ends with its end tag; `InsideSerialized` and `ChildSerialized` state that nested markup appears whole in it |
| Markup.SerializeAll | msg_split.py:75 | no siblings give no markup, and a single child's markup is its own |
| Markup.Opening | msg_split.py:27 | the reopening prefix has at least two characters per open element; `Closing` relates its length to the closing tags and `BoundaryMarkupIsBalanced` and `PushTag` state its shape |
| Markup.Closing | msg_split.py:21 | the closing tags of the open elements are one character longer per element than their reopening prefix |
| Markup.PushTag | msg_split.py:53-54 | pushing a tag appends its bare start tag to the reopening prefix and puts its end tag in front of the closing tags |
| Markup.BoundaryMarkupIsBalanced | msg_split.py:21-27 | the reopening prefix and the closing tags around any markup are exactly the markup of the chain of attribute-free open elements wrapped around it, so putting the boundary markup around well-nested markup keeps it well nested |
| Segmenter.Flush | msg_split.py:25-27 | a flush keeps the stack and the earlier fragments and adds one fragment; everything emitted so far (fragments, then buffer) grows by exactly the closing tags followed by the reopening prefix |
| Segmenter.Append | msg_split.py:30 | appending to the buffer (also at msg_split.py:86) grows everything emitted so far by exactly that text and changes nothing else |
| Segmenter.TextF | msg_split.py:16-31 | the text loop leaves the stack unchanged and only appends fragments; once it has taken text, the buffer plus the closing tags fit the budget |
| Segmenter.EnterF | msg_split.py:33-54 | entering a block element pushes its name and only appends fragments |
| Segmenter.BlockF | msg_split.py:33-71 | a block element that succeeds restores the stack and only appends fragments |
| Segmenter.CloseF | msg_split.py:60-71 | closing a block element pops it, keeps the earlier fragments and adds at most one; `CloseAddsEndTag`, `CloseKeeps` and `CloseKeepsBudget` state what it emits |
| Segmenter.NonBlockF | msg_split.py:73-86 | a non-block element that succeeds leaves the stack unchanged and only appends fragments |
| Segmenter.ProcessF | msg_split.py:13-86 | after the walk over any node succeeds, the stack is what it was before the call and earlier fragments are kept |
| Segmenter.ChildrenF | msg_split.py:56-57 | the walk over siblings, stopping at the first error, restores the stack and keeps earlier fragments |
| Segmenter.SplitF | msg_split.py:88-97 | the split fails exactly when the walk fails, with the walk's error; on success the walk's fragments come first; `SplitKeepsOutput`, `FragmentsWithinBudget`, `SingleFragmentWhenItFits` and `NonBlockNeverSliced` state what the fragments hold |
| MsgSplit.Splitter.constructor | msg_split.py:9-11 | the splitter starts with an empty buffer, no open tags and no fragments |
| MsgSplit.Splitter.Flush | msg_split.py:25-27 | the in-place flush produces exactly the new buffer, stack and fragment list of `Segmenter.Flush` |
| MsgSplit.Splitter.ProcessText | msg_split.py:16-31 | the `while` loop over the text leaves the object in the state `TextF` describes, or reports the endless flush |
| MsgSplit.Splitter.TextRound | msg_split.py:20-31 | one round of the loop, a flush or one chunk, either fails where `TextF` reports the endless flush, or leaves the rest of `TextF` unchanged and makes progress |
| MsgSplit.Splitter.ProcessNode | msg_split.py:13-86 | the in-place walk over a node leaves the object in the state `ProcessF` describes, or fails with the same error |
| MsgSplit.Splitter.ProcessBlock | msg_split.py:33-71 | the block branch's entry, loop over children and close leave the object in the state `BlockF` describes, or fail with the same error |
| MsgSplit.Splitter.EnterBlock | msg_split.py:33-54 | the flush, the re-check, the error for an empty element and the push leave the object in the state `EnterF` describes, or fail with `BlockElementTooLong` |
| MsgSplit.Splitter.CloseBlock | msg_split.py:60-71 | appending the end tag, the pop and the flush when the end tag does not fit leave the object in the state `CloseF` describes |
| MsgSplit.Splitter.ProcessNonBlock | msg_split.py:73-86 | the non-block branch leaves the object in the state `NonBlockF` describes, or fails with the same error |
| MsgSplit.SplitMessage | msg_split.py:7-97 | the whole split returns the fragments `SplitF` describes (the final buffer only if non-empty), or the first error and no fragments |
| TextProperties.TextKeepsEveryCharacter | msg_split.py:17-31 | text is neither dropped nor repeated: the stretches the loop appends concatenate to the rest of the text, and the output grows by those stretches with only boundaries of the current stack of open elements between them |
| TextProperties.TextFailsOnlyByEndlessFlush | msg_split.py:19-28 | the text loop fails only by flushing forever, only when the reopening prefix and the closing tags reach the budget, and it reports that repeated fragment |
| TextProperties.TextEndsWhenReopenFits | msg_split.py:19-31 | when the reopening prefix and the closing tags leave room for one character, the text loop ends normally |
| TextProperties.EndlessFlushRepeats | msg_split.py:23-28 | in the reported state the guard still holds and a flush leaves buffer and stack unchanged while emitting the same fragment again |
| TextProperties.TextFramesFragments | msg_split.py:21-27 | every fragment the text loop emits starts with the reopening prefix and ends with the closing tags, and the buffer it leaves still starts with the reopening prefix |
| TextProperties.FlushFrames | msg_split.py:25-27 | a flush from a buffer that starts with the reopening prefix emits a fragment that starts with it and ends with the closing tags, and the new buffer starts with it again |
| ContentProperties.CloseAddsEndTag | msg_split.py:60-71 | closing a block element adds to the output either its end tag alone or its end tag followed by the closing tags and reopening prefix of the elements still open |
| ContentProperties.SplitKeepsOutput | msg_split.py:91-94 | the final step loses nothing: the fragments together are exactly what the walk emitted, buffer included |
| BudgetProperties.FlushKeepsFragments | msg_split.py:25 | a flush from within the budget emits a fragment within the budget |
| BudgetProperties.FlushKeepsBudget | msg_split.py:25-27 | a flush from within the budget stays within it, buffer included, when the reopening prefix and the closing tags fit together |
| BudgetProperties.TextKeepsBudget | msg_split.py:21-31 | the text loop keeps the buffer plus the closing tags within the budget, and every fragment within it |
| BudgetProperties.EnterKeepsBudget | msg_split.py:38-54 | opening a block element whose empty form fits after its reopening prefix keeps the budget invariant |
| BudgetProperties.CloseKeepsBudget | msg_split.py:60-71 | closing a block element keeps the budget invariant |
| BudgetProperties.ProcessKeepsBudget | msg_split.py:13-86 | the walk over a node keeps the budget invariant when every block element in it fits empty after its reopening prefix |
| BudgetProperties.BlockKeepsBudget | msg_split.py:33-71 | a block element keeps the budget invariant when it and every block element inside it fit empty after their reopening prefix |
| BudgetProperties.NonBlockKeepsBudget | msg_split.py:73-86 | a non-block element that succeeds keeps the budget invariant |
| BudgetProperties.ChildrenKeepBudget | msg_split.py:56-57 | the walk over siblings keeps the budget invariant under the same condition |
| BudgetProperties.FragmentsWithinBudget | msg_split.py:7-97 | under that condition every fragment of a successful split is at most `max_len` characters long |
| StructureProperties.FlushKeeps | msg_split.py:25-27 | a flush puts the whole buffer at the start of the new fragment |
| StructureProperties.TextKeepsBuffer | msg_split.py:19-31 | the text loop never cuts what the buffer held |
| StructureProperties.CloseKeeps | msg_split.py:60-71 | closing a block element never cuts what the buffer held |
| StructureProperties.ProcessKeepsBuffer | msg_split.py:13-86 | the walk over any node never cuts the buffer: what it held starts one fragment or the buffer |
| StructureProperties.BlockKeepsBuffer | msg_split.py:33-71 | a block element never cuts what the buffer held |
| StructureProperties.EnterKeeps | msg_split.py:38-54 | opening a block element never cuts what the buffer held |
| StructureProperties.NonBlockKeepsBuffer | msg_split.py:79-86 | a non-block element never cuts what the buffer held |
| StructureProperties.ChildrenKeepBuffer | msg_split.py:56-57 | the same for a run of siblings |
| StructureProperties.NonBlockAppendedWhole | msg_split.py:79-86 | a non-block element that succeeds fits the budget and goes whole at the end of the buffer or of the reopening prefix after one flush; the buffer plus the closing tags then fit the budget |
| StructureProperties.NonBlockTooLongFails | msg_split.py:75-78 | a non-block element whose markup is longer than the budget fails with the error naming it, its markup and its length, whatever the state |
| StructureProperties.EnterFailsExactly | msg_split.py:38-53 | opening a block element fails if and only if it has no children and its empty form fits neither in the buffer nor after a flush; the error carries the reopening prefix and closing tags |
| StructureProperties.ProcessFitsWhole | msg_split.py:13-86 | a node whose markup fits the buffer with room for one more block end tag is appended whole with no flush |
| StructureProperties.BlockFitsWhole | msg_split.py:33-71 | a block element whose markup fits the buffer with room for one more block end tag is opened, walked and closed with no flush, adding exactly its markup |
| StructureProperties.ChildrenFitWhole | msg_split.py:56-57 | the same for a run of siblings |
| StructureProperties.SingleFragmentWhenItFits | msg_split.py:88-94 | a document that fits with room for one more block end tag comes out as one fragment equal to its markup, or none if it is empty |
| StructureProperties.ChildrenSplitAt | msg_split.py:88-89 | the walk over a run of siblings is the walk over a prefix followed by the walk over the rest |
| StructureProperties.ShowsKept | msg_split.py:13-86 | what appears whole in a fragment or in the buffer stays whole as the walk goes on |
| StructureProperties.InsideSerialized | msg_split.py:75 | the markup of a descendant appears whole in the markup of its ancestor |
| StructureProperties.ChildSerialized | msg_split.py:75 | the markup of a child appears whole in the markup of its siblings |
| StructureProperties.ProcessShowsNonBlock | msg_split.py:73-86 | after the walk over a node, every non-block element inside it appears whole in one fragment or in the buffer |
| StructureProperties.ChildrenShowNonBlock | msg_split.py:56-57 | the same for the walk over a run of siblings |
| StructureProperties.NonBlockNeverSliced | msg_split.py:79-86 | a non-block element at any depth of a document that splits without error appears whole in one fragment |
| StructureProperties.CloseFlushesExactly | msg_split.py:60-71 | closing a block element emits a fragment if and only if the buffer, the end tag counted twice and the closing tags of the elements still open exceed the budget |
| StructureProperties.EnterFlushesExactly | msg_split.py:38-54 | opening a block element that succeeds emits a fragment if and only if its empty form and the closing tags do not fit after the buffer |
| ContentProperties.ProcessKeepsContent | msg_split.py:13-86 | the walk over one node adds to the output the node's markup in order, with nothing inserted but boundaries (closing tags then reopening prefix) |
| ContentProperties.BlockKeepsContent | msg_split.py:33-71 | a block element adds its start tag, its children's markup and its end tag, in that order, with only boundaries inserted |
| ContentProperties.EnterKeepsContent | msg_split.py:38-54 | opening a block element adds its start tag, preceded by a boundary of the elements open before it exactly when its empty form and the closing tags do not fit after the buffer |
| ContentProperties.CloseKeepsContent | msg_split.py:60-71 | closing a block element adds its end tag first, then a boundary of the elements still open exactly when the buffer, the end tag and the closing tags before the pop exceed the budget, and nothing else |
| ContentProperties.NonBlockKeepsContent | msg_split.py:73-86 | a non-block element adds its whole markup as one stretch, preceded by a boundary of the open elements exactly when it did not fit after the buffer |
| ContentProperties.ChildrenKeepContent | msg_split.py:56-57 | a run of siblings adds their markup in document order with only boundaries inserted |
| ContentProperties.SplitKeepsContent | msg_split.py:88-97 | the fragments of a successful split, concatenated, are the document's markup with only boundaries inserted; removing the boundaries gives the document's markup back |
| Scenarios.NoSplitNeeded | unit_test.py:18-24 | `<p>Hello World!</p>` with budget 1000 is one fragment equal to the source |
| Scenarios.UnbreakableTagTooLong | unit_test.py:26-32 | an `a` element holding 5000 characters with budget 1000 fails with `NonBlockTextTooLong` naming `a`, its markup and length 5007 |
| Scenarios.LinkNeverSliced | unit_test.py:43-49 | in a document of paragraphs with a link, each link appears whole in one fragment |
| Scenarios.LongParagraphSplits | unit_test.py:7-16 | one paragraph of any text with a budget of at least 8 splits without error into fragments within the budget, each starting with `<p>` and ending with `</p>` |
| Scenarios.ParagraphFragmentsFramed | unit_test.py:7-16 | every fragment of a one-paragraph split starts with `<p>` and ends with `</p>` |
| Scenarios.ParagraphWalk | msg_split.py:33-71 | the walk over one paragraph with a budget of at least 8 ends normally and its result is the fragments of its text loop plus the closed buffer |
| Scenarios.PreserveStructure | unit_test.py:34-41 | the `div` of three paragraphs with budget 50 splits into two fragments, each opening and closing the `div` |
| Scenarios.DivOfParagraphs | unit_test.py:34-41 | the same for any three paragraph texts of 11 characters |
| Scenarios.ParagraphsInDiv | msg_split.py:56-57 | inside the open `div`, the three paragraphs cause exactly one flush, at the close of the second |
| Scenarios.SecondParagraphFlushesAtClose | msg_split.py:60-68 | the second paragraph fits, but its end tag counted twice forces a flush at its close |
| Scenarios.OverBudgetBlockWithChildren | msg_split.py:40-54 | a `p` with an attribute and budget 12 emits an empty fragment and then a 13-character fragment |
| Scenarios.AttributedFragmentNotFramed | msg_split.py:35-54 | the over-budget fragment that holds an attributed start tag does not begin with the attribute-free reopening prefix |
| Scenarios.EndTagCountedTwice | msg_split.py:60-68 | a 19-character document with budget 19 is split in two |
| Scenarios.DivWithParagraph | msg_split.py:60-68 | the same for any one-character text |
| Scenarios.InnerParagraphFlushesAtClose | msg_split.py:60-68 | the paragraph inside that `div` forces a flush when it closes |
| Scenarios.EndlessFlushInParagraph | msg_split.py:19-28 | a paragraph with text and budget 7 flushes `<p></p>` forever |

## Left out

- HTML parsing (msg_split.py:8). The model takes the parsed tree as input.
  Comments, doctypes and other string-like nodes of the parser are text
  nodes to the splitter, and the model has only `Text` for them. Turning
  markup into that tree is not part of this model.
- The parser library's own rendering of a non-block subtree (msg_split.py:75).
  `Serialize` writes `<name k="v">children</name>` with no escaping, no void
  elements and no special quoting or multi-valued attributes.
- Attribute values are strings. In a block start tag the source writes
  `str(v)` (msg_split.py:34), so a multi-valued attribute such as `class`
  comes out as Python list text (`['a', 'b']`). The model's value string
  stands for that `str(v)` text.
- Lengths are counted in `char`s, which are Unicode scalar values, and
  Python's `len` counts code points. The two agree on every string the
  model can hold. Only lone surrogates differ, and a Dafny string cannot
  hold them.
- Segmenter.ProcessF: the walk has no depth limit. The source recurses once
  per level of nesting (msg_split.py:57) and raises `RecursionError` past
  Python's recursion limit, while the model returns a result at any depth.
  The same holds for MsgSplit.Splitter.ProcessNode.
- The command-line entry point `main` (msg_split.py:101-115): file reading
  and printing.
- The generator (msg_split.py:96-97). The model returns the list, which
  yields the same fragments in the same order.
- The unit tests' checks that re-parse each fragment (unit_test.py:15-16,
  40-41, 50-51). They need a parser. The model proves `Framed` only for the
  fragments of the text loop (`TextFramesFragments`) and of a one-paragraph
  document (`ParagraphFragmentsFramed`).
- Markup.BoundaryMarkupIsBalanced: it is a fact about the boundary markup
  alone. No lemma states that every emitted fragment is well nested, and
  `Framed` fails for a fragment that holds an attributed start tag
  (`AttributedFragmentNotFramed`).
- MsgSplit.Splitter.ProcessText: `EndlessFlush` stands in for the source's
  non-termination, which a terminating model cannot exhibit.
- TextProperties.TextFailsOnlyByEndlessFlush: the same stand-in.
- BudgetProperties.FragmentsWithinBudget: the length bound is proved only
  when every block element fits empty after its reopening prefix
  (`AllBlocksFit`). Without that condition the source itself breaks the
  bound (`OverBudgetBlockWithChildren`).
- StructureProperties.SingleFragmentWhenItFits: it needs nine characters of
  room beyond the markup. The close check counts the end tag twice, so a
  document that fits exactly can be split (`EndTagCountedTwice`).
- StructureProperties.NonBlockNeverSliced: it says the element's markup
  appears whole in some fragment, not which fragment.
- Scenarios.LinkNeverSliced: it does not state the test's 100-paragraph
  document at budget 500 literally. It covers any document that contains
  the test's paragraph and splits without error.
- Scenarios.LongParagraphSplits: it covers any paragraph text and any budget
  of at least 8. It does not state the test's specific text and budget.
- ContentProperties.SplitKeepsContent: it proves that only boundaries are
  inserted, each the closing tags and then the reopening prefix of one
  stack of elements. It does not state which stack each cut uses, that is,
  that it is the stack of block elements open at that point of the walk.
