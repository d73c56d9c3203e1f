# Fuzzowski mutation engine, modelled in Dafny

This project models the mutation engine of the fuzzowski network fuzzer. A
request is a tree of byte-producing fields, and the engine walks every
single-field mutation of it, in a fixed order and resumably.

- **Mutants** (`mutant.dfy`): the leaf state machine `Mutant`. It has an
  original value, a fixed library of candidate values and a cursor.
  - `_mutate` steps through the library and restores the original once the
    library is exhausted.
  - `goto` seeks, `reset` rewinds, and `render` chooses between an
    override, the raw original and the encoded current value.
  - The class `Mutants.Mutant` is proved against pure functions on the
    `MutantState` value.
- **Primitives** (`primitives.dfy`): the `Static`, `Group` and `RandomData`
  constructors. They fill the library with nothing, with the given values,
  or with random byte strings of bounded length.
- **Blocks** (`block.dfy`, `tree.dfy`, `render.dfy`): the composite `Block`.
  - A tree of blocks is the value `Node`.
  - `NumMutations` sums the counts of the fuzzable children.
  - The enumeration is one `Step` of an explicit cursor. Each block records
    whether its generator is fresh or suspended inside the child at a given
    stack position.
  - `At(t, k)` is the tree after `k` steps from reset, and `Active(t, k, [])`
    is the path of the one leaf that step `k` changed.
  - `Render` concatenates the children's renders. It then applies the
    encoder or the dependency gate.
- **Requests** (`request.dfy`): the root block, as the class
  `Requests.Request`. It adds:
  - a flat registry of names that refuses duplicates;
  - a stack of open blocks for nested `push`/`pop`;
  - the mutation driver (`Next`, `Goto`, `MutationGenerator`). Each step
    renders the blocks it delegates through, innermost first, and then the
    request; the first render that raises ends the generator;
  - lookup by `request` or `request.mutant` path;
  - a de-duplicated list of response parsers, tried in order.
- **Xdr** (`xdr.dfy`): the XDR string lego. Its render frames the block's
  render as an XDR variable-length opaque (section 4.10 of RFC 4506,
  section 3.10 of RFC 1832): a 4-byte big-endian length, the bytes, then
  zero padding to a multiple of four.

Python objects referenced from several places (a mutant in the tree, in
`names`, in `block_stack`, in `request.mutant`) are replaced by paths from
the root: lists of stack positions.

Where the code and its documentation disagree, the model follows the code:

- `render(original=True)` on a mutant returns the raw original value. It is
  not encoded, so a text original reaches the enclosing block as `str` and
  the block's concatenation raises (`TextOriginalFails`).
- In the `!=` gate, the second test compares with `dep_value` even when
  `dep_values` is non-empty (`DepTable`).
- A dependency gate that holds makes `_render_dep` fall off its end. The
  block then renders `None` and not its children (`Rendering.Out.Nothing`,
  `RenderGated`).
- `RandomData` with a non-zero `step` turns `max_mutations` into a float, so
  `range()` raises. The model gives that path as an error.
- The XDR `_rendered == ""` test compares bytes with text and never holds.
  The general branch frames the empty payload as four zero bytes anyway
  (`Xdr.FrameEmpty`).

## Model

| member | source | states |
|---|---|---|
| Common.NameScan | fuzzowski-master/fuzzowski/mutants/mutant.py:13 | `^[A-Za-z0-9_]+$` accepts exactly a non-empty word, optionally followed by one final newline (Python's `$`) |
| Common.Utf8Append | fuzzowski-master/fuzzowski/mutants/mutant.py:187-201 | UTF-8 encoding of text distributes over concatenation |
| Common.Utf8Ascii | fuzzowski-master/fuzzowski/mutants/mutant.py:197-200 | ASCII text encodes to one byte per character, with the same code |
| Common.Utf8Size | fuzzowski-master/fuzzowski/mutants/mutant.py:197-200 | text encodes to between one and four bytes per character, and to exactly one per character iff every character is ASCII |
| Common.Utf8Char | fuzzowski-master/fuzzowski/mutants/mutant.py:200 | a character encodes to 1 to 4 bytes, and to 1 byte exactly when it is ASCII |
| Common.Encode | fuzzowski-master/fuzzowski/mutants/mutant.py:187-201 | `_render` is the identity on bytes |
| Common.WordPrefix | fuzzowski-master/fuzzowski/mutants/mutant.py:13 | the longest prefix of word characters: every character before it is a word character, and the next one is not |
| Mutants.NumMutations | fuzzowski-master/fuzzowski/mutants/mutant.py:102-104 | the count never exceeds the library size and is zero unless the mutant is fuzzable |
| Mutants.OriginalValue | fuzzowski-master/fuzzowski/mutants/mutant.py:106-108 | `original_value` is what the reset mutant renders |
| Mutants.ResetState | fuzzowski-master/fuzzowski/mutants/mutant.py:110-121 | `reset` gives a state the methods keep, at index 0, with the same count |
| Mutants.Position | fuzzowski-master/fuzzowski/mutants/mutant.py:110-148 | the state after k mutations from reset is a valid state at index k with the same reset state |
| Mutants.ValidIsPosition | fuzzowski-master/fuzzowski/mutants/mutant.py:123-148 | every reachable (valid) state is the state after its own index of mutations |
| Mutants.MutateStep | fuzzowski-master/fuzzowski/mutants/mutant.py:123-148 | below the count, `_mutate` moves from position k to k+1 and returns True; at the count, it restores the reset state and returns False |
| Mutants.MutateKeepsValid | fuzzowski-master/fuzzowski/mutants/mutant.py:123-148 | `_mutate` keeps the index in [0, num_mutations] and never changes the reset state |
| Mutants.GotoState | fuzzowski-master/fuzzowski/mutants/mutant.py:163-171 | `goto(k)` fails exactly when k > num_mutations, with that error; otherwise it lands on position k (reset for k = 0) |
| Mutants.MutateState | fuzzowski-master/fuzzowski/mutants/mutant.py:123-148 | `_mutate` returns True exactly when the mutant is fuzzable, not complete and below its count, and then takes the next library entry; when it returns False the mutant is back in its reset state |
| Mutants.RenderState | fuzzowski-master/fuzzowski/mutants/mutant.py:173-185 | only `original=True` can hand back text, and then it is the raw original |
| Mutants.RenderCases | fuzzowski-master/fuzzowski/mutants/mutant.py:173-185 | an override addressed to the mutant wins; `original` gives the raw original; otherwise the encoded original at index 0 and the encoded library entry k-1 at index k |
| Mutants.Remaining | fuzzowski-master/fuzzowski/mutants/mutant.py:156-161 | the renders left from position k are the encoded library entries k..n-1, in order |
| Mutants.Create | fuzzowski-master/fuzzowski/mutants/mutant.py:15-52 | construction succeeds exactly when the name is given and matches the pattern; the new state is reset, with the given value, library and fuzzable flag |
| Mutants.Mutant.constructor | fuzzowski-master/fuzzowski/mutants/mutant.py:15-52 | the new object holds the state `Create` describes |
| Mutants.Mutant.New | fuzzowski-master/fuzzowski/mutants/mutant.py:78-84 | an invalid name raises; otherwise a fresh mutant in the state `Create` describes |
| Mutants.Mutant.Reset | fuzzowski-master/fuzzowski/mutants/mutant.py:110-121 | index 0, value back to the original, `_fuzz_complete` is `not fuzzable` |
| Mutants.Mutant.Mutate | fuzzowski-master/fuzzowski/mutants/mutant.py:123-148 | the fields and the result move exactly as `MutateState` says |
| Mutants.Mutant.Goto | fuzzowski-master/fuzzowski/mutants/mutant.py:163-171 | out of range: raises and changes nothing; otherwise the state is position k |
| Mutants.Mutant.MutationGenerator | fuzzowski-master/fuzzowski/mutants/mutant.py:150-161 | with an index: reset and `goto(k)` (refused above the count), then the encoded library entries k..n-1 in order; with None: the entries after the current index, without reset; either way the mutant ends in its reset state |
| Mutants.Mutant.Drain | fuzzowski-master/fuzzowski/mutants/mutant.py:156-161 | `while _mutate(): yield render()` yields the encoded library entries after the current index, in order, and ends reset |
| Mutants.Mutant.Next | fuzzowski-master/fuzzowski/mutants/mutant.py:156-161 | one `next()` of the mutant's generator yields the next library entry, encoded, and moves to the next position; at the count it yields nothing and resets the mutant |
| Primitives.StaticNeverMutates | fuzzowski-master/fuzzowski/mutants/primitives/static.py:5-17 | a Static has no mutations, `_mutate` returns False and changes nothing, it renders its encoded value, `goto(k)` raises for every k > 0, and reset keeps it complete |
| Primitives.Static | fuzzowski-master/fuzzowski/mutants/primitives/static.py:5-17 | construction succeeds exactly for a valid name; the mutant starts reset at `value`, is not fuzzable, has an empty library and no mutations |
| Primitives.GroupEnumeratesValues | fuzzowski-master/fuzzowski/mutants/primitives/group.py:7-21 | the default `name=None` is rejected; the library is exactly `values`; the count is `len(values)`; `goto(k)` sets `values[k-1]`; the enumeration yields every value in order |
| Primitives.Group | fuzzowski-master/fuzzowski/mutants/primitives/group.py:7-21 | construction succeeds exactly for a valid name; the mutant starts reset at `value`, is fuzzable, its library is `values` and it has one mutation per value |
| Primitives.RandomData | fuzzowski-master/fuzzowski/mutants/primitives/random_data.py:6-56 | a non-zero step raises; an empty length range raises when a draw is made; an invalid name raises; otherwise exactly `max_mutations` (at least 0) candidates, each a random byte string of a length drawn from [min_length, max_length], and the value starts as `value` |
| Primitives.CandidateIsDraw | fuzzowski-master/fuzzowski/mutants/primitives/random_data.py:40-53 | every byte string whose length `randint` could draw is a candidate |
| Primitives.CandidateLength | fuzzowski-master/fuzzowski/mutants/primitives/random_data.py:40-53 | a candidate's length is in [min_length, max_length] when min_length >= 0, and exactly L when min_length == max_length == L |
| Blocks.BaseIdempotent | fuzzowski-master/fuzzowski/mutants/blocks/block.py:195-204 | resetting a reset tree changes nothing |
| Blocks.BaseWF | fuzzowski-master/fuzzowski/mutants/blocks/block.py:195-204 | the reset tree satisfies the cursor invariant |
| Blocks.CountIgnoresCursor | fuzzowski-master/fuzzowski/mutants/blocks/block.py:159-179 | `num_mutations` and `fuzzable` do not depend on where the cursors are |
| Blocks.ResetIsBase | fuzzowski-master/fuzzowski/mutants/blocks/block.py:195-204 | `_reset` (index 0, fuzzable children reset) gives the reset tree |
| Blocks.BaseUpdate | fuzzowski-master/fuzzowski/mutants/blocks/block.py:195-204 | replacing a child by a state of the same child does not change the reset tree |
| Blocks.BaseStackReplace | fuzzowski-master/fuzzowski/mutants/blocks/block.py:202-204 | the same, for a whole stack |
| Blocks.PreCongruent | fuzzowski-master/fuzzowski/mutants/blocks/block.py:168-172 | the partial sums of the counts depend only on the children's counts and flags |
| Blocks.PreMonotone | fuzzowski-master/fuzzowski/mutants/blocks/block.py:168-172 | the partial sums of the counts never decrease |
| Blocks.Step | fuzzowski-master/fuzzowski/mutants/blocks/block.py:57-82 | one `next()` keeps the cursor invariant and never changes the reset tree |
| Blocks.Scan | fuzzowski-master/fuzzowski/mutants/blocks/block.py:63-82 | looking for the next eligible child keeps the cursor invariant and never changes the reset tree |
| Blocks.OwnerFrom | fuzzowski-master/fuzzowski/mutants/blocks/block.py:63-73 | the child that owns mutation k is the one whose range of partial sums contains k |
| Blocks.Owner | fuzzowski-master/fuzzowski/mutants/blocks/block.py:63-73 | the same, searched from the first child |
| Blocks.OwnerUnique | fuzzowski-master/fuzzowski/mutants/blocks/block.py:63-73 | that child is unique |
| Blocks.At | fuzzowski-master/fuzzowski/mutants/blocks/block.py:57-82 | after k steps, a block has `_mutant_index == k` and the same settings |
| Blocks.AtFacts | fuzzowski-master/fuzzowski/mutants/blocks/block.py:57-82 | the state after k steps keeps the cursor invariant and resets to the same tree |
| Blocks.AtWF | fuzzowski-master/fuzzowski/mutants/blocks/block.py:57-82 | the state after k steps keeps the cursor invariant |
| Blocks.AtBase | fuzzowski-master/fuzzowski/mutants/blocks/block.py:57-82 | the state after k steps resets to the same tree |
| Blocks.PreSkip | fuzzowski-master/fuzzowski/mutants/blocks/block.py:64 | a child that is not fuzzable or has no mutations adds nothing to the count |
| Blocks.StepAdvances | fuzzowski-master/fuzzowski/mutants/blocks/block.py:57-82 | below the count, one `next()` goes from the state after k steps to the state after k+1 steps, yields, and sets `request.mutant` to the leaf changed |
| Blocks.StepFinishes | fuzzowski-master/fuzzowski/mutants/blocks/block.py:79-82 | after the last mutation, `next()` yields nothing, resets the block and clears `request.mutant` |
| Blocks.DelegateYield | fuzzowski-master/fuzzowski/mutants/blocks/block.py:72-74 | while the child being delegated to yields, the block yields and counts one more |
| Blocks.DelegateFinish | fuzzowski-master/fuzzowski/mutants/blocks/block.py:63-72 | when that child is exhausted, the search goes on at the next child |
| Blocks.NextActive | fuzzowski-master/fuzzowski/mutants/blocks/block.py:66-74 | inside one child, the leaf changed next is found in that child |
| Blocks.StepWithin | fuzzowski-master/fuzzowski/mutants/blocks/block.py:72-74 | a step inside the current child goes from state k to state k+1 |
| Blocks.Redelegate | fuzzowski-master/fuzzowski/mutants/blocks/block.py:72-74 | a step inside the owner that yields leaves every other item of the stack in place and moves the block's index by one |
| Blocks.OwnerFinishes | fuzzowski-master/fuzzowski/mutants/blocks/block.py:63-74 | at the owner's last mutation, the child's next step restores it and yields nothing |
| Blocks.Restore | fuzzowski-master/fuzzowski/mutants/blocks/block.py:63-74 | putting the owner back in its reset form gives back the all-reset stack |
| Blocks.OwnerExhausted | fuzzowski-master/fuzzowski/mutants/blocks/block.py:63-74 | the block then goes on scanning after that child |
| Blocks.StepAcross | fuzzowski-master/fuzzowski/mutants/blocks/block.py:63-74 | a step that crosses from one child to the next still goes from state k to state k+1 |
| Blocks.StepPastLast | fuzzowski-master/fuzzowski/mutants/blocks/block.py:79-82 | a step after the last mutation resets the block and clears the mutant |
| Blocks.ScanFrom | fuzzowski-master/fuzzowski/mutants/blocks/block.py:63-82 | scanning from any child yields state k+1 if mutations are left, and otherwise ends in the reset tree |
| Blocks.ScanEnd | fuzzowski-master/fuzzowski/mutants/blocks/block.py:79-82 | scanning past the last child ends in the reset tree |
| Blocks.ScanYields | fuzzowski-master/fuzzowski/mutants/blocks/block.py:64-74 | an eligible child is reset and its first yield is the block's yield |
| Blocks.AtOwner | fuzzowski-master/fuzzowski/mutants/blocks/block.py:63-74 | at step k, earlier children are reset, the owner is at its own step, and the block delegates to the owner |
| Blocks.ActiveOwner | fuzzowski-master/fuzzowski/mutants/blocks/block.py:63-74 | the leaf changed by step k is the one the owner changes at its own step |
| Blocks.FirstStep | fuzzowski-master/fuzzowski/mutants/blocks/block.py:64-74 | the first step into an eligible child is that child's first mutation |
| Blocks.ScanStart | fuzzowski-master/fuzzowski/mutants/blocks/block.py:63-74 | scanning from an eligible child yields state k+1 |
| Tree.NodeAt | fuzzowski-master/fuzzowski/mutants/blocks/request.py:52 | the empty path names the root, and a leaf has no children |
| Tree.NodeAtStep | fuzzowski-master/fuzzowski/mutants/blocks/block.py:32 | a path goes down one stack position at a time |
| Tree.AppendAt | fuzzowski-master/fuzzowski/mutants/blocks/block.py:181-186 | `push` on a block keeps it a block with the same name |
| Tree.AppendPlaces | fuzzowski-master/fuzzowski/mutants/blocks/block.py:181-186 | the pushed item becomes the last entry of that block's stack |
| Tree.AppendKeeps | fuzzowski-master/fuzzowski/mutants/blocks/block.py:181-186 | everything else keeps its place, name and kind; outside the changed block nothing changes |
| Tree.AppendWF | fuzzowski-master/fuzzowski/mutants/blocks/block.py:181-186 | appending keeps the cursor invariant |
| Tree.AppendRegistered | fuzzowski-master/fuzzowski/mutants/blocks/request.py:47-71 | after `push`, `names` and `block_stack` still point at nodes of the right name and kind |
| Tree.Under | fuzzowski-master/fuzzowski/mutants/blocks/block.py:236-237 | prefixing paths by a child position keeps their order and number |
| Tree.PreReplace | fuzzowski-master/fuzzowski/mutants/blocks/block.py:168-172 | replacing a child changes the partial sums by the difference of the counts |
| Tree.PreAppend | fuzzowski-master/fuzzowski/mutants/blocks/block.py:168-172 | appending a child does not change the earlier partial sums |
| Tree.AppendCounts | fuzzowski-master/fuzzowski/mutants/blocks/block.py:159-186 | after `push`, `num_mutations` grows by what the item contributes |
| Tree.FuzzableLeavesExact | fuzzowski-master/fuzzowski/mutants/blocks/block.py:233-241 | `list_fuzzable_mutants` lists exactly the fuzzable leaves of the tree |
| Tree.FuzzableInExact | fuzzowski-master/fuzzowski/mutants/blocks/block.py:233-241 | the same, for a stack |
| Tree.UnderMember | fuzzowski-master/fuzzowski/mutants/blocks/block.py:236-237 | a path is under child i exactly when it starts with i |
| Tree.UnderOrdered | fuzzowski-master/fuzzowski/mutants/blocks/block.py:236-237 | prefixing keeps pre-order |
| Tree.FuzzableLeavesOrdered | fuzzowski-master/fuzzowski/mutants/blocks/block.py:233-241 | the list is in pre-order (strictly increasing paths) |
| Tree.CountIsLeafSum | fuzzowski-master/fuzzowski/mutants/blocks/block.py:159-179 | a block's `num_mutations` is the sum of the own `num_mutations` of the mutants `list_fuzzable_mutants` lists |
| Tree.PreIsLeafSum | fuzzowski-master/fuzzowski/mutants/blocks/block.py:159-179 | the same, for the first j items of a stack |
| Tree.ItemLeafCounts | fuzzowski-master/fuzzowski/mutants/blocks/block.py:159-179 | what one stack item adds to the listed mutants counts exactly what it adds to `num_mutations` |
| Tree.LeafCount | fuzzowski-master/fuzzowski/mutants/blocks/block.py:233-241 | the path to a mutant in the stack counts that mutant's own mutations |
| Tree.LeafCountsAppend | fuzzowski-master/fuzzowski/mutants/blocks/block.py:233-241 | the sum over two lists of paths is the sum of the sums |
| Tree.LeafCountsUnder | fuzzowski-master/fuzzowski/mutants/blocks/block.py:233-241 | paths listed through a stack position count what they count below it |
| Tree.FuzzableInOrdered | fuzzowski-master/fuzzowski/mutants/blocks/block.py:233-241 | the same, for a stack |
| Tree.BaseLeavesReset | fuzzowski-master/fuzzowski/mutants/blocks/block.py:202-204 | in the reset tree every leaf is at index 0 |
| Tree.ActiveShift | fuzzowski-master/fuzzowski/mutants/blocks/block.py:66-67 | the path of the changed leaf is relative to the block it is taken from |
| Tree.ActiveIsListed | fuzzowski-master/fuzzowski/mutants/blocks/block.py:66-67 | `request.mutant` is always one of the fuzzable leaves that `list_fuzzable_mutants` returns |
| Tree.SingleFieldChanged | fuzzowski-master/fuzzowski/mutants/blocks/block.py:63-74 | after step k exactly one leaf is off its original: the one `request.mutant` names |
| Tree.NodeAtBase | fuzzowski-master/fuzzowski/mutants/blocks/block.py:195-204 | resetting the tree resets each node in place |
| Tree.SameShape | fuzzowski-master/fuzzowski/mutants/blocks/block.py:195-204 | two states with the same reset tree have the same paths, names and kinds |
| Rendering.DepField | fuzzowski-master/fuzzowski/mutants/blocks/block.py:126 | `request.names[dep]._value` raises KeyError for an unknown name and AttributeError for a block |
| Rendering.LexLtIsLexBefore | fuzzowski-master/fuzzowski/mutants/blocks/block.py:143-157 | Python's ordering of bytes and of text is lexicographic order on codes |
| Rendering.PrefixHead | fuzzowski-master/fuzzowski/mutants/blocks/block.py:143-157 | two sequences with a common non-empty prefix have the same first element |
| Rendering.LexBeforeTails | fuzzowski-master/fuzzowski/mutants/blocks/block.py:143-157 | with equal first elements, order of the rests gives order of the wholes |
| Rendering.LexBeforeFromTails | fuzzowski-master/fuzzowski/mutants/blocks/block.py:143-157 | with equal first elements, order of the wholes gives order of the rests |
| Rendering.LexBeforeHeads | fuzzowski-master/fuzzowski/mutants/blocks/block.py:143-157 | lexicographic order on different first codes is their order |
| Rendering.LexTrichotomy | fuzzowski-master/fuzzowski/mutants/blocks/block.py:143-157 | that order is strict and total |
| Rendering.Codes | fuzzowski-master/fuzzowski/mutants/blocks/block.py:143-157 | bytes and text are compared on their byte values and code points |
| Rendering.CodesInjective | fuzzowski-master/fuzzowski/mutants/blocks/block.py:139 | values of the same kind with the same codes are equal |
| Rendering.PyOrder | fuzzowski-master/fuzzowski/mutants/blocks/block.py:143-157 | ordering a missing value, or bytes against text, raises TypeError |
| Rendering.DepTable | fuzzowski-master/fuzzowski/mutants/blocks/block.py:120-157 | for each operator: an unknown one always holds; `==` and `!=` use membership in `dep_values` and equality with `dep_value` as written; the four orderings compare `dep_value` with the field; missing fields raise |
| Rendering.DepHolds | fuzzowski-master/fuzzowski/mutants/blocks/block.py:120-157 | an unknown operator always holds; the gate raises only what the field lookup raises, or TypeError from an ordering |
| Rendering.GateOrdering | fuzzowski-master/fuzzowski/mutants/blocks/block.py:125-157 | with `dep_values` empty, exactly one of `>`, `==`, `<` holds, and `>=`, `<=`, `!=` agree with them |
| Rendering.Render | fuzzowski-master/fuzzowski/mutants/blocks/block.py:84-118 | a block without a gate always produces a value, and a block only ever produces bytes |
| Rendering.Body | fuzzowski-master/fuzzowski/mutants/blocks/block.py:105-106 | a concatenation that succeeds rendered every one of its items to a value |
| Rendering.RenderOverride | fuzzowski-master/fuzzowski/mutants/blocks/block.py:91-93 | an override addressed to a node is its render, whatever the other arguments |
| Rendering.RenderGated | fuzzowski-master/fuzzowski/mutants/blocks/block.py:100-101 | a gated block renders nothing when the gate holds and `b""` when it fails, never renders its children, and ignores its encoder |
| Rendering.RenderPlain | fuzzowski-master/fuzzowski/mutants/blocks/block.py:105-118 | without gates and encoders, a block renders as the concatenation of its mutants' encoded current values |
| Rendering.BodyPlain | fuzzowski-master/fuzzowski/mutants/blocks/block.py:105-106 | the same, for a stack |
| Rendering.OriginalIsResetContents | fuzzowski-master/fuzzowski/mutants/blocks/block.py:43-50 | `original_value` is what the reset tree renders |
| Rendering.OriginalOfBase | fuzzowski-master/fuzzowski/mutants/blocks/block.py:43-50 | the same, for a stack |
| Rendering.RenderOriginal | fuzzowski-master/fuzzowski/mutants/blocks/block.py:105-106 | `render(original=True)` on a plain block with byte originals is `original_value` |
| Rendering.BodyOriginal | fuzzowski-master/fuzzowski/mutants/blocks/block.py:105-106 | the same, for a stack |
| Rendering.TextOriginalFails | fuzzowski-master/fuzzowski/mutants/mutant.py:180-181 | any block without a gate whose stack reaches a text original after plain items with byte originals raises TypeError under `render(original=True)`, while that mutant's `original_value` is its UTF-8 text |
| Rendering.BodyTextFails | fuzzowski-master/fuzzowski/mutants/blocks/block.py:105-106 | once the concatenation reaches the text original it has failed, and it stays failed to the end of the stack |
| Rendering.PlainRenderIsBytes | fuzzowski-master/fuzzowski/mutants/blocks/block.py:105-118 | a plain render only ever produces bytes |
| Rendering.SumLengthsIsBodySize | fuzzowski-master/fuzzowski/mutants/blocks/block.py:227-231 | the sum of the children's lengths is the size of the concatenation |
| Rendering.LengthIsRenderSize | fuzzowski-master/fuzzowski/mutants/blocks/block.py:227-231 | a block without a gate has `len` equal to the size of its render |
| Rendering.LengthIgnoresGate | fuzzowski-master/fuzzowski/mutants/blocks/block.py:227-231 | any block without an encoder whose gate fails renders `b""`, while its `len` is the size of its items' concatenation, or the error that concatenation raises |
| Rendering.TextLength | fuzzowski-master/fuzzowski/mutants/mutant.py:66-72 | for every text mutant, `len` is the number of characters while the render is the UTF-8 encoding; the two sizes agree exactly when the text is ASCII |
| Rendering.TextLengthExample | fuzzowski-master/fuzzowski/mutants/mutant.py:66-72 | a mutant holding "é" has length 1 and renders two bytes |
| Requests.ParsePath | fuzzowski-master/fuzzowski/mutants/blocks/request.py:108-110 | a path that does not match raises `Invalid path name` |
| Requests.WordPrefixOf | fuzzowski-master/fuzzowski/mutants/blocks/request.py:12-13 | a word followed by a non-word character is a word prefix |
| Requests.ParsePathSound | fuzzowski-master/fuzzowski/mutants/blocks/request.py:12-13 | a parsed path is `req` or `req.mutant` of words, possibly with one final newline |
| Requests.ParsePathComplete | fuzzowski-master/fuzzowski/mutants/blocks/request.py:12-13 | every such path parses back to its parts |
| Requests.ParseRequestOnly | fuzzowski-master/fuzzowski/mutants/blocks/request.py:12-13 | a word, with or without one final newline, parses as a request name alone |
| Requests.ParseRequestMutant | fuzzowski-master/fuzzowski/mutants/blocks/request.py:12-13 | `request.mutant` of two words, with or without one final newline, parses into its two words |
| Requests.LookupByPath | fuzzowski-master/fuzzowski/mutants/blocks/request.py:97-124 | an unknown request or mutant raises; `req` gives the request; `req.mutant` gives the registered mutant |
| Requests.LookupInvalid | fuzzowski-master/fuzzowski/mutants/blocks/request.py:108-110 | any other string raises `Invalid path name` |
| Requests.GetMutantByPath | fuzzowski-master/fuzzowski/mutants/blocks/request.py:97-124 | a path the pattern refuses raises `Invalid path name`; whatever is found belongs to the request the path names, and an element is the one registered under the path's mutant name |
| Requests.FirstParseIsFirst | fuzzowski-master/fuzzowski/mutants/blocks/request.py:134-140 | the result is the first parser's success in list order, and none exactly when every parser fails |
| Requests.FirstParse | fuzzowski-master/fuzzowski/mutants/blocks/request.py:134-140 | a result is always one some attached parser gave |
| Requests.Renders | fuzzowski-master/fuzzowski/mutants/blocks/block.py:72-74 | one yield of the request's generator per mutation, the i-th after i+1 steps |
| Requests.RendersAt | fuzzowski-master/fuzzowski/mutants/blocks/block.py:72-74 | the i-th yield is what the state after i+1 steps yields: the first raise among the nested renders, or the request's render |
| Requests.FirstFailure | fuzzowski-master/fuzzowski/mutants/blocks/block.py:72-74 | the first step whose yield raises, with every step before it succeeding |
| Requests.Outputs | fuzzowski-master/fuzzowski/mutants/blocks/block.py:72-74 | the renders from k on, in order, when none raises |
| Requests.OutputsCons | fuzzowski-master/fuzzowski/mutants/blocks/block.py:72-74 | those renders are the k-th followed by those from k+1 |
| Requests.FirstFailureSplit | fuzzowski-master/fuzzowski/mutants/blocks/block.py:206-222 | the first failure in a range is the first in its first half, or else in its second half |
| Requests.DrainFrom | fuzzowski-master/fuzzowski/mutants/blocks/block.py:57-82 | draining the generator from step i stops at a position inside the enumeration |
| Requests.DrainFromOk | fuzzowski-master/fuzzowski/mutants/blocks/block.py:72-74 | a successful render is prepended to what the rest of the drain gives |
| Requests.DrainFromIs | fuzzowski-master/fuzzowski/mutants/blocks/block.py:57-82 | draining from i yields every remaining render when no step raises; otherwise it raises the first failure, from a nested render or the request's own, and stops just after it |
| Requests.EnumerationStep | fuzzowski-master/fuzzowski/mutants/blocks/block.py:57-82 | from the reset request, `next()` after i steps gives state i+1 while mutations remain, and at the end resets the request and clears `mutant` |
| Requests.EnvLookup | fuzzowski-master/fuzzowski/mutants/blocks/block.py:126 | in a request's tree, the gate's lookup raises KeyError for an unregistered name, gives a registered mutant's current value, and raises AttributeError for a registered block |
| Requests.ChainFailureNone | fuzzowski-master/fuzzowski/mutants/blocks/block.py:72-74 | one `next()` raises exactly when some block on the delegation path below the request fails to render |
| Requests.ChainPlain | fuzzowski-master/fuzzowski/mutants/blocks/block.py:72-74 | without gates and encoders no block on the delegation path raises |
| Requests.YieldPlain | fuzzowski-master/fuzzowski/mutants/blocks/block.py:72-74 | without gates and encoders a step yields the encoded current values of the request's mutants |
| Requests.NestedRenderRaises | fuzzowski-master/fuzzowski/mutants/blocks/block.py:72-74 | a nested block inside a block whose gate fails still renders itself in its own step and can raise, although the request's render is fine |
| Requests.Request.constructor | fuzzowski-master/fuzzowski/mutants/blocks/request.py:15-34 | an empty request with no names, open blocks, mutant or responses |
| Requests.Request.Push | fuzzowski-master/fuzzowski/mutants/blocks/request.py:36-71 | a duplicate name raises and changes nothing; otherwise the item goes at the end of the innermost open block, its name is registered at its path, and a block becomes the innermost open block |
| Requests.PushKeepsValid | fuzzowski-master/fuzzowski/mutants/blocks/request.py:36-71 | pushing into the innermost open block keeps the tree well formed and the registry and open blocks valid, and places the item last in that block |
| Requests.Request.Pop | fuzzowski-master/fuzzowski/mutants/blocks/request.py:73-81 | an empty block stack raises and changes nothing; otherwise exactly the last open block is closed |
| Requests.Request.KeepsShape | fuzzowski-master/fuzzowski/mutants/blocks/request.py:36-71 | moving the cursors keeps the registry pointing at the right nodes |
| Requests.Request.Reset | fuzzowski-master/fuzzowski/mutants/blocks/block.py:188-204 | the request goes back to the reset tree with no current mutant and a fresh generator |
| Requests.Request.Next | fuzzowski-master/fuzzowski/mutants/blocks/block.py:57-82 | a finished generator yields nothing and changes nothing; otherwise one `next()` moves the tree and `mutant` as `Step` says and yields the first raise among the renders of the blocks it delegates through and then the request's render, or ends; a raise finishes the generator |
| Requests.Request.Pull | fuzzowski-master/fuzzowski/mutants/blocks/block.py:57-82 | from the state after i steps, `next()` yields the (i+1)-th yield and moves to step i+1, finishing the generator if it raised, or ends in the reset state |
| Requests.Request.Goto | fuzzowski-master/fuzzowski/mutants/blocks/block.py:206-222 | k > num_mutations raises and changes nothing; `goto(0)` resets; otherwise it replays k steps and lands on state k, unless a step raises on the way, where it stops with the generator finished |
| Requests.Request.MutationGenerator | fuzzowski-master/fuzzowski/mutants/blocks/block.py:52-82 | after `goto(k)`, the generator yields exactly the yields k+1..num_mutations and ends with the request reset; a raising step propagates, leaves the request just after it and finishes the generator |
| Requests.Request.Drain | fuzzowski-master/fuzzowski/mutants/blocks/block.py:57-82 | running the generator to its end gives what `DrainFrom` describes, leaves the request at its stopping position, and the generator finished exactly when it raised |
| Requests.Request.AddResponse | fuzzowski-master/fuzzowski/mutants/blocks/request.py:126-129 | a response is appended only if it is not already present |
| Requests.Request.ParseResponse | fuzzowski-master/fuzzowski/mutants/blocks/request.py:131-140 | no responses give None; otherwise the first parser that succeeds, and an error when none does |
| Requests.Request.GetMutant | fuzzowski-master/fuzzowski/mutants/blocks/request.py:83-95 | a registered name gives its node; any other name is looked up as a path |
| Requests.Request.PathAgreesWithName | fuzzowski-master/fuzzowski/mutants/blocks/request.py:83-124 | with the request's registry in the table under its name, the path `request.name` resolves to what `get_mutant(name)` finds |
| Xdr.BigEndian32 | fuzzowski-master/fuzzowski/legos/xdr.py:52 | `struct.pack(">L", n)` is four bytes |
| Xdr.BigEndian32RoundTrip | fuzzowski-master/fuzzowski/legos/xdr.py:52 | reading the four bytes back gives n |
| Xdr.Padding | fuzzowski-master/fuzzowski/legos/xdr.py:53 | fewer than four zero bytes that bring the payload to a multiple of four |
| Xdr.Frame | fuzzowski-master/fuzzowski/legos/xdr.py:49-53 | `[dword length][array][pad]`: the length, the payload, zeros to a multiple of four; a payload of 2^32 bytes or more raises |
| Xdr.Unframe | fuzzowski-master/fuzzowski/legos/xdr.py:35 | reading a frame never reads past its end |
| Xdr.FrameRoundTrip | fuzzowski-master/fuzzowski/legos/xdr.py:52-53 | the length prefix recovers the payload |
| Xdr.FrameInjective | fuzzowski-master/fuzzowski/legos/xdr.py:52-53 | different payloads give different frames |
| Xdr.FrameEmpty | fuzzowski-master/fuzzowski/legos/xdr.py:48-53 | the empty payload is framed as four zero bytes |
| Xdr.FrameExample | fuzzowski-master/fuzzowski/legos/xdr.py:52-53 | `b"AB"` is framed as `00 00 00 02 41 42 00 00` |
| Xdr.StringOverride | fuzzowski-master/fuzzowski/legos/xdr.py:38-40 | an override addressed to the string is returned as given |
| Xdr.StringOriginal | fuzzowski-master/fuzzowski/legos/xdr.py:42-43 | `original=True` gives the reset contents with no length and no padding |
| Xdr.StringIgnoresArguments | fuzzowski-master/fuzzowski/legos/xdr.py:46 | an override meant for an inner item is not passed on |
| Xdr.StringGated | fuzzowski-master/fuzzowski/legos/xdr.py:46-53 | a gated string frames the empty payload whichever way its gate goes; only a gate error comes through |
| Xdr.StringPlain | fuzzowski-master/fuzzowski/legos/xdr.py:46-53 | a plain string renders as the frame of its encoded values, and that frame reads back as them |
| Xdr.RenderString | fuzzowski-master/fuzzowski/legos/xdr.py:31-55 | without override or `original`, a successful render is the payload's big-endian length, the payload, and padding to a multiple of four |

## Left out

- Randomness: each `random.randint` in `RandomData` is a nondeterministic choice in its range. The distribution is not modelled.
- Python generators are not reproduced as suspended frames. Each block's generator is an explicit cursor (`Gen`), and a generator that has run to its end is replaced, as `reset()` does. A request generator that raised is marked finished (`Request.finished`) until `reset` or `goto` replaces it.
- Object identity and aliasing are replaced by paths from the root. The same object pushed twice, or shared between requests, is not modelled.
- `Response.parse` lives in a module that is not part of this model. A response is an identifier, and parsing is a function passed in that succeeds or fails.
- Encoders are opaque functions from bytes to bytes.
- The global `REQUESTS` map is a parameter (`Registry`) holding each request's names. The code that fills it is not part of this model. `VARIABLES`, `callbacks`, `id` and `variables` are unused by this logic.
- The group-tied `_mutate` kept inside a string literal in `block.py` and the group-multiplication TODOs are dead code and are not modelled. `group` and `group_idx` are carried by nothing.
- `imutant.py` is an interface with no logic and is not part of this model.
- The XDR `String.__init__` calls `super(String).__init__`, which is broken. Only the render transform is modelled, on a block.
- `Xdr.RenderString` is not dispatched by `Rendering.Render`: an XDR string nested inside another block renders there as a plain block.
- `helpers.calculate_four_byte_padding` is not part of this model. Padding is taken to be zero bytes up to the next multiple of four.
- Checksum, Size, Repeat and Variable are not part of this model.
- `__repr__`, `__iter__`/`__next__`, the `disabled` flag and the `_rendered` cache are not modelled. The cache is only ever written before it is read.
- The `request is None` guard in `_mutation_generator` is not modelled: `_reset` dereferences the request anyway.
- Mutants.Mutant.MutationGenerator and Requests.Request.MutationGenerator: the generator is run to its end in one call. Consuming only part of it is modelled by `Mutate`, `Next` and `Pull`, one `next()` at a time.
- Requests.Request.Next: after a nested render raises, the source has already counted the step in the blocks from the leaf up to the one that raised, but not in the blocks above it. The model counts it at every level. Those indexes are not read again before `goto` or `reset` replaces the finished generator.
- Mutants.GotoState, Mutants.Mutant.Goto, Mutants.Mutant.MutationGenerator, Requests.Request.Goto and Requests.Request.MutationGenerator take a natural index. A negative index is not modelled: on a mutant, `goto(-1)` sets the index to -2 and reads the library from its end by Python's negative indexing; on a block, a negative index is a plain reset.
- Requests.Request.MutationGenerator: `mutation_generator(None)` on a block is not modelled. There `goto(None)` compares None with an integer and raises TypeError. On a mutant, None is modelled.
- Rendering.Addressed: a block built with no name is represented by the empty name, so an override addressed to `""` reaches it, where the source's `replace_node == None` test never does.
- Blocks.NumMutations, Blocks.ResetNode, Blocks.Active, Rendering.OriginalValue, Rendering.Length, Rendering.SumLengths, Tree.FuzzableLeaves, Requests.EnvOf, Requests.RenderIn, Requests.DelegationPath, Requests.ChainFailure, Requests.YieldIn and Xdr.Payload carry no contract of their own. What they compute is stated by `Tree.CountIsLeafSum`, `Blocks.ResetIsBase`, `Blocks.NextActive` with `Tree.ActiveIsListed`, `Rendering.OriginalIsResetContents`, `Rendering.LengthIsRenderSize`, `Rendering.SumLengthsIsBodySize`, `Tree.FuzzableLeavesExact`, `Requests.EnvLookup`, `Requests.ChainFailureNone`, `Requests.ChainPlain`, `Requests.YieldPlain`, `Requests.NestedRenderRaises`, `Requests.RendersAt`, `Xdr.StringGated` and `Xdr.StringPlain`.
- Rendering.DepHolds: `dep_value` and the entries of `dep_values` are `bytes` or `str` here, while the source accepts any object. For a value of another type, such as an int `dep_value` with no `dep_values`, the source finds it equal to no field: under `==` the block is always emptied, under `!=` it is never emptied by `dep_value`, and every ordering against a `bytes` or `str` field raises TypeError. The model can only stand in for such a value with one of the other kind (a `str` against a `bytes` field), and that stand-in would wrongly compare equal to a field whose library mixes `bytes` and `str`.
