# XSD-pattern matcher: a verified model

This project models the matching engine of `RegEx.c`, Karl Malbrain's matcher for XML Schema
(XSD) patterns. The matcher works in two phases, and both run inside one caller-supplied work area.

1. **Compile.** `regcomp` scans the pattern once, left to right, and builds a tree of node
   records at the bottom of the work area. Each record is one of:
   - a leaf that matches one input byte, against a literal, a `.` wildcard, a bracket
     expression or a built-in shorthand class;
   - a group `( … )`;
   - an "or" node built for `|`.

   Quantifiers (`? + * {m,n}`) set a node's minimum and maximum repeat counts.
2. **Evaluate.** `regevaluate` races probes over the tree and the input together:
   - Probe and frame slots are taken from the top of the work area (`regprobe`). A dead list
     recycles them (`regkill`).
   - A probe goes down into containers and records a frame for each. At a leaf it matches one
     byte (`regmatch`, and `regfilter` for classes), then moves on to a sibling or back up
     (`regnext`).
   - Once a probe has met a node's minimum, a memo bit for that (node, offset) pair must still
     be clear. Otherwise the probe dies. If the bit is clear, the probe sets it and leaves a
     clone in the run queue (`regclone`). The clone skips the rest of that node.
   - The input is accepted when a probe runs off the end of the tree exactly at the end of the
     input.

The Dafny modules follow this structure:

| module | file | models |
|---|---|---|
| `Wrappers` | `wrappers.dfy` | `Option` and `Result` |
| `Repetition` | `repetition.dfy` | `regminimax`, the `{m}`, `{m,}` and `{m,n}` parser |
| `CharClass` | `charclass.dfy` | `regfilter`, the bracket-expression scanner, and `regfilterspcl`, both as written and as corrected |
| `PatternTree` | `patterntree.dfy` | node records, addressed by index, and their sibling chains |
| `Compiler` | `compiler.dfy` | `regcomp` with `regnode`, `regpat`, `regspcl` and `regappend` |
| `Arena` | `arena.dfy` | the slot pool: `regprobe`, `regclone` and `regkill` over 1-based slot indices with a dead list |
| `Evaluator` | `evaluator.dfy` | `regnext`, `regmatch` and `regevaluate` |

Some of the source's behaviour is undefined or unchecked. The model makes each such case an
explicit error value:
- a NULL pointer is followed;
- a read goes past the end of the pattern;
- an uninitialised variable is read.

Capacity is counted in abstract cells, not bytes:
- one cell per node;
- one cell per probe or frame slot;
- one cell per memo bit.

The evaluator keeps probes as values. It summarises the slot pool by two counters: `top`, the
slots handed out, and `free`, the length of the dead list. The `Arena` module models the
concrete pool. It proves that allocation, cloning and killing change the pool by exactly the
counts the evaluator uses.

## Model

| member | source | states |
|---|---|---|
| `Repetition.DigitValue` | RegEx.c:243-244 | Taking a digit's low four bits, as the source does, gives the digit's numeric value. |
| `Repetition.Minimax` | RegEx.c:222-266 | The parser always consumes the opening `{` and never reads past the slice it is given. Both bounds it reports are non-negative. |
| `Repetition.ScanDigits` | RegEx.c:231-245 | Reading a run of digits into a zero accumulator leaves the run's decimal value. |
| `Repetition.MinimaxExact` | RegEx.c:256-262 | `{n}` gives minimum = maximum = n. It consumes exactly the digits and both braces, whatever follows. |
| `Repetition.MinimaxAtLeast` | RegEx.c:246-253 | `{m,}` gives minimum m and the unbounded maximum 0x7fffffff. It consumes through the `}`. |
| `Repetition.MinimaxBetween` | RegEx.c:246-262 | `{m,n}` with a non-empty n gives bounds (m, n). It consumes through the `}`. |
| `Repetition.MinimaxTrailingComma` | RegEx.c:246-250 | `{m,` at the very end of the pattern makes the parser inspect the byte past the end. The model reports an error there. |
| `PatternTree.LastOf` | RegEx.c:364-366 | Following `next` links from a node reaches the last member of its sibling chain, which has no successor. |
| `Compiler.AppendKeepsWellFormed` | RegEx.c:207-218 | Appending a node that was just built keeps every record well formed. Links still point forward and only the root lacks a parent. |
| `Compiler.AddLeaf` | RegEx.c:191-218 | A leaf is a new record with bounds (1, 1) in the current group. It is linked after the previous sibling, or becomes the group's first child when there is none. It becomes both the previous sibling and the target of a following quantifier. It fails only when the node does not fit. |
| `Compiler.Literal` | RegEx.c:382-389 | Any other byte becomes a one-byte leaf of itself. Out of memory is the only failure. |
| `Compiler.Escape` | RegEx.c:372-380 | A backslash before one of `c C d D s S i I` becomes that built-in class. Before any other byte it becomes a one-byte leaf of that byte, so `\.` is still the wildcard. A backslash that ends the pattern is an unchecked read. |
| `Compiler.BracketEndDepth` | RegEx.c:303-309 | The bracket scan stops at the first point where the net `[`/`]` depth returns to zero, or else at the end of the pattern. |
| `Compiler.BracketSpan` | RegEx.c:297-313 | A `[` leaf spans exactly the shortest slice whose net bracket depth is zero, or the rest of the pattern. Its typelen is the length of that slice, as the depth counter runs. |
| `Compiler.Open` | RegEx.c:351-358 | `(` appends a new group to the current one and makes it the current parent. There is then no previous sibling and no quantifier target. |
| `Compiler.Close` | RegEx.c:360-370 | `)` fails exactly when no group is open, where the source follows the root's missing parent. Otherwise the closed group becomes the quantifier target and its parent is current again. The previous sibling is then the last member of that parent's chain. |
| `Compiler.LinkAlternative` | RegEx.c:317-339 | The or-node (typelen -1, bounds 0..1) is linked after the group's previous or-node, or becomes the group's first child. It is recorded as the group's latest or-node. |
| `Compiler.Reparent` | RegEx.c:341-346 | Exactly the nodes of the taken chain get the or-node as parent. Every other record is unchanged. |
| `Compiler.ReparentKeepsWellFormed` | RegEx.c:341-346 | Reparenting under a container keeps the records well formed. |
| `Compiler.Alternate` | RegEx.c:317-349 | `|` fails only for lack of room. On success the or-node takes over the chain built since the previous `|`, and no quantifier target remains. |
| `Compiler.TakeOverBuilt` | RegEx.c:331-346 | After `|` the or-node's children are exactly the taken nodes, in their original order. Each names it as parent, and no other record changes. |
| `Compiler.TakeOverRecords` | RegEx.c:331-346 | Record by record, `|` changes only the taken nodes' parents, the one link to the or-node and the group's or-node mark. |
| `Compiler.Bound` | RegEx.c:391-416 | A quantifier with no atom before it fails. Otherwise it sets exactly the target's two bounds and leaves every other record alone. |
| `Compiler.Quantify` | RegEx.c:391-416 | `?`, `+` and `*` fail exactly when there is no atom to quantify, and otherwise advance one byte. |
| `Compiler.QuantifierBounds` | RegEx.c:391-416 | After an atom, `?` gives (0, 1), `+` gives (1, unbounded) and `*` gives (0, unbounded). Nothing else changes. |
| `Compiler.Counted` | RegEx.c:287-292 | `{` fails when there is no atom, or when its text makes the parser read past the pattern. Otherwise it applies the parsed bounds. |
| `Compiler.CountedRepeat` | RegEx.c:287-290 | A `{…}` that parses gives the target the parsed bounds and moves the cursor by the bytes the parser consumed. |
| `Compiler.CountedExact` | RegEx.c:287-290 | `{n}` after an atom repeats it exactly n times, and the cursor moves past the `}`. |
| `Compiler.QuantifierNeedsAtom` | RegEx.c:287-292 | Any of `? + * {` with no atom to quantify stops compilation with a missing-atom error. The same failure is at RegEx.c:391-416. |
| `Compiler.QuantifierAtStart` | RegEx.c:271-292 | A pattern that starts with a quantifier does not compile. |
| `Compiler.QuantifierAfterOpen` | RegEx.c:351-358 | A quantifier straight after `(` fails, because `(` clears the target. |
| `Compiler.QuantifierAfterAlternate` | RegEx.c:339-349 | A quantifier straight after `|` fails, because the reparenting walk leaves no target. |
| `Compiler.StrayBracketFails` | RegEx.c:294-295 | A `]` that does not close a bracket expression stops compilation. |
| `Compiler.Step` | RegEx.c:286-417 | Every successful pass advances the cursor, never drops a record and keeps the records well formed within capacity. |
| `Compiler.CompileFrom` | RegEx.c:285-418 | A finished scan leaves well-formed records that fit in the capacity. |
| `Compiler.Compile` | RegEx.c:271-284 | A compiled tree is well formed over the pattern it was given and fits in the capacity. With no room for the root, compilation fails. |
| `Compiler.CompileSound` | RegEx.c:271-421 | A compiled tree has a root group at index 0 with no parent, and needs at least one cell. |
| `CharClass.ShorthandClass` | RegEx.c:156-164 | Each built-in class is a bracketed text of at least four bytes with no backslash in it. |
| `CharClass.FilterPlainList` | RegEx.c:474-488 | A class of plain bytes and ranges accepts exactly the bytes some member covers. The corrected scan gives the same answer. |
| `CharClass.FilterFlipped` | RegEx.c:489-491 | `^` negates each later member test separately. The class accepts a byte that an earlier member covers or that a later member misses, so it is not the complement of the class. |
| `CharClass.FilterNegatedSingle` | RegEx.c:481-491 | A negated class of one member is that member's exact complement. |
| `CharClass.FilterNegatedPair` | RegEx.c:481-491 | A negated class of two different bytes accepts every byte. |
| `CharClass.FilterAccepts` | RegEx.c:443-523 | For a class of plain members with an optional `-[…]` subtraction, the result is some tested member covering the byte and no subtracted member covering it. A single byte right before `-[` is taken as a range's low end and never tested. |
| `CharClass.FilterConsonants` | RegEx.c:492-516 | `a-z-[aeiou]` accepts exactly the lower-case consonants. |
| `CharClass.FilterEscapeAsWrittenClasses` | RegEx.c:427-436 | As written, the escaped classes inside a class test a prefix of their bracketed text. So `\d`, `\s` and `\i` also accept `[`, `\s` misses the tab, `\i` misses `:`, `\S` accepts all but space and `\I` accepts every byte. |
| `CharClass.FilterEscaped` | RegEx.c:458-472 | A class holding one escaped letter gives, as written, exactly what `regfilterspcl` as written gives. Under the corrected scan it gives the closed form `FilterEscape`. |
| `CharClass.EscapeBracketDiscrepancy` | RegEx.c:430 | As written, `\d` and the class `[\d]` accept `[`. Scanning the class interior, as intended, rejects it, and so does the corrected scan of `[\d]`. |
| `CharClass.FilterEscapeClasses` | RegEx.c:427-436 | Scanning each built-in class without its brackets gives the closed form used by the corrected scan. `\d` gives the digits, `\s` space and tab, and `\i` the letters, `_` and `:`. `\D` gives the non-digits. `\S` and `\I` accept every byte, since `^` negates member by member. |
| `CharClass.FilterEscapeLiteral` | RegEx.c:438 | An escaped letter that is not a class escape stands for itself, as written and as intended. |
| `CharClass.NameClassesAsWritten` | RegEx.c:157-158 | As written, `\c` and `\C` open with a range dash that has no byte before it, whose test reads an uninitialised low end (RegEx.c:499). For `\c` that test alone decides a byte at or below `.`, so the result there is undetermined; above `.` the test fails whatever the low end is, and `\c` accepts the name characters. `\C` accepts every byte whatever the low end holds: a byte the dash does not credit is credited by the negated `_` or `:` after it. |
| `CharClass.NameClassesIntended` | RegEx.c:157-158 | With the leading dash read as a member, `\c` accepts exactly the name characters, `-` and `.` included. `\C` accepts every byte, since `^` negates member by member. |
| `Arena.Alloc` | RegEx.c:77-95 | A slot comes from the head of the dead list when there is one, and then never fails. Otherwise a fresh slot comes from the top, only while it fits. The slot is cleared and no other slot changes. |
| `Arena.AllocFromDead` | RegEx.c:82-86 | Allocation pops exactly the first dead slot and leaves the rest of the dead list intact. The pool grows only when the dead list is empty. |
| `Arena.ReleaseList` | RegEx.c:599-600 | Releasing a slot that is not already dead puts it in front of the dead list. |
| `Arena.ReleaseChain` | RegEx.c:604-609 | Releasing a frame chain touches only the chain's slots, and only their links. |
| `Arena.ReleaseChainList` | RegEx.c:604-609 | Releasing a chain pushes its slots onto the dead list in reverse order, last in, first out. |
| `Arena.Kill` | RegEx.c:594-610 | Killing a probe rewrites only the links of the probe's own slot and of its frames, and keeps every slot's contents. No other slot changes and the pool keeps its size. |
| `Arena.KillList` | RegEx.c:594-610 | After a kill the dead list is the probe's frames, innermost last, then the probe, then the old dead list. It grows by exactly the slots the probe held. |
| `Arena.CopyOne` | RegEx.c:115-125 | Copying one frame fails exactly when no dead slot is left and a fresh slot does not fit. Otherwise the new slot holds a whole copy of the frame and hangs below the previous copy, and only these two slots change. |
| `Arena.CopyOneLists` | RegEx.c:115-125 | After copying one frame, the rest of the chain and the rest of the dead list are intact. The copy came off the dead list, or from the top when the list was empty. |
| `Arena.CopyChainFacts` | RegEx.c:114-126 | A copied chain repeats the original frames in order, in slots of its own. Those come from the dead list first, and nothing else changes. |
| `Arena.CopyChainRoom` | RegEx.c:114-126 | Copying a chain fails exactly when its frames do not fit after the dead slots are used up. |
| `Arena.CloneFacts` | RegEx.c:99-129 | A clone fails exactly when the clone and its frames do not fit. Otherwise it has the probe's node and offset, and its stack repeats the probe's frames in order in fresh or recycled slots. No other slot changes. |
| `Evaluator.Key` | RegEx.c:687-689 | The memo index decodes back to its node and offset. |
| `Evaluator.KeyInjective` | RegEx.c:687-689 | Different (node, offset) pairs never share a memo bit. |
| `Evaluator.KeyBound` | RegEx.c:636-641 | Every memo index falls inside the memo sized for nodes × (input length + 1) bits. |
| `Evaluator.Reserve` | RegEx.c:77-95 | Taking k slots fails exactly when the dead slots run out and the fresh ones do not fit. Otherwise the live slot count rises by exactly k. |
| `Evaluator.Ascend` | RegEx.c:539-558 | Each popped frame restores the occurrence count it saved. The probe lands on a group, skipping or-nodes, with the popped frames dropped and its offset kept. With no frames, or after the last one at the root, it ends. |
| `Evaluator.Next` | RegEx.c:528-559 | A node with a sibling moves the probe there with a fresh count and the offset kept. Otherwise the probe ascends, losing only innermost frames. |
| `Evaluator.Match` | RegEx.c:564-590 | Nothing matches at the end of the input. A successful match needs a byte left to consume. Only a class leaf can be indeterminate. Its class is scanned by the as-written `regfilter`. |
| `Evaluator.MatchWildcard` | RegEx.c:574-576 | A leaf starting with `.` matches every byte, so `\.` does too. |
| `Evaluator.MatchLiteral` | RegEx.c:578-588 | A one-byte leaf matches exactly its byte. A one-byte `[` leaf, such as an escaped `\[`, matches nothing. |
| `Evaluator.MatchDigits` | RegEx.c:584-588 | A `\d` leaf matches exactly the decimal digits. |
| `Evaluator.MatchNameClass` | RegEx.c:584-588 | A `\c` leaf matches a byte above `.` exactly when it is a name character, and is indeterminate at `.`, `-` and below. A `\C` leaf matches every byte. |
| `Evaluator.MatchEscapedLetter` | RegEx.c:584-588 | A leaf `[\x]` with an escaped letter matches as `regfilterspcl` as written decides. In particular `[\d]` matches `[` as well as the digits. |
| `Evaluator.Finish` | RegEx.c:675-681 | A probe that has used up its node accepts exactly when nothing of the tree is left and the input is consumed. Otherwise it moves on or dies, and its popped frames are returned to the pool. |
| `Evaluator.Proceed` | RegEx.c:709-736 | A container pushes a frame that saves the count and offset, and the probe goes to its first child at count 0. A leaf advances the offset by exactly one on a match and kills the probe otherwise. Descending into an empty container is an error. |
| `Evaluator.Enter` | RegEx.c:687-707 | Beyond the minimum, a (node, offset) already in the memo kills the probe with nothing changed. A new one is recorded, and a clone goes to the front of the queue. |
| `Evaluator.Step` | RegEx.c:669-737 | One pass accepts exactly in the accept condition. The memo grows only by the probe's own key, and an already-known key means death. A clone is queued only at the gate. The offset moves only past a byte that a leaf matched. |
| `Evaluator.Retire` | RegEx.c:739-743 | Killing the probe hands the queue's head over with the memo kept. An empty queue means every slot handed out is dead again. |
| `Evaluator.Launch` | RegEx.c:621-656 | Each evaluation starts with an empty memo, an empty queue and one probe on the root at offset 0. It fails exactly when the memo and the first probe do not fit. |
| `Evaluator.Evaluate` | RegEx.c:615-749 | A verdict comes with the run that produced it: a sequence of machines that starts at `Launch` and in which each follows from the one before by a step. A match is reported only when the run's last step accepts (RegEx.c:675-681). "No match" is reported only when its last step kills the probe and the run queue is empty. Along that run each memo key passes the gate at most once (RegEx.c:687-695). Too little room for the memo and first probe is out of memory (RegEx.c:645, 654). With that room, a failure also comes with its run: out of fuel only once the fuel is used up, any other error only as the outcome of the run's last step, such as running out of slots at RegEx.c:707 or 719. |
| `Evaluator.MemoGrows` | RegEx.c:691-695 | Along any run of the evaluator the memo never loses a key. |
| `Evaluator.PruneOnce` | RegEx.c:687-695 | Once a probe has passed the gate of a node at some offset, every later probe that reaches that gate at that offset dies there. |

## Left out

- The byte layout of the work area is not modelled: the `Expr` header, node and probe sizes,
  and memo bytes. Capacity is counted in abstract cells instead: one per node, one per probe
  or frame slot and one per memo bit.
- The check that the work area holds at least the header (RegEx.c:278-279) is not modelled.
  It is part of the byte layout.
- `Compiler.Compile`: with no room for the root group, the source still reports success
  (RegEx.c:284). The evaluation that follows then fails its own room check. The model reports
  out of memory at compile time instead.
- 32-bit integer width is not modelled: overflow of `sum` in the repetition parser, of the memo
  index and of the slot indices. Integers here are unbounded.
- The step counter `steps` and its wrap-around, which would end an evaluation early, are not
  modelled.
- Termination is not modelled. `Evaluator.Evaluate` is bounded by a fuel count of inner-loop
  passes and reports `OutOfFuel` when the fuel runs out. The source's loop has no such bound.
- The evaluator does not reset `dead` between evaluations (RegEx.c:623-625). The model starts
  every evaluation with an empty pool, which is the state right after compilation.
- Bytes are modelled as `char`. No encoding is involved.
- `RegExpr`, `main`, `malloc`/`free` and the error messages are I/O wrappers and are not
  modelled.
- Undefined behaviour is modelled as explicit errors:
  - a backslash or `{m,` that ends the pattern is `UncheckedRead`;
  - `)` with no open group is `UnmatchedClose`;
  - descending into an empty group or or-node, such as `()` or `(|a)`, is `NullNode`;
  - ascending past the root with frames left is `NullNode`;
  - a range `-` with no byte before it compares the byte being tested with an uninitialised
    variable. Above the range's high end the test fails whatever the variable holds.
    Otherwise the scan is finished under both outcomes of the comparison, and only when the
    two verdicts differ does `Filter` return `None` and `Match` return `Indeterminate`.
- The compiler's shorthand escapes are the eight letters `c C d D s S i I`, as in the code
  (RegEx.c:156-164). Inside a class only six letters are special (RegEx.c:429-436), so `\c`
  and `\C` are literal there.
- The frame's saved offset is written (RegEx.c:722) but never read back. The model keeps it in
  the frame and does not restore it.
- `Evaluator` and `Arena` are linked through the counters `top` and `free`. There is no
  refinement proof that the evaluator's probe values sit in a concrete pool.
- `Arena.Clone`: when the room runs out partway through, the slots already taken are not given
  back, as in the source. The evaluation then stops with out of memory, so the leak is not
  modelled further.

## Findings

| source | as written | input that shows it | evidently intended | confidence | as-written member | corrected member |
|---|---|---|---|---|---|---|
| RegEx.c:427-439 | Inside a class, each built-in escape is tested against its text from the opening `[` with lengths 5, 6, 2, 3, 8 and 9. Those prefixes include the `[` as a member and cut `\s` and `\i` short. | Pattern `[\d]` against the input `[`: accepted as written. | The class interior without the brackets, as `regmatch` uses for the same class as a leaf. `[\d]` then accepts exactly the digits. | not executed | `CharClass.EscapeBracketDiscrepancy` | `CharClass.FilterEscapeClasses` |
| RegEx.c:157-158 | The classes for `\c` and `\C` start with `-.`. The scanner reads that as a range whose low end is the uninitialised `prev` (RegEx.c:499), so `-` and `.` are not members of their own. | Pattern `\c` against the input `.`: the answer depends on whatever `prev` holds. | A leading dash is a literal member, as in XML Schema classes, so `\c` accepts `-`, `.`, `_`, `:`, letters and digits. | not executed | `CharClass.NameClassesAsWritten` | `CharClass.NameClassesIntended` |

`CharClass.Filter` models `regfilter` as written, defects included, and `Evaluator.Match`
uses it; `Evaluator.MatchEscapedLetter` and `Evaluator.MatchNameClass` show what the matcher
then does on these inputs. The corrected scanner is `CharClass.FilterIntended`. It tests an
escaped letter by the closed form `CharClass.FilterEscape`, which
`CharClass.FilterEscapeClasses` proves is what scanning each class interior gives. It reads a
dash with no byte before it as a member. `CharClass.FilterPlainList` proves that the two scans
agree on classes of plain members.
