# Expressions: the Pratt core, the render, and the walks around them

This project models the hard parts of the expression plugin and proves what
its documentation and tests rely on. `dafny verify dfyconfig.toml` checks all
of it. The model follows the code, branch by branch; binding powers are
mathematical integers.

## How it is laid out

| files | what they are about |
|---|---|
| `operators.dfy`, `pratt.dfy` | operators, partly built expressions, one insertion on values, and a whole run of operators and operands as the `expr` rule drives it |
| `reference.dfy`, `canonical.dfy`, `tables.dfy` | the recursive-descent parser with a minimum binding power, canonical trees, and the tables of powers for which runs, parser and canonical form agree |
| `located.dfy`, `inputs.dfy` | trees as they lie in memory, and what the grammar hands the rules while an expression is read |
| `shared_arrays.dfy`, `rules.dfy`, `parse_in_place.dfy` | the TypeScript core: shared arrays rewritten in place, the rule actions over them, and a whole expression read |
| `go_values.dfy`, `go_boxes.dfy` | the Go core: boxes whose open slots hold a sentinel |
| `arena.dfy`, `parse_in_arena.dfy` | the Rust core: nodes by id, a recorded root, a size, a flag for expressions that outgrow the limit, groups that keep roots of their own, and a whole expression read |
| `render.dfy`, `counting.dfy`, `render_runs.dfy`, `render_sources.dfy`, `render_simulation.dfy`, `render_theorems.dfy` | the render as a transducer with a stack of markers, the plain recursive printer, what an object's `src` says, and what every run of the one has to do with the other |
| `round_trip.dfy`, `round_trip_proof.dfy`, `list_forms.dfy` | reading a rendered document back with the insertion run and the default operators, and where an operation has to be written as a list for that |
| `reducer.dfy` | reducing a parse with a callback, members first and then the whole list |
| `realize.dfy`, `parsed_forms.dfy`, `simplify_parsed.dfy` | realizing and simplifying handles into an arena that may hold cycles, the document a value stands for and its two forms, and the S-expression of an expression read into the arena |
| `unsafe_walk.dfy` | the C library's walk for values that cannot be written as JSON |
| `decimal.dfy`, `number_spelling.dfy` | exact decimal conversion of doubles, the shortest digits of Number::toString, section 6.1.6.1.20 of ECMA-262, and the one numeral that spells them |

Each core file keeps the form of its source. The rule actions, the arena, the
boxes, the limbs and the walks are classes and methods whose contracts tie
the new state to a function on values; the render and the printers are
functions. What is proved about the functions is then proved about the code
that the methods model.

## What came out

* **When the run is the parser.** The insertion run and the recursive parser
  build the same tree for every token sequence over a table of operators
  exactly when the table is non-crossing, suffix operators included
  (`Reference.AgreementIsNonCrossing`). The documented ladder of powers gives
  such tables where the prefix tier lies above the infix tiers. A
  left-associative infix operator put above the prefix tier, which the ladder's
  documentation allows, makes the table crossing: the run then closes over a
  prefix operator's operand that the recursive parser would extend
  (`Tables.TighterLeftwardInfixCrosses`).
* **Canonical trees.** In every tree a run builds, whatever the powers are, the
  prefix and infix operators bind their neighbours as the powers say, and each
  suffix is put over what does not let it bind deeper, a tie with a prefix
  excepted (`Canonical.BuiltIsSettled`). A suffix put over an infix operator may
  still bind looser than the operator above that one; the runs over a table
  build only canonical trees exactly when no suffix does so and no prefix and
  suffix tie (`Canonical.RunsAreCanonical`).
* **Uniqueness.** A sequence of prefix, infix and suffix operators and operands
  has no second canonical tree exactly for tables unambiguous on both sides
  (`Canonical.UniquenessIsNonCrossing`); where the suffixes also bind inside, the
  run gives back every canonical tree from its tokens
  (`Canonical.BuiltReadsBack`).
* **Rust.** A whole expression read into the arena is what the run on values
  builds, and between any two tokens every handle the rules hold leads to its
  root. The size recorded there is at least the number of nodes, groups over
  operations included, so while the flag is clear no expression is deeper than
  127. The flag goes up exactly where a recorded size passes 127, which over
  plain values is where more than 127 operators are read
  (`ParseInArena.ReadExpression`).
* **Go and TypeScript.** The Go tree refines the TypeScript one over every run
  of prefix and infix operators (`GoValues.GoRefines`). For a suffix the two
  agree exactly where the drill from the root passes down to the node that
  TypeScript's rule holds (`GoValues.SuffixAgreesExactly`); a suffix looser than
  an operator on the right spine is a case where they differ
  (`GoValues.LooserSuffixDiffers`). Either way Go's drill ends at the one place
  where it stops, and the operator is the last token of what results
  (`GoValues.SuffixTakes`).
* **The render.** What it writes reads back as the tree in its normal form
  (`RoundTripProof.RenderedReadsBack`), and a term is written as a list only
  where its expression would be read as part of another tree
  (`ListForms.ListsInInfix`, `ListForms.ListsInPrefix`). A list led by an object
  is refused exactly when the object's last `src` is a value other than `""`,
  false, null and an unsigned zero that is not one of the six default operators'
  strings (`RenderSources.UnreadableMeans`).
* **Realize and simplify.** Simplifying a realized value is simplifying the
  value exactly where the walk meets no plain array led by an object whose
  `src` is a node the walk is inside: realizing turns that `src` into the text
  `[CIRCLE]`, which then reads as an operator's source
  (`Realize.SimplifyRealized`, `Realize.TrapDisagrees`). No tree without a node
  inside itself holds such an array (`Realize.AcyclicSimplifies`). Every value
  stands for exactly one document, circles included, and the two walks give its
  plain arrays and its S-expression (`ParsedForms.EveryForm`); of an expression
  read into the arena, that is the S-expression of the tree the parser builds
  (`SimplifyParsed.ParsedSimplifies`).
* **Reducing in place.** Reducing members as they close and then the whole list
  gives what one reduction at the end gives exactly when no member the hook
  reduced came out `undefined`, which the second pass turns into null
  (`Reducer.InPlaceThenWhole`). One reduction is the walk of the postfix order
  over a stack, the same calls in the same order (`Reducer.OnceIsPostfix`).
* **The unsafe walk.** It gives the reason of the first unsafe place in the
  order in which the value is written (`UnsafeWalk.WalkGivesFirst`).
* **Numbers.** The digits kept denote the value IEEE 754 gives a double's
  fields (`ExactDecimal.ExactDecimal`), and the numeral laid out is the only one
  of its shape that says its number (`NumberSpelling.LayoutIsTheSpelling`).

Modelling choices: a run state holds the root, the depth of the node the last
infix rule left its caller holding (where TypeScript applies a suffix), and
the depth of the attachment point. Finished groups are operands. Text is a
sequence of pieces with strings, digits and words opaque; a held `src` counts
as a number where it is one unsigned run of digits or one led by a minus
sign. Digits carry whether they denote zero. The evaluator callback is any
function of all its calls so far. The three reasons the unsafe walk gives are
kept apart.

## Model

| member | source | states |
|---|---|---|
| Pratt.Prattify | ts/src/expr.ts:1527-1582 | One insertion leaves an expression with exactly one open slot after a prefix or infix operator, at the node of that operator it returns, and a whole one after a suffix |
| Pratt.PrattifyReading | ts/src/expr.ts:1527-1582 | For every operator kind and any powers, an insertion appends exactly the operator to the left-to-right tokens: no operand is lost or moved |
| Pratt.StepValid | ts/src/expr.ts:508-606 | Every rule action keeps the run state valid, with a slot open exactly after a prefix or infix operator |
| Pratt.StepReading | ts/src/expr.ts:508-606 | Every rule action appends exactly its token to the reading |
| Pratt.StepInnermost | ts/src/expr.ts:581-586 | The node a suffix goes to is always the innermost one an infix operator was attached at |
| Pratt.StepTopOpen | ts/src/expr.ts:581-586 | The node a suffix goes to is a group only where it is the whole expression |
| Pratt.BuiltReading | ts/src/expr.ts:1527-1582 | What a whole run builds is complete and reads as exactly the tokens that went in |
| Reference.FreeParseTakesAll | ts/src/expr.ts:1438-1446 | The recursive parser with no minimum power takes the whole phrase |
| Reference.BuiltIsMeaning | ts/src/expr.ts:1534-1551 | Over a non-crossing table the run builds the tree the recursive parser builds, for every sequence of prefix, infix and suffix operators and operands |
| Reference.InfixCrossingDisagrees | ts/src/expr.ts:1534-1551 | Operators that cross give a sequence on which run and parser differ |
| Reference.SuffixCrossingDisagrees | ts/src/expr.ts:1557-1576 | A suffix that crosses, or ties, gives a sequence on which run and parser differ |
| Reference.AgreementIsNonCrossing | ts/src/expr.ts:1527-1582 | Run and parser agree on every sequence over a table if and only if the table is non-crossing |
| Canonical.BuiltIsSettled | ts/src/expr.ts:1534-1576 | Whatever the powers, in every tree a run builds each prefix and infix operator binds its neighbours as the powers say, and each suffix stands over what does not let it bind deeper, ties with a prefix excepted |
| Canonical.BuiltIsCanonical | ts/src/expr.ts:1534-1576 | Over a table whose suffixes bind inside and never tie, every operator of the tree built binds both its neighbours as the powers say |
| Canonical.RunsAreCanonical | ts/src/expr.ts:1534-1576 | The runs over a table build only canonical trees if and only if its suffixes bind inside the operator above and never tie |
| Canonical.StrongIsMeaning | ts/src/expr.ts:1534-1576 | The recursive parser reads a tree of prefixes, infixes and suffixes back from its tokens when every operator on an edge fits |
| Canonical.CanonIsStrong | ts/src/expr.ts:1534-1576 | Over an unambiguous table, fitting the neighbour is fitting the whole edge |
| Canonical.UniquenessIsNonCrossing | ts/src/expr.ts:1447-1469 | Every sequence of prefix, infix and suffix operators and operands has at most one canonical tree if and only if the table is unambiguous on both sides |
| Canonical.BuiltReadsBack | ts/src/expr.ts:1527-1582 | Over an unambiguous table whose suffixes bind inside, the run over a canonical tree's tokens gives the tree back |
| Tables.LadderIsNonCrossing | ts/src/expr.ts:1447-1469 | Tables on the ladder with prefixes above infixes and one associativity a tier are non-crossing and unambiguous |
| Tables.DefaultsAreNonCrossing | ts/src/expr.ts:1470-1522 | The default operators are non-crossing and unambiguous |
| Tables.TighterLeftwardInfixCrosses | ts/src/expr.ts:1453-1465 | A left-associative infix operator above the prefix tier makes a table crossing |
| SharedArrays.UpdateExprNode | ts/src/expr.ts:1055-1066 | A node is rewritten in place to an operator and terms |
| SharedArrays.DupNode | ts/src/expr.ts:1068-1071 | A copy is fresh and holds the same terms |
| SharedArrays.Wrap | ts/src/expr.ts:1536-1538 | A node keeps its identity while its content moves under a new operator; the nodes stay a tree |
| SharedArrays.WrapLast | ts/src/expr.ts:1548-1551 | The last term goes under a fresh node; the nodes stay a tree |
| SharedArrays.PrattifyInfix | ts/src/expr.ts:1534-1553 | The infix branches on shared arrays do what the insertion on values does |
| SharedArrays.PrattifySuffix | ts/src/expr.ts:1557-1576 | The suffix branches on shared arrays do what the insertion on values does |
| SharedArrays.Prattify | ts/src/expr.ts:1527-1582 | The root keeps its identity, the nodes stay a tree without sharing, only fresh ones are added, nothing outside changes, and what they make up is the insertion on values with the returned node at its attachment point |
| Rules.PrattifyAt | ts/src/expr.ts:526-540 | Inserting at a node inside a larger expression rewrites just that part of the whole |
| Rules.PushAt | ts/src/expr.ts:594-606 | Pushing a finished operand adds its nodes to the tree and changes one node |
| Rules.ExprRules.Prior | ts/src/expr.ts:1020-1046 | An operation already held is wrapped where it is and keeps its identity; a prefix, or an atom, starts a fresh node |
| Rules.ExprRules.Prefix | ts/src/expr.ts:518-544 | The prefix action takes the run state to its next one and keeps the root's identity |
| Rules.ExprRules.Infix | ts/src/expr.ts:547-575 | The infix action takes the run state to its next one and keeps the root's identity |
| Rules.ExprRules.Suffix | ts/src/expr.ts:577-590 | The suffix action takes the run state to its next one, applied at the node the last infix rule held |
| Rules.ExprRules.Operand | ts/src/expr.ts:594-606 | The close of an operand's rule pushes it at the attachment point |
| ParseInPlace.Take | ts/src/expr.ts:506-606 | One input, handed to the rule that takes it, performs one step of the run and adds only fresh nodes and the operand's |
| ParseInPlace.ReadExpression | ts/src/expr.ts:506-606 | After a whole expression the nodes in memory form an unshared tree which is what the run builds, and what the recursive parser builds for every non-crossing table |
| GoValues.FillSolid | go/expr.go:156-196 | A tree without a sentinel is left alone by filling |
| GoValues.FillOpen | go/expr.go:156-196 | Filling from the root finds the one open slot, at TypeScript's attachment point |
| GoValues.HolesPad | go/expr.go:84-87 | An open expression has exactly one sentinel and a whole one none |
| GoValues.CleanPad | go/expr.go:1733-1752 | Erasing sentinels gives TypeScript's tree |
| GoValues.PadInfix | go/expr.go:1591-1640 | The infix branches on Go's tree are the canonical ones with sentinels |
| GoValues.GoStepAgrees | go/expr.go:717-822 | Every Go rule action for a prefix, an infix or an operand is the canonical one with sentinels |
| GoValues.GoRunAgrees | go/expr.go:717-822 | Every Go run of prefix and infix operators and operands is the canonical run with sentinels |
| GoValues.GoRefines | go/expr.go:1591-1666 | After every prefix of every run of prefix and infix operators and operands, the Go tree erases to TypeScript's and has one sentinel after an operator and none after an operand |
| GoValues.SuffixAgreesExactly | go/expr.go:1685-1731 | Go's suffix drill from the root equals TypeScript's suffix at the held node if and only if the drill passes every operator above it |
| GoValues.SuffixTakes | go/expr.go:1685-1731 | On every whole tree a suffix goes to the one depth where the drill stops, over what is there, and the erased tree's tokens are those of the tree and then the suffix |
| GoValues.StopsOnce | go/expr.go:1685-1731 | There is at most one depth at which the drill stops |
| GoValues.TighterRun | ts/src/expr.ts:1534-1551 | The run over `x a x b x`, where b binds tighter than a, nests b under a and holds b's node for the next suffix |
| GoValues.LooserSuffixDiffers | go/expr.go:1685-1731 | After the run over `x a x b x`, a suffix looser than a gives a Go tree that is not TypeScript's with sentinels |
| GoBoxes.FillNextSlotSeen | go/expr.go:160-196 | The depth-first fill with a set of boxes seen finds the slot the fill on values finds, changes nothing else, and keeps the boxes a tree |
| GoBoxes.MakeExpr | go/expr.go:201-213 | A fresh box holds the operator, its terms, and sentinels for the rest |
| GoBoxes.WrapExpr | go/expr.go:1672-1683 | A box keeps its identity while its content moves under a new operator |
| GoBoxes.Prattify | go/expr.go:1591-1666 | The insertion on boxes is the one on Go's values, a prefix without an open slot included, keeps a non-group root's box, and adds only fresh boxes |
| GoBoxes.PrattifySuffix | go/expr.go:1685-1731 | A suffix on any box, a group's included, keeps the box and gives what it gives on Go's values |
| Arena.Arena.Grow | rs/src/lib.rs:884-901 | Counting adds to the recorded root only, and the flag is up afterwards exactly if it was or that root's size is past 127 |
| Arena.Arena.Adopt | rs/src/lib.rs:920-928 | Taking a term counts its whole expression, unless it already belongs to this one, and raises the flag exactly if that is past the limit |
| Arena.Arena.Write | rs/src/lib.rs:968-971 | Writing a node over changes what it holds, and no root, size or flag |
| Arena.Arena.NewNodeUnder | rs/src/lib.rs:846-876 | A node enters under the root of another and is counted there with what its terms bring |
| Arena.Arena.DupNode | rs/src/lib.rs:986-993 | A copy belongs to the same root and counts for it |
| Arena.Arena.UpdateExprNode | rs/src/lib.rs:975-984 | A node is rewritten under its identity and keeps its root |
| Arena.Arena.SetLast | rs/src/lib.rs:1010-1020 | Assigning the last slot changes one node and counts what the term brings |
| Arena.Arena.PushTerm | rs/src/lib.rs:1022-1026 | Pushing changes one node and counts what the term brings |
| Arena.Arena.Prattify | rs/src/lib.rs:1339-1388 | The insertion in the arena is the one on values; the node returned records the root |
| Arena.Arena.PrattifyAt | rs/src/lib.rs:949-961 | From any node the core returns, the recorded root leads to the whole expression, whose size still covers its nodes; other expressions keep theirs |
| Arena.Arena.NewNode | rs/src/lib.rs:846-881 | A node entered by itself is a root whose size covers it and the expressions it takes in; a group takes in any expression, which keeps its own root |
| Arena.Arena.PriorExpr | rs/src/lib.rs:1392-1430 | An expression already held is wrapped under its own id; anything else starts at a fresh root; either way the size covers what is there |
| Arena.Arena.CloseParen | rs/src/lib.rs:3130-3177 | A group over any expression, an operation included, is a finished operand whose size covers it |
| Arena.Arena.OpenTernary | rs/src/lib.rs:3207-3226 | A ternary wraps the whole expression before it under its own id, or starts at a fresh root over a value |
| Arena.Arena.PushBranch | rs/src/lib.rs:3349-3351 | A ternary takes in a branch, an operation included, and its size covers it |
| Arena.Arena.PushAt | rs/src/lib.rs:920-934 | Pushing an operand, a group over an operation included, keeps the size at least the number of nodes reachable from the root, and equal to it while all operands are leaves |
| Arena.PrattifySize | rs/src/lib.rs:1339-1388 | An insertion adds exactly one node |
| Arena.DepthWithinSize | rs/src/lib.rs:729-733 | A tree is never deeper than it is large |
| Arena.Arena.DepthBounded | rs/src/lib.rs:755-767 | While the over-limit flag is clear no expression is deeper than 127 |
| ParseInArena.ExprRules.Prior | rs/src/lib.rs:1392-1430 | The first operator takes the run state to its next one and adds ids new to the arena |
| ParseInArena.ExprRules.Prefix | rs/src/lib.rs:2698-2726 | The prefix action takes the run state to its next one and spares every other expression |
| ParseInArena.ExprRules.Infix | rs/src/lib.rs:2728-2764 | The infix action takes the run state to its next one and spares every other expression |
| ParseInArena.ExprRules.Suffix | rs/src/lib.rs:2766-2785 | The suffix action takes the run state to its next one, applied at the node held |
| ParseInArena.ExprRules.Operand | rs/src/lib.rs:2790-2799 | The close of an operand's rule pushes it at the attachment point, with its nodes |
| ParseInArena.ExprRules.HandlesLeadToRoot | rs/src/lib.rs:1826-1834 | Between any two tokens the handles the rules hold record the root of the whole expression |
| ParseInArena.Take | rs/src/lib.rs:2697-2800 | One input, handed to the rule that takes it, performs one step of the run |
| ParseInArena.ReadExpression | rs/src/lib.rs:2697-2800 | After a whole expression the arena holds, from the root, what the run builds, and what the recursive parser builds for every non-crossing table; while the flag is clear it is no deeper than 127, and its size covers it; the flag goes up exactly if the root's recorded size is past 127, over values exactly if more than 127 operators were read |
| ParseInArena.SizeIsOperators | rs/src/lib.rs:884-901 | An expression over values has as many nodes as operators were read |
| Counting.CountUpAddsOne | ts/src/translate.ts:604-649 | Counting up adds exactly one to decimal digits of any length, through any run of nines |
| Counting.DecimalCountsUp | ts/src/translate.ts:604-649 | The digits of a list's next index are the digits counted up |
| Counting.DecimalDigits | ts/src/translate.ts:577-584 | The digits of an index denote it |
| Rendering.BeforeLastBar | ts/src/translate.ts:616-643 | The digit a carry raises is the last that is not a nine |
| RenderRuns.AdvanceProper | ts/src/translate.ts:658-675 | Containers are opened only where a value is due |
| RenderSimulation.PlainList | ts/src/translate.ts:348-351 | A list no operator leads is written as its elements between brackets |
| RenderSimulation.HeldEnds | ts/src/translate.ts:443-461 | A held value that ends is added, decides its list, or is written, exactly as the plain printer would have it |
| RenderSimulation.FirstSteps | ts/src/translate.ts:471-506 | The first element of a list settles whether the list is held, waits or streams, and the text written is the printer's |
| RenderSimulation.EndsArray | ts/src/translate.ts:511-523 | Ending a list leaves the stack and the text of the tree rebuilt then |
| RenderSimulation.EndsObject | ts/src/translate.ts:532-546 | Ending an object that is not refused leaves the stack and the text of the tree rebuilt then |
| RenderSimulation.PathIsTo | ts/src/translate.ts:564-584 | The markers of the open containers spell the path from the root to the value being read |
| RenderSimulation.EveryStepFollows | ts/src/translate.ts:667-675 | For every reachable stack and every event: a case applies, and the step fails, refuses or moves on just as rebuilding the tree does, to that tree's stack and text |
| RenderTheorems.RenderFollows | ts/src/translate.ts:684-686 | A run of the render from any reachable state is settled by what its events rebuild |
| RenderTheorems.RebuildTree | ts/src/translate.ts:667-682 | The events of a tree, where a value is due, add the tree or stop at its first unreadable list |
| RenderTheorems.RebuildReads | ts/src/translate.ts:667-682 | What is rebuilt keeps every event read |
| RenderTheorems.RenderPrints | ts/src/translate.ts:416-516 | A tree's events are written exactly as the plain recursive printer writes the tree, with a line break, or refused at the first unreadable list |
| RenderSources.SourceWritten | ts/src/translate.ts:271-305 | What the render takes from an object's written parts is what the object itself says: an operator it describes, a `src` that is refused, or neither |
| RenderSources.UnreadableMeans | ts/src/translate.ts:271-305 | A list an object leads is refused if and only if the object's last `src` exists and is a value other than the empty string, false, null and an unsigned zero, and no default operator's string |
| RenderSources.DescribesMeans | ts/src/translate.ts:237-246 | An object stands for an operator if and only if its last `src` is that operator's string |
| RenderTheorems.RenderAccepts | ts/src/translate.ts:651-686 | The render finishes if and only if the events are those of one tree with no list led by an object that is unreadable, as the tree's own members say |
| RenderTheorems.RenderAlwaysHasACase | ts/src/translate.ts:651-686 | Every failure is a protocol failure or a refusal: no reachable stack leaves a match without a case |
| RenderTheorems.ReadableHasNoOffence | ts/src/translate.ts:548-562 | A tree has no offence exactly when none of its lists is led by an unreadable object |
| RenderTheorems.OffencesFound | ts/src/translate.ts:562-584 | Every offence's path leads from the root to an unreadable object that is the first element of its list |
| RenderTheorems.RefusalIsFirstOffence | ts/src/translate.ts:536-584 | Whatever is refused begins the events of a tree, and the path names that tree's first offending object to end |
| RoundTrip.ReadTokens | ts/src/expr.ts:506-606 | The tokens read form a phrase the grammar lets through |
| RoundTripProof.TreeIsSound | ts/src/translate.ts:353-401 | The expression a value is written as is canonical for the default operators, binds as its item says, and denotes the value |
| RoundTripProof.TextBegins | ts/src/translate.ts:345-401 | No value's text begins with a closing piece |
| RoundTripProof.Reads | ts/src/translate.ts:353-401 | The text of a value, followed by anything, reads as the tokens of its expression |
| RoundTripProof.ExpressionReads | ts/src/translate.ts:353-401 | The run rebuilds a value's expression from its text |
| RoundTripProof.NormalIsSame | ts/src/translate.ts:548-562 | A tree's normal form is the tree if and only if no list in it is led by a description and every number is finite and unsigned |
| RoundTripProof.RenderedReadsBack | ts/src/translate.ts:92-95 | Whatever the render writes of any tree reads back as its normal form: descriptions that lead lists as their source text, a number that is not finite as its name, a negative one as the operator on its magnitude; and so as the same tree if and only if there are none of these |
| ListForms.ListsInInfix | ts/src/translate.ts:355-391 | Each term of an infix operation is written as an expression if the operation so written reads back as itself, and as a list if it does not |
| ListForms.ListsInPrefix | ts/src/translate.ts:377-402 | The term of a prefix operation is written as an expression if and only if the operation then reads back as itself |
| ListForms.GroupsAndLists | ts/src/translate.ts:393-402 | A group is written in parentheses, and a list is written as a list if and only if it is no operation of a default operator |
| ListForms.OverIsRead | ts/src/expr.ts:1534-1551 | An expression left as it is after an infix operator is read with the operator drawn down its left edge to the first term that fits, the tokens unchanged |
| Reducer.Reducing.Evaluation | ts/src/expr.ts:1596-1631 | A value already produced is left alone; any other is reduced, terms first, and marked |
| Reducer.Reducing.EvaluateEach | ts/src/expr.ts:1605-1621 | Terms are reduced in order into a new list |
| Reducer.Reducing.ReduceMembers | ts/src/expr.ts:772-785 | The close hook reduces the members of the list where they stand, in order |
| Reducer.OnceIsPostfix | ts/src/expr.ts:1596-1631 | One reduction gives what a stack gives over the value's postfix order, each operation's terms the values on top in order, with the same calls in the same order |
| Reducer.ReducesToMeaning | ts/src/expr.ts:1604-1621 | Reduced by a callback that looks only at the call, a value is what the callback answers to the meanings of its terms, each in its place |
| Reducer.OnceCalls | ts/src/expr.ts:1604-1612 | One reduction calls the evaluator exactly once for each operation and only adds calls |
| Reducer.ReducesOnce | ts/src/expr.ts:1593-1631 | Over a parsed value nothing of which is done, the set changes nothing: the reduction is the one without it |
| Reducer.RewriterIsBuiltFromTerms | ts/src/expr.ts:1585-1592 | A callback that returns another operator array for each operation is covered |
| Reducer.DoneStays | ts/src/expr.ts:1599-1601 | Values already produced come back as they are, without a call |
| Reducer.InPlaceThenWhole | ts/src/expr.ts:752-785 | However often the hook runs, the whole list reduced afterwards holds what one reduction at the end gives, which is what the members' postfix order gives, after the same calls, one an operation; equal if and only if no member the hook reduced came out undefined |
| Realize.OpensFewer | rs/src/lib.rs:1132-1148 | Each handle entered shrinks the set of nodes not yet open, so both walks end |
| Realize.Walk.RealizeSeen | rs/src/lib.rs:1114-1169 | The walk with an open stack realizes a value and leaves the stack as it was |
| Realize.Walk.SimplifySeen | rs/src/lib.rs:1184-1258 | The walk with an open stack simplifies a value and leaves the stack as it was |
| Realize.RealizedLead | rs/src/lib.rs:1262-1267 | After realizing, an array's lead reads as an operator just where it did before or in a trap |
| Realize.SimplifyRealized | rs/src/lib.rs:1109-1267 | Simplifying a realized value is simplifying the value if and only if the walk meets no trap |
| Realize.AcyclicSimplifies | rs/src/lib.rs:1109-1267 | Where no node is inside itself the two always agree |
| ParsedForms.EveryForm | rs/src/lib.rs:1109-1267 | Every live value stands for exactly one document, circles included; realizing it gives that document's plain arrays and simplifying it the S-expression |
| ParsedForms.StoredOnce | rs/src/lib.rs:1109-1267 | No value stands for two documents |
| ParsedForms.DocumentOf | rs/src/lib.rs:1109-1267 | Every live value stands for a document |
| ParsedForms.RealizesTo | rs/src/lib.rs:1114-1169 | Realizing gives an operator's description and then its terms, each slot in its place, and `[CIRCLE]` for a node met inside itself |
| ParsedForms.SimplifiesTo | rs/src/lib.rs:1184-1258 | Simplifying gives an operator's source and then its terms in order, those never filled left out, and `[CIRCLE]` for a node met inside itself |
| SimplifyParsed.SimplifiedIsSExpr | rs/src/lib.rs:1184-1258 | Simplifying an expression in the arena gives the S-expression of its tree |
| SimplifyParsed.ParsedSimplifies | rs/src/lib.rs:3612-3616 | What the rules have read simplifies to the S-expression of the tree the run builds, and so of the recursive parser's for every non-crossing table |
| Realize.TrapDisagrees | rs/src/lib.rs:1214-1267 | A node holding an array led by an object whose `src` is the node is a value on which they differ |
| UnsafeWalk.Walk.Value | go/clib/core.go:389-417 | The walk gives the reason the walk on values gives and leaves the path as it was |
| UnsafeWalk.Walk.EnterContainer | go/clib/core.go:420-449 | A container on the path is a cycle; any other is entered and left again however its walk ends |
| UnsafeWalk.Walk.Elems | go/clib/core.go:505-512 | Elements are walked in order to the first reason |
| UnsafeWalk.Walk.Fields | go/clib/core.go:517-538 | Emitted fields are walked in order to the first reason, others skipped |
| UnsafeWalk.Walk.Entries | go/clib/core.go:473-503 | Each key is checked before its value, to the first reason |
| UnsafeWalk.WalkDecides | go/clib/core.go:371-538 | From any path, nothing is found exactly where nothing unsafe is in the value and every path on from it is safe |
| UnsafeWalk.NothingFound | go/clib/core.go:358-538 | From the root, nothing is reported if and only if no unsafe leaf is reachable and no path repeats a container, so shared acyclic parts are never reported |
| UnsafeWalk.WalkGivesFirst | go/clib/core.go:389-538 | The walk gives the reason of the first unsafe place in the order the value is written, everything before it being safe |
| UnsafeWalk.ReasonIsThere | go/clib/core.go:389-449 | Text, number or cycle is given only where a bad text, a big number or a container inside itself is reached, and where all that is unsafe is so for one reason, that one is given |
| ExactDecimal.CarryFits | rs/tests/parity_test.rs:678-693 | Every product of a limb and a factor, with the carry, fits 64 bits, and the carry stays below the factor |
| ExactDecimal.Big.Multiply | rs/tests/parity_test.rs:676-687 | The limb loop multiplies the whole number exactly, in place |
| ExactDecimal.MultiplyByPower | rs/tests/parity_test.rs:688-699 | Multiplying in bounded steps gives the full power |
| ExactDecimal.Text | rs/tests/parity_test.rs:700-703 | Nine digits a limb, most significant first, denote the number |
| ExactDecimal.ExactDecimal | rs/tests/parity_test.rs:655-711 | For every positive finite double the digits have no leading zero and denote exactly the value section 3.4 of IEEE 754 gives the exponent and fraction fields, subnormals included |
| ShortestDigits.NextUp | rs/tests/parity_test.rs:614-627 | The candidate above is one more in the last place, a carry out of nines raising the exponent |
| ShortestDigits.NothingBetween | rs/tests/parity_test.rs:607-627 | No number of k significant digits, at any exponent, lies strictly between the two candidates |
| ShortestDigits.BetweenNeighbours | rs/tests/parity_test.rs:632-638 | The digits left over tell which candidate is nearer, and when they are equally near |
| ShortestDigits.Chosen | rs/tests/parity_test.rs:628-639 | The decision prefers one candidate over everything of as many digits that reads back |
| ShortestDigits.LayoutSays | rs/tests/parity_test.rs:713-737 | What is laid out, read as a numeral, is the number; it is fixed if and only if the number is from one millionth up to ten to the twenty-first, and no fraction ends in a zero |
| NumberSpelling.SpellingIsUnique | rs/tests/parity_test.rs:713-737 | Two numerals of the right shape and form that say the same number are the same |
| NumberSpelling.LayoutIsTheSpelling | rs/tests/parity_test.rs:713-737 | A numeral is the one laid out if and only if it has the shape, says the number, and is fixed exactly from one millionth up to ten to the twenty-first |
| ShortestDigits.JsNumber | rs/tests/parity_test.rs:570-653 | The result reads back, nothing of fewer digits does, and of as many digits it is the nearest, and even on a tie |

## Left out

- The engine, its lexer and the base grammar: rule alternates, counters, node seeding and replacement chains are not part of this model; the rules' choice of action is taken from the token and the run state.
- The `ternary` rule's steps, implicit-list collection and comma suppression: a ternary or a list is a finished operand of a run; what the arena does when a ternary opens and takes in a branch is modelled by itself.
- Operator tables from options, token ids and the fallback for unset powers: settled by reading one branch each.
- RoundTrip.ReadTokens: reads pieces, not characters, so quoting and tokenizing are not modelled; a key repeated in an object is kept as it was read.
- RenderSimulation.PathIsTo: gives the path as keys and indices; how a key is spelled in jq's syntax is not modelled.
- Arena.Arena.Grow: the parse budget that acts on the over-limit flag, and the release of the arena between parses, are not modelled.
- Reducer.Reducing.Evaluation: objects other than arrays are opaque, and the set's weak references and Go's and Rust's stand-ins for it are not modelled.
- Realize.Walk.RealizeSeen: a released handle stops the program in the source; here every handle is required to be live.
- UnsafeWalk.Walk.Value: the recovery from a walk that panics is not modelled, and the closure that only looks for cycles is the same walk without leaves.
- ShortestDigits.JsNumber: takes which reals read back as any interval around the number; the sign, zero and non-finite numbers are settled by one branch each and not modelled.
- ShortestDigits.LayoutSays: says which digits stand before and after the point and the power; spelling them as characters is not modelled.
- ExactDecimal.ExactDecimal: takes the exponent and fraction fields of the double; cutting them out of its bits is not modelled.
- Go's and TypeScript's simplifiers: Rust's stands for the three.
