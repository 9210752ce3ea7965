# ROBDD equivalence checker: a Dafny model

This project models the engine of the ROBDD equivalence checker in
`ROBDD_Checker/ROBDD_Checker.py`. The engine has four parts:

- **Full decision tree.** `BDDBuilder.build_bdd` expands a Boolean formula into a complete decision tree over a variable order. Each variable is set to 0 on the low branch and 1 on the high branch, and the formula is evaluated at the leaves.
- **Reduction.** `BDDBuilder.build_robdd` reduces the tree bottom-up with a `node_cache`. It drops a node whose two reduced children are equal, and it shares equal nodes through the cache.
- **Comparison.** `check_equivalence` resets the cache before reducing each of the two trees, then compares the results with its nested `compare_nodes`.
- **Variable extraction.** `normalize_expression` and `extract_variables` rewrite the operator symbols and collect the variable names of a formula's text.

The model is split into modules:

- `Formula` (formula.dfy): formulas as syntax trees, evaluation under a 0/1 assignment, and how the builder accumulates assignments.
- `Diagram` (diagram.dfy): decision diagrams as values. `BDDNode`'s structural `==` is datatype equality, and `is_terminal` is `Terminal?`. The module also defines the shape predicates: complete, ordered, and free of redundant nodes.
- `TreeBuilder` (tree_builder.dfy): `build_bdd`.
- `Reduction` (reduction.dfy): what `build_robdd` computes, stated on values. This includes canonicity, meaning two reduced diagrams over one order are equal exactly when they compute the same function.
- `UniqueTable` (unique_table.dfy): `build_robdd` as the source runs it. A `Builder` class holds a node arena and the `node_cache` map and updates them in place. Its methods are proved against `Reduction.ReduceTree`, and it keeps an invariant: one cached node per key, and no two cached nodes equal.
- `Equivalence` (equivalence.dfy): `compare_nodes` as written, a corrected comparator, the truth-table theorem, and `check_equivalence`.
- `Variables` (variables.dfy): `normalize_expression` and `extract_variables`.
- `Scenarios` (scenarios.dfy): worked examples on small formulas, proved as lemmas.
- `Wrappers` (wrappers.dfy): `Option` and `Result`.

The model has no I/O at its edges. A formula comes in already parsed: `Formula.Expr` stands for the text that `eval` would read. An evaluation error is a `Result` value, where the source raises `ValueError`.

## Model

| member | source | states |
|---|---|---|
| Formula.Eval | ROBDD_Checker/ROBDD_Checker.py:78-86 | evaluation fails only by naming a free variable the assignment does not bind; it succeeds whenever every free variable is bound |
| Formula.Bit | ROBDD_Checker/ROBDD_Checker.py:83 | `int(bool(...))` is 0 or 1, and 1 exactly for true |
| Formula.ExtendBinds | ROBDD_Checker/ROBDD_Checker.py:45-52 | along a path, the copied and extended assignments bind each variable of a duplicate-free order to its own bit and leave other bindings alone |
| Diagram.CompleteLeafCount | ROBDD_Checker/ROBDD_Checker.py:45-55 | a tree complete over an order of n variables has 2^n leaves |
| Diagram.CompleteShape | ROBDD_Checker/ROBDD_Checker.py:45-55 | every 0/1 path shorter than the order ends at a decision node on `variables[len(path)]`; every full-length path ends at a terminal |
| Diagram.FollowComplete | ROBDD_Checker/ROBDD_Checker.py:46-52 | in a complete tree, following an assignment ends at the leaf of the 0/1 path it selects (low for 0, high for 1) |
| Diagram.CompleteOrdered | ROBDD_Checker/ROBDD_Checker.py:45-55 | a complete tree tests its variables in the build order |
| TreeBuilder.BuildBdd | ROBDD_Checker/ROBDD_Checker.py:40-55 | a successful build is complete over the order (the nodes at depth i branch on vars[i]) and all its leaves are 0 or 1 |
| TreeBuilder.BuildBddBase | ROBDD_Checker/ROBDD_Checker.py:41-43 | with no variables left, the result is one terminal holding the 0/1 value of the formula, or that evaluation's error |
| TreeBuilder.BuildBddLeafCount | ROBDD_Checker/ROBDD_Checker.py:40-55 | the full tree has exactly 2^n leaves |
| TreeBuilder.BuildBddLeaf | ROBDD_Checker/ROBDD_Checker.py:40-55 | the leaf at the end of every 0/1 path holds `int(bool(...))` of the formula under the assignment that path binds, and that evaluation succeeds |
| TreeBuilder.BuildBddSucceeds | ROBDD_Checker/ROBDD_Checker.py:40-55 | the build succeeds when the starting assignment and the order together bind every free variable |
| TreeBuilder.BuildBddFails | ROBDD_Checker/ROBDD_Checker.py:40-55 | a failed build names a free variable bound by neither the starting assignment nor the order |
| Reduction.ReduceTree | ROBDD_Checker/ROBDD_Checker.py:57-76 | the reduced diagram has no node with two equal children and tests no variable the input did not test |
| Reduction.ReducePreservesFollow | ROBDD_Checker/ROBDD_Checker.py:66-70 | reduction preserves the Boolean function: every assignment reaches the same terminal value |
| Reduction.ReducePreservesOrder | ROBDD_Checker/ROBDD_Checker.py:57-76 | a diagram ordered by an order stays ordered by it: on each path the variables remain a subsequence of the order |
| Reduction.ReducePreservesBitLeaves | ROBDD_Checker/ROBDD_Checker.py:61-64 | reduction keeps 0/1 leaves |
| Reduction.ReduceFixesReduced | ROBDD_Checker/ROBDD_Checker.py:57-76 | a diagram with no redundant node is left unchanged |
| Reduction.ReduceIdempotent | ROBDD_Checker/ROBDD_Checker.py:57-76 | reducing twice is reducing once |
| Reduction.ReduceOverwritten | ROBDD_Checker/ROBDD_Checker.py:66-67 | after the root's `low`/`high` fields are overwritten with the reduced children, reducing that root again gives the same diagram |
| Reduction.Canonical | ROBDD_Checker/ROBDD_Checker.py:69-76 | two reduced diagrams ordered by one duplicate-free order that agree on every assignment are equal |
| Reduction.ReduceCanonical | ROBDD_Checker/ROBDD_Checker.py:57-76 | for diagrams ordered by one duplicate-free order, the reductions are equal if and only if the diagrams compute the same function |
| UniqueTable.UnfoldInjective | ROBDD_Checker/ROBDD_Checker.py:19-28 | on the nodes of one cache lifetime, structural `__eq__` and identity coincide |
| UniqueTable.CacheHitIsStructural | ROBDD_Checker/ROBDD_Checker.py:72-73 | a cache lookup for a decision key succeeds exactly when some cached node is structurally equal to the node being reduced |
| UniqueTable.RegionSize | ROBDD_Checker/ROBDD_Checker.py:62-63 | the nodes cached since the last reset all denote distinct diagrams |
| UniqueTable.Builder.constructor | ROBDD_Checker/ROBDD_Checker.py:31-32 | a builder starts with an empty `node_cache` |
| UniqueTable.Builder.ResetCache | ROBDD_Checker/ROBDD_Checker.py:318 | `node_cache = {}` empties the cache and leaves every existing node as it was |
| UniqueTable.Builder.CacheTerminal | ROBDD_Checker/ROBDD_Checker.py:61-64 | a terminal returns the one cached node for its value, caching it if the value is new; no existing key is rebound |
| UniqueTable.Builder.MakeNode | ROBDD_Checker/ROBDD_Checker.py:69-76 | equal reduced children give the low child; otherwise the result is the cached node structurally equal to the decision node, which is cached if new; the cache only grows |
| UniqueTable.Builder.Reduce | ROBDD_Checker/ROBDD_Checker.py:57-76 | the returned node unfolds to `ReduceTree` of the input; the invariant holds; the cache only gains keys; the cached diagrams gain exactly the result's subdiagrams |
| UniqueTable.Builder.ReduceDecision | ROBDD_Checker/ROBDD_Checker.py:66-76 | the decision-node case: the children are reduced first, then `MakeNode` applies; the result is as for `Reduce` |
| UniqueTable.Builder.ReduceChildren | ROBDD_Checker/ROBDD_Checker.py:66-67 | the low child is reduced, then the high child; both results are canonical nodes of their reduced diagrams, and the cached diagrams gain the subdiagrams of both |
| UniqueTable.Builder.BuildRobdd | ROBDD_Checker/ROBDD_Checker.py:57-76 | `None` gives `None` and changes nothing; a root gives its reduced diagram; on a fresh cache the nodes cached are exactly one per distinct subdiagram of the result |
| Equivalence.CompareNodes | ROBDD_Checker/ROBDD_Checker.py:328-335 | `compare_nodes` is true exactly when the two diagrams are equal once their variable labels are erased |
| Equivalence.CompareNodesLaws | ROBDD_Checker/ROBDD_Checker.py:328-335 | both absent gives true, one absent gives false, terminals compare by value, a terminal never equals a decision node; the comparator is reflexive and symmetric and ignores variable labels |
| Equivalence.CompareLabelled | ROBDD_Checker/ROBDD_Checker.py:328-335 | the comparator with `var` compared as well is true exactly when the diagrams are equal |
| Equivalence.EquivalentIffSameTruthTable | ROBDD_Checker/ROBDD_Checker.py:311-337 | for two formulas built under one duplicate-free order, the reduced diagrams compare equal if and only if the formulas agree on all 2^n assignments |
| Equivalence.CompareNodesAcceptsEquivalent | ROBDD_Checker/ROBDD_Checker.py:328-337 | `compare_nodes` as written never rejects two formulas with the same truth table under one duplicate-free order |
| Equivalence.LabelBlindFalsePositive | ROBDD_Checker/ROBDD_Checker.py:335 | `compare_nodes` as written accepts `A & (B \| ~B)` and `B & (A \| ~A)` under the order A B, though A = 1, B = 0 tells them apart |
| Equivalence.CheckEquivalence | ROBDD_Checker/ROBDD_Checker.py:311-337 | without both trees, it asks for a build and changes nothing; otherwise it shows the verdict of `compare_nodes` on the two reduced diagrams; because the cache is reset before each reduction, the arena grows by one node per distinct subdiagram of each result, and the cache ends up holding only the second diagram |
| Variables.ReplaceChar | ROBDD_Checker/ROBDD_Checker.py:247 | `str.replace` of one character: text without the character is unchanged, the character is gone when the replacement lacks it, and nothing new appears |
| Variables.Normalize | ROBDD_Checker/ROBDD_Checker.py:246-248 | no `~`, `&` or `\|` survives normalisation, and text without them comes back unchanged |
| Variables.NormalizeIdempotent | ROBDD_Checker/ROBDD_Checker.py:279-283 | normalising text that is already normalised, as `build_bdds` then `extract_variables` do, changes nothing |
| Variables.NormalizeIsOnePass | ROBDD_Checker/ROBDD_Checker.py:247 | the three chained replacements equal one left-to-right pass that spells out each operator symbol |
| Variables.Tokens | ROBDD_Checker/ROBDD_Checker.py:244 | every token is a letter or underscore followed by word characters |
| Variables.TokensAreMatches | ROBDD_Checker/ROBDD_Checker.py:244 | the tokens are exactly the substrings the pattern `\b[a-zA-Z_]\w*\b` matches |
| Variables.Insert | ROBDD_Checker/ROBDD_Checker.py:244 | adding a name to a strictly sorted list keeps it strictly sorted and adds exactly that name |
| Variables.Collect | ROBDD_Checker/ROBDD_Checker.py:244 | the set of the non-keyword tokens, as a strictly sorted list |
| Variables.ExtractVariables | ROBDD_Checker/ROBDD_Checker.py:242-244 | the result is strictly sorted and duplicate-free; it holds exactly the non-keyword identifiers of the normalised text, none of them `and`, `or`, `not`, `True` or `False` |
| Scenarios.SharingExample | ROBDD_Checker/ROBDD_Checker.py:57-76 | `(A & B) \| (A & ~B)` under A B reduces to the 3-node diagram of A alone under A |
| Scenarios.ConjunctionExample | ROBDD_Checker/ROBDD_Checker.py:57-76 | `A & B` under the order A B, and under B A, reduces to a test of the first variable over 0 and a test of the second: 4 nodes either way |
| Scenarios.ConstantExample | ROBDD_Checker/ROBDD_Checker.py:41-43 | a constant true formula with no variables is the single terminal 1, already reduced |
| Scenarios.MissingVariableExample | ROBDD_Checker/ROBDD_Checker.py:40-55 | `A & B` under the order A fails on B |
| Scenarios.DifferentOrdersExample | ROBDD_Checker/ROBDD_Checker.py:290-291 | with each formula under its own order, `A & B` under A B and under B A: `compare_nodes` accepts the pair, while comparing labels as well rejects it |

## Left out

- Text evaluation. `evaluate_expression` substitutes numbers into the formula's text and calls Python's `eval`. The model evaluates a parsed syntax tree, so three things are not modelled:
  - the text-to-tree parsing;
  - the corruption caused when one variable name is a substring of another;
  - errors from malformed text. The only modelled error is an unbound variable.
- Formula.Eval: `and`/`or` short-circuit as Python's `eval` does, which differs from a short-circuit-free reading. So `A & B` under the order A fails only on the branch where A is 1.
- Missing configuration errors. An order that misses a variable is not rejected up front. The build fails on that variable through evaluation (`Scenarios.MissingVariableExample`). An order with extra or duplicated variables is accepted.
- Diagram.Follow: a variable the assignment does not bind reads as 0. This makes following a diagram a total function. The orders the builder uses bind every variable a diagram tests.
- Variables.IsWordChar: `\w` is taken to be the ASCII letters, digits and underscore. For Python strings it also matches other Unicode letters and digits.
- Upper-casing of formula text. `build_bdds` and `update_dropdowns` upper-case the formula before normalising it; the model starts from the text they pass on.
- GUI actions.
  - `build_bdds` logic not modelled: its message boxes, its empty-text and no-variable checks, and its choice between the selected order and the extracted one.
  - Not modelled at all: `update_dropdowns`, `update_order_options`, and the Tkinter user interface.
- Drawing and graph conversion: `draw_bdd`, `create_networkx_graph`, `show_matplotlib_graph` and their layout constants.
- UniqueTable.Builder.Reduce: the result nodes live in an arena separate from the input tree. The source instead overwrites the `low` and `high` fields of the input tree's own nodes and reuses those nodes as the canonical ones. `Reduction.Overwritten` and `Reduction.ReduceOverwritten` state the value-level effect of that overwrite. Object identity of the input tree's nodes and aliasing between the two trees are not modelled.
- UniqueTable.Builder.ReduceDecision: the same separate-arena gap; the input decision node is not the node that gets cached.
- UniqueTable.Builder.ReduceChildren: the reduced children are returned, not written into the input node's `low` and `high` fields.
- UniqueTable.Builder.BuildRobdd: the same separate-arena gap for the root passed in; that root is left as it was.
- Equivalence.CheckEquivalence: the `try`/`except` around it and its message boxes are not modelled; nothing in the model can fail there. Its verdict is the one the source shows, from `compare_nodes` as written. The corrected comparator `CompareLabelled` is proved sound and complete only for two formulas built under one shared order (`EquivalentIffSameTruthTable`). The source lets each formula have its own order, and across orders the corrected comparator rejects equal functions (`Scenarios.DifferentOrdersExample`).
- `__hash__`: not modelled separately. The cache is a map keyed on a value or on a variable with two child indices; `UniqueTable.UnfoldInjective` shows this keys nodes as structural equality does.
- Integer width: terminal values are unbounded integers. The builder only produces 0 and 1.

## Findings

| source | as written | input that shows it | evidently intended | confidence | as-written member | corrected member |
|---|---|---|---|---|---|---|
| ROBDD_Checker/ROBDD_Checker.py:335 | `compare_nodes` compares only the shape and leaves of the two diagrams, never the variable that matching nodes branch on | `A & (B \| ~B)` against `B & (A \| ~A)` under the order A B: the reduced diagrams test A and B respectively over the same two terminals, and are reported equivalent; A = 1, B = 0 gives 1 against 0 | compare the variables too, so that for two formulas built under one shared order the verdict is "equivalent" exactly when they have the same truth table | high (not executed) | Equivalence.LabelBlindFalsePositive | Equivalence.EquivalentIffSameTruthTable |
