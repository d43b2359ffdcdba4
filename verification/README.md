# Verified models of the Kconfig engine, the ECDSA arithmetic and the SSH channels

A Dafny 4.11 model of three parts of the repository and proofs about it.
`dafny verify dfyconfig.toml` checks everything.

**The Kconfig engine** (`pdk/config`). Dependency expressions over the three values n < m < y are rewritten in
place by mutually recursive routines. `KconfigExpr` holds symbols, expressions and `expr_calc_value`;
`ExprTransform`, `ExprEq`, `ExprEqComplete`, `ExprJoin`, `ExprDups`, `ExprEliminate`, `ExprReduced` and
`ExprContradiction` hold the rewriters as functions on trees with their theorems; `ExprRewriter` holds the routines as
the program has them, with the rewrite counter and operand slots overwritten in place, proved against those functions.
The duplicate passes are started with one slot for both arguments, so a rewrite is seen through either; a tree is
therefore a spine, which no pass changes, and a sequence of slots. `SymbolTable`, `Walks`, `SymDeps` and `SymRank` model the search for dependency cycles;
`SymFresh`, `SymMeaning` and `SymValue` the value cache; `MenuDeps`, `MenuTree`, `MenuConditions`, `MenuShape`,
`MenuMeaning`, `MenuFinalize`, `MenuWalk` and `MenuRoot` the menu tree, a heap of entries whose links are overwritten.
An environment gives each symbol a tristate and a string: Boolean symbols are n or y, the built-in symbols and interned
constants have distinct strings.

**The ECDSA arithmetic** (`ecdsa`). `Modular` and `NumberTheory` (inverses), `Factorization`, `PolynomialRing` and
`Polynomials` (square-and-multiply modulo a polynomial), `EllipticCurve` and `CurveGroup` (chord and tangent),
`ScalarMul` and `PointOrder` (signed double-and-add, and when it fails), `Ecdsa` and `EcdsaExample` (signing and
verifying, sections 4.1.3 and 4.1.4 of SEC 1), `HalfOrder` (the low-s encodings and their rounded threshold), `Bytes`,
`Der` and `DerShortest` (sections 8.1.3, 8.3 and 8.19 of X.690). The field's modulus and the order are prime by
definition, not by `is_prime`. Closure, commutativity and inverses of the group are proved; associativity of point addition is the one
hypothesis (`Associative`, part of `IsGroup`).

**SSH channels and buffered files** (`paramiko`). `BufferedPipe` and `Channel` are the classes;
`ChannelState` says what each locked step does; `ChannelFlow`, `ChannelStreams`, `ChannelEnds` and `ChannelProgress` are
the protocol of two endpoints (section 5.2 of RFC 4254) with any interleaving of threads, where what a thread holds between two locked regions is
part of the state. `Lines` and `BufferedFile` model buffered reading and writing over a stream cut into pieces
anywhere.

Where the program misses what it promises, the model keeps the program's behaviour, and the members named say for which
inputs:

- `expr_eq` is not reflexive on quoted constants (`EqualIsEquivalence`, `EqualMissesConstants`).
- `expr_eliminate_dups` can turn an m into n or y (`DropChangesExactlyM`, `ContradictionFolds`, `SharpeningHappens`);
  `expr_trans_bool` and `expr_trans_compare` are right only under conditions (`TransBoolNeedsNormalForm`,
  `TransCompareNotIff`).
- The comment at `pdk/config/expr.c:489` says that (a != m) && (a != n) becomes a = m; the code makes it a = y, which is
  right.
- `Point.double` fails on a point with y = 0, so multiplying a point of even order N fails whenever a prefix of the
  recoded multiplier is N/2 modulo N (`MulFailsIff`, `FailsIffEvenOrder`, `OwnNegativeFails`, `MultiplyOnAxis`).
- `n * point == INFINITY` holds of every point that carries the order n, as the multiplier is reduced first (the first
  clause of `PointMul`): the order checks in `ellipticcurve.py:74` and `ecdsa.py:87` cannot fail for such points.
- `sign` does not reduce r modulo n: a signature with x(kG) >= n is rejected by `verifies` (`SignatureVerifies`,
  `SignWithOwnKey`).
- The `canonize` encodings compare s with the double `order / 2`, which is not half of the order for any of the six
  curves: an s next to the middle comes out high (`LowSIsLowIff`, `SafeOrderIff`, `CurveOrdersMiss`, `EverySReached`).
  Both s and n - s are accepted all the same (`NegatedVerifiesAlike`).
- `encode_integer` writes a length of more than 127 in one byte (`IntegerRoundTrip`, `SigDerRoundTrip`);
  `encode_oid` accepts a negative second number (`OidRoundTrip`); the check in `read_number` comes one byte late (`ReadNumber`).
- Extended data of an unknown type costs the sender its window for good (`UnknownTypeLeaks`, `LostForGood`, `AllLost`).
- `set_event` leaves the event clear, against its documentation, exactly if the pipe is closed and empty (`SetEvent`).
- A comment in `file.py:353` announces a forced flush in line mode; the code returns before it, so a long line waits in
  the buffer (the last clause of `Write`).
- `read` between two `readline` calls in universal newline mode can lose a newline (`ReadThenReadLine`,
  `MixedReadsLoseNewline`).

## Model

| member | source | states |
|---|---|---|
| ExprTransform.EliminateYNExact | pdk/config/expr.c:235-319 | In every environment, removing the y and n operands leaves the value of an expression as it is. |
| ExprTransform.EliminateYNNormal | pdk/config/expr.c:235-319 | Afterwards no AND or OR has a y or n operand; doing it again changes nothing and the tree has not grown. |
| ExprTransform.EliminateYNShrinks | pdk/config/expr.c:235-319 | The weight of a tree never grows, and strictly shrinks if there was anything to remove: the measure on which expr_eliminate_dups stops. |
| ExprTransform.TransformExact | pdk/config/expr.c:640-775 | In every environment expr_transform keeps the value. |
| ExprTransform.TransformNormal | pdk/config/expr.c:640-775 | Its result is in negation normal form: NOT stands only over a symbol that is not y, m or n, and no Boolean symbol is compared with y, m or n. |
| ExprTransform.NormalIffFixed | pdk/config/expr.c:640-775 | The expressions in that form are exactly those it leaves alone. |
| ExprTransform.TransformIdempotent | pdk/config/expr.c:640-775 | Transforming twice is transforming once. |
| ExprTransform.TransBoolKeepsN | pdk/config/expr.c:321-345 | On expressions with NOT over symbols only, the rewrite keeps whether the value is n and never raises it. |
| ExprTransform.TransBoolNeedsNormalForm | pdk/config/expr.c:321-345 | Without that form it can fail: on !(A != n), rewritten to !A, whether the value is n is kept exactly where A is not m. |
| ExprTransform.TransCompareExact | pdk/config/expr.c:881-940 | For y and n, and with two-valued symbols under NOT, the rewritten test is y exactly where the expression has, or for != has not, that value, and n elsewhere. |
| ExprTransform.TransCompareNotIff | pdk/config/expr.c:881-940 | For a negated symbol the test is right exactly in the environments where the symbol is not m: the hypothesis of the theorem is needed. |
| ExprTransform.TransCompareModIff | pdk/config/expr.c:881-940 | Against m the test is right for an AND or OR exactly where its value is n, and for anything else exactly under an even number of NOTs. |
| ExprTransform.TransBoolRemovesTests | pdk/config/expr.c:321-345 | expr_trans_bool leaves no test of a tristate symbol against n, and changes nothing but those. |
| ExprEq.ElimEqRecCancels | pdk/config/expr.c:135-166 | Cancelling removes one and the same common part from both expressions: each is the connective of that part and its residue. |
| ExprEq.ElimEqSound | pdk/config/expr.c:168-191 | If the residues have equal values so had the originals, and likewise for <= in either direction. |
| ExprEq.EqualSound | pdk/config/expr.c:193-233 | expr_eq true implies equal values in every environment. |
| ExprEq.ResidueYesMeansBelow | pdk/config/menu.c:262-267 | A residue of y in the second argument means the first is below the second in every environment, the test for adopting a sub-menu. |
| ExprEq.ExtractEqExact | pdk/config/expr.c:852-879 | Extracting common operands: each argument is the connective of what was extracted and its residue. |
| ExprEq.ExtractExact | pdk/config/expr.c:830-850 | The same after both residues have had y and n removed. |
| ExprEqComplete.EqualIffSameShape | pdk/config/expr.c:193-233 | On trees without y or n as operands expr_eq holds exactly if the trees are the same up to the order and grouping of each connective's operands and each connective, at every depth, has at most one quoted constant, once. |
| ExprEqComplete.EqualIsEquivalence | pdk/config/expr.c:193-233 | There expr_eq is symmetric and transitive, and reflexive exactly on the trees that meet that condition on quoted constants. |
| ExprEqComplete.EqualMissesConstants | pdk/config/expr.c:147-149 | So "s" && "t" does not equal itself. |
| ExprEqComplete.PairEqualsItself | pdk/config/expr.c:147-149 | A conjunction of two symbols or constants equals itself exactly if not both are quoted constants. |
| ExprEqComplete.AbsorbedAreEqual | pdk/config/expr.c:168-191 | With n as an operand expr_eq also holds of trees that are not the same: a && n and b && n for any a and b. |
| ExprEqComplete.ElimEqRecBags | pdk/config/expr.c:135-166 | The residues hold exactly the operands that the other side does not have, counted with multiplicity, and of those it has the quoted constants and the operands that do not equal themselves. |
| ExprEqComplete.ExtractEqBags | pdk/config/expr.c:852-879 | Extraction takes out exactly the operands both sides have, with multiplicity, quoted constants too, but not operands that do not equal themselves. |
| ExprEqComplete.ExtractEqIsElimEq | pdk/config/expr.c:852-879 | Extraction leaves the residues that cancelling leaves exactly if the two sides share no quoted constant. |
| ExprEqComplete.ExtractUsesUpIff | pdk/config/expr.c:830-879 | The first argument is used up exactly if every one of its operands occurs in the second as often and equals itself. |
| ExprEqComplete.ElimEqBags | pdk/config/expr.c:168-191 | For two trees of one connective, or a tree and a single operand on either side, the residues of expr_eliminate_eq are the arguments without their common operands, constants apart. |
| ExprJoin.JoinOrExact | pdk/config/expr.c:350-412 | Whenever two operands are joined under OR the result is their maximum in every environment. |
| ExprJoin.JoinAndExact | pdk/config/expr.c:414-506 | Whenever two operands are joined under AND the result is their minimum in every environment, including (a != m) && (a != n) -> a = y, which the comment in the source gives as a = m. |
| ExprJoin.JoinWeight | pdk/config/expr.c:350-506 | A join is lighter than its operands together, starts no new tree of the same connective and keeps NOT over symbols. |
| ExprDups.Dups1Exact | pdk/config/expr.c:508-558 | The first pass over the operands, both arguments being one and the same tree, keeps the value of the whole in every environment. |
| ExprDups.Dups1SelfExact | pdk/config/expr.c:508-558 | So does the pass started on a tree from outside. |
| ExprDups.NegationInMeans | pdk/config/expr.c:578-607 | If the negation of an operand is found inside an expression, that expression already absorbs it. |
| ExprDups.DropChangesExactlyM | pdk/config/expr.c:578-607 | A dropped operand leaves the whole at n in an AND and at y in an OR, which changes its value exactly where it was m. |
| ExprDups.Dups2Sharpens | pdk/config/expr.c:560-614 | The second pass can only turn m into n or y, never anything else. |
| ExprDups.Dups2SelfSharpens | pdk/config/expr.c:560-614 | The same for the pass started from outside. |
| ExprEliminate.PassShrinks | pdk/config/expr.c:616-638 | A pass that counts a rewrite leaves a strictly lighter tree once y and n are removed, so the loop ends. |
| ExprEliminate.EliminateDupsSharpens | pdk/config/expr.c:616-638 | The result refines the input in Kleene's order: a definite n or y never changes. |
| ExprEliminate.EliminateDupsExactOnTwoValues | pdk/config/expr.c:616-638 | It has the input's value in every environment where all symbols are n or y. |
| ExprEliminate.QuietIsIrredundant | pdk/config/expr.c:508-638 | A pass that counts nothing has changed nothing, and then no two operands can be joined and no operand is negated inside its tree, at any depth. |
| ExprEliminate.EliminateDupsIrredundant | pdk/config/expr.c:616-638 | So the result holds no joinable or contradicted operand at any depth, and eliminating again changes nothing. |
| ExprRewriter.Rewriter.EliminateEqRec | pdk/config/expr.c:135-166 | The routine that overwrites both arguments and counts rewrites computes the cancelling function the theorems are about, count included. |
| ExprRewriter.Rewriter.EliminateEqLeaf | pdk/config/expr.c:147-165 | The same for two arguments that are not trees of the connective. |
| ExprRewriter.Rewriter.EliminateEq | pdk/config/expr.c:168-191 | The same for the choice of the connective. |
| ExprRewriter.Rewriter.ExprEqual | pdk/config/expr.c:193-233 | expr_eq, which works on copies and restores the counter, decides the equality the theorems are about. |
| ExprRewriter.Rewriter.EliminateDups1 | pdk/config/expr.c:508-558 | On operand slots updated in place, with the slot reached through both arguments, the first pass computes its specification and count. |
| ExprRewriter.Rewriter.EliminateDups1Tip | pdk/config/expr.c:524-555 | One pair of slots: the same slot, a nested tree, or a join. |
| ExprRewriter.Rewriter.EliminateDups1Self | pdk/config/expr.c:527-532 | A nested tree is worked on as its own pair of arguments. |
| ExprRewriter.Rewriter.EliminateDups2 | pdk/config/expr.c:560-614 | The second pass on slots updated in place computes its specification and count. |
| ExprRewriter.Rewriter.EliminateDups2Tip | pdk/config/expr.c:575-611 | One slot against a tree: it is replaced by n or y if its negation is in the tree. |
| ExprRewriter.Rewriter.EliminateDups2Self | pdk/config/expr.c:560-614 | A nested tree in the second pass. |
| ExprRewriter.Rewriter.EliminateDups | pdk/config/expr.c:616-638 | The loop until a round counts nothing terminates, returns the function the theorems are about and restores the counter. |
| ExprReduced.JoinFoundIff | pdk/config/expr.c:350-479 | Two operands are joined exactly if they are equal or one of the pairs the comments of expr_join_or and expr_join_and name. |
| ExprReduced.EliminateDupsReduced | pdk/config/expr.c:347-638 | At every depth of the result no two operands of one AND or OR are equal or such a pair, and none has all its negated operands beside it. |
| MenuDeps.EliminateDupsKeepsNots | pdk/config/expr.c:616-638 | Eliminating duplicates keeps NOT over symbols only. |
| MenuDeps.BaseDepMeans | pdk/config/menu.c:225-228 | The stored dependency of an entry refines the minimum of its parent's condition and its own. |
| MenuDeps.PropertyVisibleMeans | pdk/config/menu.c:236-242 | The stored visibility of a prompt refines the minimum of dependency and written condition for a tristate symbol, and for any other agrees with it once m counts as y, wherever that minimum is not m. |
| MenuDeps.VisibilityUnchanged | pdk/config/symbol.c:143-149 | The visibility of a symbol that is not tristate is the same with and without expr_trans_bool. |
| MenuDeps.TestedMeans | pdk/config/menu.c:252-254 | The expression compared for adoption is y where the condition is not n and n elsewhere. |
| MenuDeps.AdoptedBelow | pdk/config/menu.c:262-267 | An entry adopted by that test is visible only where the entry above it is. |
| ExprContradiction.ContradictionFolds | pdk/config/expr.c:560-638 | Where no two operands can be joined and the second pass has nothing to do inside them, expr_eliminate_dups leaves an AND or OR as it is or makes it n or y, the latter at least if an operand's negation is in it; that changes the value exactly where it was m. |
| ExprContradiction.Dups2Drops | pdk/config/expr.c:560-614 | On such operands the second pass rewrites nothing but by dropping operands, and drops one if it counts anything. |
| ExprContradiction.SharpeningHappens | pdk/config/expr.c:578-607 | It happens: (A or B) and (not A and not B) is m for A = B = m, and expr_eliminate_dups makes it n. |
| Walks.ClosesStep | pdk/config/symbol.c:722-756 | From a symbol not on the stack a cycle closes exactly if it does from one of its dependencies with the symbol on the stack. |
| Walks.AcyclicNeverCloses | pdk/config/symbol.c:722-756 | If no cycle is reachable from a symbol, none closes through symbols that lead to it: finished symbols may be skipped. |
| SymDeps.Checker.SymCheckDeps | pdk/config/symbol.c:722-756 | With symbols on the stack, a symbol is returned exactly if a walk from here closes on the stack or itself; the CHECK bits are as before; it terminates on every graph. |
| SymDeps.Checker.CheckAllDeps | pdk/config/symbol.c:733-751 | All edges of a symbol: reverse dependency, visibilities, defaults. |
| SymDeps.Checker.CheckProp | pdk/config/symbol.c:738-750 | The edges of one property, none for choice and select, defaults only outside choices. |
| SymDeps.Checker.SymCheckExprDeps | pdk/config/symbol.c:692-720 | The symbols of one expression, null included. |
| SymDeps.Checker.SymCheckExpr | pdk/config/symbol.c:692-720 | The recursion over the expression stops at the first hit. |
| SymDeps.Checker.SymCheckDepOf | pdk/config/symbol.c:692-720 | Going down to one symbol of an expression. |
| SymDeps.Checker.CheckOne | pdk/config/symbol.c:722-756 | With all CHECK bits clear: non-null exactly if a dependency cycle is reachable from the symbol, the symbol returned lies on one, and all CHECK bits are clear afterwards. |
| SymDeps.Checker.ConfParseCheck | pdk/config/zconf.y:496-503 | The loop over all symbols, which skips those already checked, warns exactly if a cycle is reachable from some symbol. |
| SymDeps.EdgeIff | pdk/config/symbol.c:735-750 | The edges are the symbols of the reverse dependency, of the condition of each property but choice and select, and of default values outside choices. |
| SymDeps.StripKeepsCycles | pdk/config/symbol.c:739-750 | Removing all choice and select properties, and other values, leaves the cycles as they are. |
| SymRank.NoCycleIffRanked | pdk/config/symbol.c:692-756 | No symbol of a configuration reaches a dependency cycle exactly if the symbols can be ranked above their dependencies, which the theorems about the value cache assume. |
| SymRank.CheckConfiguration | pdk/config/zconf.y:496-503 | The check after parsing, over all symbols, warns exactly if there is no such rank. |
| SymFresh.FreshIsFixedPoint | pdk/config/symbol.c:206-312 | In an acyclic configuration the recomputed values satisfy the equations of sym_calc_value. |
| SymFresh.FixedPointUnique | pdk/config/symbol.c:206-312 | They are the only values that do, so the order of evaluation cannot matter. |
| SymFresh.FreshIsValid | pdk/config/symbol.c:206-312 | They form an environment in which Boolean symbols are n or y and strings match tristates, as the expression theorems assume. |
| SymFresh.AssignedBelow | pdk/config/symbol.c:365-391 | Assigning to a symbol changes nothing it depends on. |
| SymFresh.AcceptedIffEffective | pdk/config/symbol.c:346-391 | An assignment passes the range test, or repeats the current value, exactly if recomputing after it yields the assigned value. |
| SymFresh.InRangeIffChoice | pdk/config/symbol.c:346-363 | The range test passes exactly for a value that can be assigned where another one can be, too. |
| SymFresh.SameValueChangesNothing | pdk/config/symbol.c:365-391 | Assigning the current value changes no symbol's value, visibility or reverse dependency, so invalidation may be skipped. |
| SymMeaning.NoDefaultMeans | pdk/config/symbol.c:206-268 | If no default has a condition other than n and the user has set nothing, the value is that of the reverse dependency, n without one, m counting as y for a Boolean. |
| SymMeaning.DefaultMeans | pdk/config/symbol.c:206-268 | Otherwise it is the value of the first default whose condition is not n, bounded above by the largest prompt condition and below by the reverse dependency unless both are n. |
| SymMeaning.UserMeans | pdk/config/symbol.c:206-268 | A value set by the user counts only within those bounds; where both are n it is as if nothing had been set. |
| SymMeaning.NeverBelowSelected | pdk/config/symbol.c:250-268 | The value is never below that of the reverse dependency. |
| SymMeaning.StoredMeans | pdk/config/symbol.c:137-263 | The visibility is the largest condition of a prompt, and a symbol is written exactly if that or the reverse dependency is not n or a default applies. |
| SymMeaning.UndefinedIsItsName | pdk/config/symbol.c:231-234 | A symbol that is only named has the value n and compares as the constant of its name. |
| SymValue.SymbolCache.ExprCalcValue | pdk/config/expr.c:942-981 | Evaluating an expression through the cache gives its value under recomputed symbol values. |
| SymValue.SymbolCache.SymCalcVisibility | pdk/config/symbol.c:137-165 | Stores the recomputed visibility and reverse dependency and disturbs no other symbol's valid value. |
| SymValue.SymbolCache.SymGetDefaultProp | pdk/config/symbol.c:113-123 | The first default whose condition is not n. |
| SymValue.SymbolCache.NewTristate | pdk/config/symbol.c:244-269 | The new value from visibility, user value, default and reverse dependency, and whether it is written. |
| SymValue.SymbolCache.SymCalcValue | pdk/config/symbol.c:206-312 | Whatever the cache held, afterwards the symbol is valid with exactly the recomputed value, visibility and reverse dependency, and every valid symbol still is. |
| SymValue.SymbolCache.CalcValue | pdk/config/symbol.c:206-312 | Seen from outside: the result is the recomputation, whatever was evaluated before. |
| SymValue.SymbolCache.SymTristateWithinRange | pdk/config/symbol.c:346-363 | The range test outside choices. |
| SymValue.SymbolCache.SymSetTristateValue | pdk/config/symbol.c:365-391 | Accepted exactly for the current value or one in range; the cache is dropped only if the value changes; valid symbols stay right. |
| SymValue.SymbolCache.Assign | pdk/config/symbol.c:365-391 | On a valid symbol an assignment is accepted exactly if the symbol then recomputes to that value, and every symbol still marked valid holds its recomputed value. |
| SymValue.SymbolCache.Run | pdk/config/symbol.c:206-391 | After any run of evaluations and assignments every valid symbol's cached value, visibility and reverse dependency equal a fresh recomputation. |
| MenuWalk.NextAt | pdk/config/confdata.c:257-268 | From any entry of a linked tree, following list, next and parent reaches exactly the entry after it in preorder. |
| MenuWalk.NextMenu | pdk/config/confdata.c:257-268 | next_menu terminates and returns the preorder successor, null after the last entry. |
| MenuWalk.WriteOrderOnce | pdk/config/confdata.c:346-370 | The order of writing holds each symbol that is not a choice exactly once, however many entries share it. |
| MenuWalk.WriteOrderFirst | pdk/config/confdata.c:346-370 | Two symbols stand in the order in which they are first met. |
| MenuWalk.ConfWriter.ConfWrite | pdk/config/confdata.c:346-463 | The two traversals with the write-once flag write exactly those symbols, in the order of their first entries in preorder. |
| MenuConditions.DependsMeans | pdk/config/expr.c:801-828 | If an expression depends on a symbol in the sense of expr_depends_symbol, it is n wherever the symbol is. |
| MenuConditions.UnderFromBelow | pdk/config/menu.c:224-250 | Simplifying the children of an entry and then finalizing each gives every entry below a condition simplified under its own parent, once. |
| MenuConditions.TookPreorder | pdk/config/menu.c:251-282 | Taking following siblings under an entry leaves the preorder of the whole chain as it was and touches nothing behind them. |
| MenuConditions.TookStep | pdk/config/menu.c:249-276 | Working along a chain, the conditions of the entries finished so far stay as they are. |
| MenuConditions.SimplifiedHidden | pdk/config/menu.c:224-242 | A child of a condition that is n has dependency and prompt visibility n. |
| MenuConditions.HiddenBelow | pdk/config/menu.c:198-250 | Outside choices, a condition that is n hides every entry below it at any depth: the ancestors' conditions have reached them all. |
| MenuShape.HeadShapePreorder | pdk/config/menu.c:198-317 | The tree that finalizing makes has the entries of the tree it starts from, in the same preorder: none lost, doubled or moved. |
| MenuShape.AdoptShapeMaximal | pdk/config/menu.c:255-282 | A new sub-menu is exactly the longest run of following siblings that pass the test; the first one left fails it. |
| MenuShape.HoistPreorder | pdk/config/menu.c:283-317 | Hoisting keeps the preorder. |
| MenuShape.HoistComplete | pdk/config/menu.c:283-317 | After hoisting no child without prompt text has children, not even one that was hoisted itself. |
| MenuShape.BelowUnique | pdk/config/menu.c:224-250 | The conditions the entries end up with are determined by the tree before, whatever is adopted or hoisted. |
| MenuShape.ConditionsExist | pdk/config/menu.c:224-250 | There are such conditions for every tree. |
| MenuShape.BelowFromUnder | pdk/config/menu.c:224-250 | Once the children have been simplified, the conditions still to come are those below them. |
| MenuShape.TookRest | pdk/config/menu.c:249-276 | What has been finalized has its final conditions, and the rest of the chain is as before. |
| MenuMeaning.DependsIff | pdk/config/expr.c:801-828 | A condition depends on a symbol exactly if one of the operands of its conjunction says that the symbol is not n. |
| MenuMeaning.ContainsIff | pdk/config/expr.c:777-799 | A condition contains exactly the symbols of its expression. |
| MenuMeaning.TakenAreBelow | pdk/config/menu.c:251-282 | Every sibling taken mentions the symbol, and its condition is n wherever the symbol and the condition above are both n. |
| MenuMeaning.LeftIsNotBelow | pdk/config/menu.c:256-269 | The first sibling left does not require the symbol, nor mention it below an entry that is always visible. |
| MenuMeaning.AdoptsIff | pdk/config/menu.c:262-269 | A conjunction passes the residue test exactly if it has all operands of the condition above, constants apart. |
| MenuMeaning.LeftLacksOperand | pdk/config/menu.c:256-269 | So the first sibling left that mentions the symbol lacks such an operand. |
| MenuMeaning.TestedReduced | pdk/config/menu.c:252-263 | The conditions compared there have been simplified. |
| MenuMeaning.HeadTakes | pdk/config/menu.c:251-282 | What an entry with a symbol and no children makes of the chain: those siblings go below it, in terms of its own prompt condition. |
| MenuMeaning.TakesSiblings | pdk/config/menu.c:198-282 | No other entry takes siblings. |
| MenuMeaning.TakenSettled | pdk/config/menu.c:251-282 | Siblings taken are finalized themselves: none of them without children could take the entry after it. |
| MenuMeaning.HeadFinalizes | pdk/config/menu.c:246-317 | An entry with children has them finalized in the same sense before they are lifted out of. |
| MenuMeaning.PromptKeepsKids | pdk/config/menu.c:306-316 | Hoisting leaves an entry with a prompt text its children. |
| MenuMeaning.HoistedAll | pdk/config/menu.c:306-316 | It leaves no entry without a prompt text any. |
| MenuMeaning.ChildrenMean | pdk/config/menu.c:216-244 | At any depth the stored conditions of a child are the minimum of what its parent passes on, the choice symbol, the prompt's condition or the dependency, and its own, sharpened at most. |
| MenuMeaning.ParentHides | pdk/config/menu.c:216-244 | So an entry that passes on n hides everything below it. |
| MenuMeaning.StoredReduced | pdk/config/menu.c:225-244 | Stored dependencies and tristate visibilities are reduced, other visibilities hold no test of a tristate symbol against n. |
| MenuFinalize.Menus.MenuFinalize | pdk/config/menu.c:198-317 | Following and overwriting links in place, it makes exactly the tree of HeadShape for the final conditions: parent and child links agree, the preorder is unchanged, the conditions below have been simplified each by its original parent, no remaining child is one to hoist out of, and entries outside are untouched. |
| MenuFinalize.Menus.SimplifyChildren | pdk/config/menu.c:224-248 | Every child, and nothing else, gets its simplified dependency and prompt visibility; no link changes. |
| MenuFinalize.Menus.FinalizeList | pdk/config/menu.c:249-250 | Finalizing the children one after another, although one may take the following ones, makes the chain of ChainShape. |
| MenuFinalize.Menus.FinalizeBelow | pdk/config/menu.c:202-250 | The branch for an entry with a list: its children are simplified, then finalized. |
| MenuFinalize.Menus.AdoptSiblings | pdk/config/menu.c:251-282 | The following siblings that AdoptShape names become the list of the entry, which goes on with the rest. |
| MenuFinalize.Menus.AdoptRun | pdk/config/menu.c:255-276 | The loop over the siblings finalizes that run and finds its last entry. |
| MenuFinalize.Menus.AdoptOne | pdk/config/menu.c:272-275 | A sibling is finalized among its old siblings and then gets its new parent. |
| MenuFinalize.Menus.LinkIn | pdk/config/menu.c:277-281 | Moving the run from the chain into the list keeps all links consistent. |
| MenuFinalize.Menus.LiftChildren | pdk/config/menu.c:283-317 | Children of promptless entries are hoisted, also out of entries that were themselves hoisted, to exactly the chain of Hoist. |
| MenuFinalize.Menus.LiftOne | pdk/config/menu.c:307-316 | One child of the list, hoisted out of or not. |
| MenuFinalize.Menus.Lift | pdk/config/menu.c:307-316 | The hoisted children follow their former parent and have its parent. |
| MenuFinalize.Menus.Reparent | pdk/config/menu.c:308-312 | The whole chain gets the new parent and its last entry is found. |
| MenuFinalize.Menus.Splice | pdk/config/menu.c:313-315 | The chain goes in between its former parent and that entry's next sibling. |
| MenuRoot.FinalizeAndWrite | pdk/config/zconf.y:490-503 | Finalizing the menu and then writing the configuration writes the symbols in the order of their first entries in the menu as it was read. |
| NumberTheory.Gcd2 | vcompute/common/scripts/ipmi_sim/modules/ecdsa/ecdsa/numbertheory.py:206-210 | Euclid's loop, for arguments of any sign, computes the greatest common divisor function. |
| NumberTheory.GcdIsGreatest | vcompute/common/scripts/ipmi_sim/modules/ecdsa/ecdsa/numbertheory.py:206-210 | That divides both arguments and is divided by every common divisor; it is positive exactly if the first argument is, or for a first argument 0 equal to the second. |
| NumberTheory.InverseMod | vcompute/common/scripts/ipmi_sim/modules/ecdsa/ecdsa/numbertheory.py:185-203 | For every a and m >= 1 the result is the inverse of a in [1, m - 1], and the final assertion fails exactly if a and m have a common divisor; the cofactor bound makes one correction by m enough. |
| NumberTheory.InverseUnique | vcompute/common/scripts/ipmi_sim/modules/ecdsa/ecdsa/numbertheory.py:185-203 | There is at most one inverse in that range. |
| NumberTheory.InverseIffCoprime | vcompute/common/scripts/ipmi_sim/modules/ecdsa/ecdsa/numbertheory.py:185-203 | There is one exactly if the greatest common divisor is 1. |
| NumberTheory.PrimeInverse | vcompute/common/scripts/ipmi_sim/modules/ecdsa/ecdsa/numbertheory.py:185-203 | Modulo a prime everything but the multiples of the prime has an inverse. |
| Factorization.Factorize | vcompute/common/scripts/ipmi_sim/modules/ecdsa/ecdsa/numbertheory.py:244-291 | For n >= 2 the product of the powers is n, the bases strictly increase and are prime, up to a mistake of the probabilistic is_prime about the last one; below 2 the list is empty. |
| Factorization.TrySmall | vcompute/common/scripts/ipmi_sim/modules/ecdsa/ecdsa/numbertheory.py:254-266 | After the table of small primes no divisor up to its last entry is left. |
| Factorization.TryOdd | vcompute/common/scripts/ipmi_sim/modules/ecdsa/ecdsa/numbertheory.py:275-289 | Trial division by odd numbers only, with its exit on q < d, completes the factorization. |
| Factorization.DivideOutSmall | vcompute/common/scripts/ipmi_sim/modules/ecdsa/ecdsa/numbertheory.py:259-265 | The count is the full exponent: the divisor no longer divides what is left. |
| Factorization.DivideOutLarge | vcompute/common/scripts/ipmi_sim/modules/ecdsa/ecdsa/numbertheory.py:281-287 | The same for the second form of the loop. |
| Factorization.SmallestDivisorIsPrime | vcompute/common/scripts/ipmi_sim/modules/ecdsa/ecdsa/numbertheory.py:280-288 | A divisor found this way is prime without being tested. |
| Factorization.CompositeNeedNotBeTried | vcompute/common/scripts/ipmi_sim/modules/ecdsa/ecdsa/numbertheory.py:276-279 | Numbers that are not prime, even ones among them, may be skipped. |
| Factorization.RestIsPrime | vcompute/common/scripts/ipmi_sim/modules/ecdsa/ecdsa/numbertheory.py:279-289 | What is left below d*d without a divisor below d is prime. |
| PolynomialRing.MulAssoc | vcompute/common/scripts/ipmi_sim/modules/ecdsa/ecdsa/numbertheory.py:71-92 | The product of coefficient lists is associative. |
| PolynomialRing.MulComm | vcompute/common/scripts/ipmi_sim/modules/ecdsa/ecdsa/numbertheory.py:71-92 | It is commutative. |
| PolynomialRing.PowerSum | vcompute/common/scripts/ipmi_sim/modules/ecdsa/ecdsa/numbertheory.py:95-120 | Naive powers add up: f^m * f^n = f^(m+n). |
| Polynomials.ReduceOnce | vcompute/common/scripts/ipmi_sim/modules/ecdsa/ecdsa/numbertheory.py:61-65 | One round removes the leading coefficient and changes the polynomial by a multiple of the modulus. |
| Polynomials.ReduceMod | vcompute/common/scripts/ipmi_sim/modules/ecdsa/ecdsa/numbertheory.py:47-67 | The remainder differs from the polynomial by a multiple of the modulus modulo p and is shorter than it; the assertions fail exactly for a modulus that is not monic or is constant. |
| Polynomials.Product | vcompute/common/scripts/ipmi_sim/modules/ecdsa/ecdsa/numbertheory.py:82-90 | The accumulated cross terms are the product modulo p. |
| Polynomials.MultiplyMod | vcompute/common/scripts/ipmi_sim/modules/ecdsa/ecdsa/numbertheory.py:71-92 | The product modulo the modulus polynomial, its coefficients from 0 to p - 1. |
| Polynomials.CongruentMul | vcompute/common/scripts/ipmi_sim/modules/ecdsa/ecdsa/numbertheory.py:71-92 | Products of congruent polynomials are congruent. |
| Polynomials.ExpMod | vcompute/common/scripts/ipmi_sim/modules/ecdsa/ecdsa/numbertheory.py:95-120 | Square-and-multiply gives the naive power up to a multiple of the modulus, and a result shorter than the modulus if the base is, its coefficients from 0 to p - 1 if the base's are. |
| EllipticCurve.ThirdPoint | vcompute/common/scripts/ipmi_sim/modules/ecdsa/ecdsa/ellipticcurve.py:101-107 | If a line through a point of the curve meets it in a second place, the mirrored third intersection satisfies the curve equation. |
| EllipticCurve.DoubleCloses | vcompute/common/scripts/ipmi_sim/modules/ecdsa/ecdsa/ellipticcurve.py:149-166 | Doubling fails exactly where 2y has no inverse; otherwise the result is on the curve, so the constructor's assertion never fails. |
| EllipticCurve.AddChordCloses | vcompute/common/scripts/ipmi_sim/modules/ecdsa/ecdsa/ellipticcurve.py:99-107 | The same for the chord through two points. |
| EllipticCurve.AddCloses | vcompute/common/scripts/ipmi_sim/modules/ecdsa/ecdsa/ellipticcurve.py:85-107 | The same for all branches of addition. |
| EllipticCurve.PointDouble | vcompute/common/scripts/ipmi_sim/modules/ecdsa/ecdsa/ellipticcurve.py:149-166 | Doubling with inverse_mod computes the specified function, failures included. |
| EllipticCurve.PointAdd | vcompute/common/scripts/ipmi_sim/modules/ecdsa/ecdsa/ellipticcurve.py:85-107 | Addition with inverse_mod computes the specified function, failures included. |
| CurveGroup.DoubleFailsIff | vcompute/common/scripts/ipmi_sim/modules/ecdsa/ecdsa/ellipticcurve.py:149-166 | Over a prime field double() fails exactly on a point with 2y = 0, for which it has no branch. |
| CurveGroup.AddNeverFails | vcompute/common/scripts/ipmi_sim/modules/ecdsa/ecdsa/ellipticcurve.py:85-107 | On points of the curve with reduced x, addition never fails and stays among them. |
| CurveGroup.AddOfNorm | vcompute/common/scripts/ipmi_sim/modules/ecdsa/ecdsa/ellipticcurve.py:85-107 | An unreduced y, as negative_self has, does not change the sum. |
| CurveGroup.PlusCommutes | vcompute/common/scripts/ipmi_sim/modules/ecdsa/ecdsa/ellipticcurve.py:85-107 | Addition is commutative. |
| CurveGroup.AddChordCommutes | vcompute/common/scripts/ipmi_sim/modules/ecdsa/ecdsa/ellipticcurve.py:99-107 | For points with different x this holds of the computed coordinates, over any modulus. |
| CurveGroup.NegIsInverse | vcompute/common/scripts/ipmi_sim/modules/ecdsa/ecdsa/ellipticcurve.py:94-95 | A point and its mirror image add up to infinity. |
| ScalarMul.MultipleSum | vcompute/common/scripts/ipmi_sim/modules/ecdsa/ecdsa/ellipticcurve.py:109-138 | Repeated sums add up: jP + kP = (j + k)P. |
| ScalarMul.MultipleProduct | vcompute/common/scripts/ipmi_sim/modules/ecdsa/ecdsa/ellipticcurve.py:109-138 | k(jP) = (jk)P. |
| ScalarMul.PrefixStep | vcompute/common/scripts/ipmi_sim/modules/ecdsa/ecdsa/ellipticcurve.py:131-136 | Taking in one more bit of 3e and of e doubles the multiple and adds or subtracts one. |
| ScalarMul.LeftmostBit | vcompute/common/scripts/ipmi_sim/modules/ecdsa/ecdsa/ellipticcurve.py:112-116 | The largest power of two not above x. |
| ScalarMul.PointMul | vcompute/common/scripts/ipmi_sim/modules/ecdsa/ecdsa/ellipticcurve.py:109-138 | The result is the e-fold sum of the point, e reduced modulo the order if there is one; apart from a negative e it fails exactly if a point to be doubled on the way has 2y = 0. |
| ScalarMul.Ladder | vcompute/common/scripts/ipmi_sim/modules/ecdsa/ecdsa/ellipticcurve.py:126-138 | The loop over the bits of 3e and e, for every e > 0. |
| ScalarMul.LadderAdds | vcompute/common/scripts/ipmi_sim/modules/ecdsa/ecdsa/ellipticcurve.py:133-134 | The additions of one round. |
| ScalarMul.FailsIffTwoTorsion | vcompute/common/scripts/ipmi_sim/modules/ecdsa/ecdsa/ellipticcurve.py:131-132 | Some multiple cannot be computed exactly if some multiple of the point is its own negative. |
| ScalarMul.OddOrderNeverFails | vcompute/common/scripts/ipmi_sim/modules/ecdsa/ecdsa/ellipticcurve.py:131-132 | A point of odd order has no such multiple. |
| ScalarMul.OwnNegativeFails | vcompute/common/scripts/ipmi_sim/modules/ecdsa/ecdsa/ellipticcurve.py:131-132 | Of a point that is its own negative exactly the multiplications by 2 or more fail. |
| PointOrder.ZeroIffOrderDivides | vcompute/common/scripts/ipmi_sim/modules/ecdsa/ecdsa/ellipticcurve.py:74-75 | For a point of the curve whose least order is N the k-fold sum is infinity exactly if N divides k. |
| PointOrder.ReducedSame | vcompute/common/scripts/ipmi_sim/modules/ecdsa/ecdsa/ellipticcurve.py:117-118 | A multiplier reduced modulo the order of the point gives the same multiple. |
| PointOrder.TwoTorsionMultiple | vcompute/common/scripts/ipmi_sim/modules/ecdsa/ecdsa/ellipticcurve.py:149-166 | The m-fold sum cannot be doubled exactly if N is even and m is N/2 modulo N. |
| PointOrder.MulFailsIff | vcompute/common/scripts/ipmi_sim/modules/ecdsa/ecdsa/ellipticcurve.py:109-138 | Multiplying a point of least order N by e >= 1 fails exactly if N is even and some prefix of the recoded e that gets doubled, 3e / 2^(k+1) - e / 2^(k+1), is N/2 modulo N. |
| PointOrder.FailsIffEvenOrder | vcompute/common/scripts/ipmi_sim/modules/ecdsa/ecdsa/ellipticcurve.py:109-138 | Exactly the points of even order have a multiplication that fails, that by the order itself among them. |
| PointOrder.LeastOrderExists | vcompute/common/scripts/ipmi_sim/modules/ecdsa/ecdsa/ellipticcurve.py:109-138 | Every point of the curve has a least order, so these conditions cover all points. |
| HalfOrder.RoundIsDouble | vcompute/common/scripts/ipmi_sim/modules/ecdsa/ecdsa/util.py:1-206 | Twice order / 2 is a number of at most 53 significant bits. |
| HalfOrder.RoundIsNearest | vcompute/common/scripts/ipmi_sim/modules/ecdsa/ecdsa/util.py:1-206 | No other such number is nearer to the order. |
| HalfOrder.LowSIsLowIff | vcompute/common/scripts/ipmi_sim/modules/ecdsa/ecdsa/util.py:203-216 | For 1 <= s < n the canonical form is again between 1 and n - 1, and satisfies 2s <= n exactly if s does not lie between n/2 and its rounded value; for an odd n, exactly if s > n/2 and s > order / 2 agree. |
| HalfOrder.OverflowIff | vcompute/common/scripts/ipmi_sim/modules/ecdsa/ecdsa/util.py:203-216 | The quotient overflows exactly if the rounded order is 2^1025 or more. |
| HalfOrder.SafeOrderIff | vcompute/common/scripts/ipmi_sim/modules/ecdsa/ecdsa/util.py:203-216 | For an odd order all forms are low exactly if it is not rounded, or down by 1. |
| HalfOrder.SmallOrdersAreSafe | vcompute/common/scripts/ipmi_sim/modules/ecdsa/ecdsa/util.py:203-216 | Orders below 2^53 are not rounded and give low forms only. |
| HalfOrder.CurveOrdersMiss | vcompute/common/scripts/ipmi_sim/modules/ecdsa/ecdsa/ecdsa.py:208-277 | Each of the six curves has an s that comes out high: for NIST256p the low (n - 1)/2 is negated, for the other five the high (n + 1)/2 is left. |
| Ecdsa.MultipleZeroIff | vcompute/common/scripts/ipmi_sim/modules/ecdsa/ecdsa/ecdsa.py:142-150 | A multiple of the generator is infinity exactly if the prime order divides the multiplier. |
| Ecdsa.NegOfMultiple | vcompute/common/scripts/ipmi_sim/modules/ecdsa/ecdsa/util.py:203-206 | Opposite multipliers give mirrored points. |
| Ecdsa.Sign | vcompute/common/scripts/ipmi_sim/modules/ecdsa/ecdsa/ecdsa.py:127-151 | s solves s k = hash + secret r modulo n, r is the x of kG; each error occurs exactly under its condition, a multiple of n for k among them. |
| Ecdsa.Verifies | vcompute/common/scripts/ipmi_sim/modules/ecdsa/ecdsa/ecdsa.py:93-111 | The answer depends only on whether the x of the recovered multiple of the generator is r modulo n; it fails exactly if that multiple is infinity. |
| Ecdsa.SignatureVerifies | vcompute/common/scripts/ipmi_sim/modules/ecdsa/ecdsa/ecdsa.py:93-151 | A signature made with 1 <= k < n verifies exactly if its r, which sign does not reduce, is below n, and is rejected otherwise. |
| Ecdsa.AcceptedIff | vcompute/common/scripts/ipmi_sim/modules/ecdsa/ecdsa/ecdsa.py:93-111 | Of the pairs in range exactly those are accepted that some nonce explains, and the verifier fails exactly if hash + secret r is a multiple of n. |
| Ecdsa.OutOfRangeRejected | vcompute/common/scripts/ipmi_sim/modules/ecdsa/ecdsa/ecdsa.py:98-101 | Nothing out of range is accepted. |
| Ecdsa.NegatedVerifiesAlike | vcompute/common/scripts/ipmi_sim/modules/ecdsa/ecdsa/util.py:203-216 | So does (r, n - s). |
| Ecdsa.LowSVerifiesAlike | vcompute/common/scripts/ipmi_sim/modules/ecdsa/ecdsa/util.py:203-216 | So does the canonical form, whichever of s and n - s it is, whenever order / 2 does not overflow. |
| Ecdsa.EverySReached | vcompute/common/scripts/ipmi_sim/modules/ecdsa/ecdsa/ecdsa.py:142-151 | For every key and k each s from 1 to n - 1 is what sign computes for some hash, the ones above among them. |
| Ecdsa.SignThenVerify | vcompute/common/scripts/ipmi_sim/modules/ecdsa/ecdsa/ecdsa.py:93-151 | Signing and then verifying, plain and canonical, for every hash and nonce. |
| EcdsaExample.SmallDomain | vcompute/common/scripts/ipmi_sim/modules/ecdsa/ecdsa/ecdsa.py:76-90 | The hypotheses of the theorems can be met, associativity included: y^2 = x^3 + 2x + 7 modulo 11 with generator (6, 2) of order 7, whose multiples are listed. |
| EcdsaExample.CyclicAssociative | vcompute/common/scripts/ipmi_sim/modules/ecdsa/ecdsa/ellipticcurve.py:85-107 | Points that add up as their positions in a list do modulo 7 add up associatively. |
| EcdsaExample.SmallIsCyclic | vcompute/common/scripts/ipmi_sim/modules/ecdsa/ecdsa/ellipticcurve.py:85-107 | The points of that curve are those of the list, and any two add up to the one at the sum of their positions. |
| EcdsaExample.SignWithOwnKey | vcompute/common/scripts/ipmi_sim/modules/ecdsa/ecdsa/ecdsa.py:93-151 | On that domain a signature with key 1, which passes the range check of Public_key, is accepted by its own key for the multipliers 1 and 6 and rejected for 2 to 5. |
| EcdsaExample.MultiplyOwnNegative | vcompute/common/scripts/ipmi_sim/modules/ecdsa/ecdsa/ellipticcurve.py:109-138 | A multiplication of a point that is its own negative by e >= 1 fails exactly for e >= 2. |
| EcdsaExample.MultiplyOnAxis | vcompute/common/scripts/ipmi_sim/modules/ecdsa/ecdsa/ellipticcurve.py:109-138 | So does that of every point but infinity of y^2 = x^3 + 2x modulo 3. |
| Bytes.IntToString | vcompute/common/scripts/ipmi_sim/modules/ecdsa/ecdsa/ecdsa.py:155-166 | The loop with its final reversal gives the shortest big-endian bytes, one zero byte for 0. |
| Bytes.StringToInt | vcompute/common/scripts/ipmi_sim/modules/ecdsa/ecdsa/ecdsa.py:169-175 | The loop computes the big-endian value. |
| Bytes.FromToBytes | vcompute/common/scripts/ipmi_sim/modules/ecdsa/ecdsa/ecdsa.py:155-175 | string_to_int undoes int_to_string. |
| Bytes.ToFromBytes | vcompute/common/scripts/ipmi_sim/modules/ecdsa/ecdsa/ecdsa.py:155-175 | int_to_string undoes string_to_int exactly on the strings without a superfluous leading zero. |
| Der.LengthRoundTrip | vcompute/common/scripts/ipmi_sim/modules/ecdsa/ecdsa/der.py:124-145 | With any bytes behind, a length is read back exactly if its bytes can be counted in seven bits. |
| Der.TaggedRoundTrip | vcompute/common/scripts/ipmi_sim/modules/ecdsa/ecdsa/der.py:27-40 | Tagged values with any bytes behind come back as content and rest. |
| Der.SequenceRoundTrip | vcompute/common/scripts/ipmi_sim/modules/ecdsa/ecdsa/der.py:38-68 | The pieces of a sequence come back joined, with the rest. |
| Der.ConstructedRoundTrip | vcompute/common/scripts/ipmi_sim/modules/ecdsa/ecdsa/der.py:10-60 | Of the tags that can be encoded exactly 0 to 31 are read back. |
| Der.IntegerRoundTrip | vcompute/common/scripts/ipmi_sim/modules/ecdsa/ecdsa/der.py:12-107 | An encoded integer is read back, with any bytes behind, exactly if its content is at most 127 bytes; encode_integer writes longer lengths wrongly. |
| Der.LongIntegerMisread | vcompute/common/scripts/ipmi_sim/modules/ecdsa/ecdsa/der.py:20-25 | Content of 128 to 255 bytes is encoded without an error and never read back. |
| Der.SmallNumbersFit | vcompute/common/scripts/ipmi_sim/modules/ecdsa/ecdsa/der.py:12-25 | Every number below 2^1015 is short enough. |
| Der.EncodeNumber | vcompute/common/scripts/ipmi_sim/modules/ecdsa/ecdsa/der.py:41-49 | The loop gives the base-128 digits with continuation bits. |
| Der.ReadNumber | vcompute/common/scripts/ipmi_sim/modules/ecdsa/ecdsa/der.py:109-122 | The loop reads them; its own check for missing bytes never fires, a truncated number ends in IndexError. |
| Der.NumberRoundTrip | vcompute/common/scripts/ipmi_sim/modules/ecdsa/ecdsa/der.py:41-122 | A base-128 number is read back with any bytes behind. |
| Der.ReadNumbers | vcompute/common/scripts/ipmi_sim/modules/ecdsa/ecdsa/der.py:86-90 | The loop of remove_object reads all numbers of the body, or stops at the first error. |
| Der.OidRoundTrip | vcompute/common/scripts/ipmi_sim/modules/ecdsa/ecdsa/der.py:31-96 | An object identifier is read back exactly if its second number is not negative, which encode_oid does not check. |
| Der.SigDerRoundTrip | vcompute/common/scripts/ipmi_sim/modules/ecdsa/ecdsa/util.py:197-246 | sigdecode_der undoes sigencode_der exactly if the content of both numbers is at most 127 bytes, although longer ones are encoded without an error. |
| Der.TrailingJunkRefused | vcompute/common/scripts/ipmi_sim/modules/ecdsa/ecdsa/util.py:237-240 | Bytes behind an encoded signature are refused. |
| Der.NumberFits | vcompute/common/scripts/ipmi_sim/modules/ecdsa/ecdsa/util.py:161-166 | A number can be written in the order's width exactly if it is below 256 to that width, so every number up to the order can. |
| Der.SigStringRoundTrip | vcompute/common/scripts/ipmi_sim/modules/ecdsa/ecdsa/util.py:191-224 | sigdecode_string undoes sigencode_string for numbers up to the order. |
| DerShortest.LengthShortest | vcompute/common/scripts/ipmi_sim/modules/ecdsa/ecdsa/der.py:124-145 | Of all strings read as a length encode_length gives the shortest, and the only one that short. |
| DerShortest.ContentShortest | vcompute/common/scripts/ipmi_sim/modules/ecdsa/ecdsa/der.py:12-25 | The content of an integer is the shortest that is read as it and does not look negative. |
| DerShortest.NumberShortest | vcompute/common/scripts/ipmi_sim/modules/ecdsa/ecdsa/der.py:41-49 | A base-128 number is the shortest string that is read as it. |
| DerShortest.IntegerRefused | vcompute/common/scripts/ipmi_sim/modules/ecdsa/ecdsa/der.py:98-107 | Content that looks negative is refused. |
| DerShortest.TagsRequired | vcompute/common/scripts/ipmi_sim/modules/ecdsa/ecdsa/der.py:51-107 | Each reader insists on its tag. |
| DerShortest.LengthRefused | vcompute/common/scripts/ipmi_sim/modules/ecdsa/ecdsa/der.py:133-145 | A length cut short, or without any byte, is refused. |
| DerShortest.JunkInsideRefused | vcompute/common/scripts/ipmi_sim/modules/ecdsa/ecdsa/util.py:235-246 | Bytes after the two numbers inside the sequence are refused. |
| DerShortest.WrongLengthRefused | vcompute/common/scripts/ipmi_sim/modules/ecdsa/ecdsa/util.py:218-224 | sigdecode_string takes exactly the strings of twice the order's length. |
| DerShortest.TestLengths | vcompute/common/scripts/ipmi_sim/modules/ecdsa/ecdsa/test_pyecdsa.py:456-464 | The lengths of the program's own test are written as it says. |
| DerShortest.TestIntegers | vcompute/common/scripts/ipmi_sim/modules/ecdsa/ecdsa/test_pyecdsa.py:426-431 | So are its integers. |
| DerShortest.TestNumbers | vcompute/common/scripts/ipmi_sim/modules/ecdsa/ecdsa/test_pyecdsa.py:443-447 | So are its base-128 numbers. |
| DerShortest.TestOid | vcompute/common/scripts/ipmi_sim/modules/ecdsa/ecdsa/test_pyecdsa.py:415-417 | So is its object identifier. |
| DerShortest.TestSequence | vcompute/common/scripts/ipmi_sim/modules/ecdsa/ecdsa/test_pyecdsa.py:471-480 | So are its sequence and constructed value. |
| DerShortest.TestSignature | vcompute/common/scripts/ipmi_sim/modules/ecdsa/ecdsa/util.py:181-199 | r stands before s, in either encoding. |
| BufferedPipe.Pipe.SetEvent | vcompute/common/scripts/ipmi_sim/modules/paramiko/paramiko/buffered_pipe.py:66-78 | The event is set exactly if bytes are waiting; that is what the documentation asks for exactly if the pipe is not both closed and empty. |
| BufferedPipe.Pipe.Feed | vcompute/common/scripts/ipmi_sim/modules/paramiko/paramiko/buffered_pipe.py:80-94 | The bytes go to the end and the event is set. |
| BufferedPipe.Pipe.Read | vcompute/common/scripts/ipmi_sim/modules/paramiko/paramiko/buffered_pipe.py:114-166 | The first bytes, at most nbytes, leave the pipe in order; it times out exactly if nothing is there and the pipe is open; the event is cleared exactly when an open pipe runs empty. |
| BufferedPipe.Pipe.Empty | vcompute/common/scripts/ipmi_sim/modules/paramiko/paramiko/buffered_pipe.py:168-184 | All bytes leave the pipe. |
| BufferedPipe.Pipe.Close | vcompute/common/scripts/ipmi_sim/modules/paramiko/paramiko/buffered_pipe.py:186-198 | The pipe is closed and its event set for good. |
| Channel.Channel.SetWindow | vcompute/common/scripts/ipmi_sim/modules/paramiko/paramiko/channel.py:880-886 | The receive window, its threshold and the count start afresh. |
| Channel.Channel.SetRemoteChannel | vcompute/common/scripts/ipmi_sim/modules/paramiko/paramiko/channel.py:888-894 | The send window and the clamped packet size. |
| Channel.Channel.Feed | vcompute/common/scripts/ipmi_sim/modules/paramiko/paramiko/channel.py:912-918 | Received bytes are appended to stdout. |
| Channel.Channel.FeedExtended | vcompute/common/scripts/ipmi_sim/modules/paramiko/paramiko/channel.py:920-929 | Type 1 goes to stderr, or stdout when combined; other types are dropped. |
| Channel.Channel.WindowAdjust | vcompute/common/scripts/ipmi_sim/modules/paramiko/paramiko/channel.py:931-940 | The send window grows by the granted bytes. |
| Channel.Channel.CheckAddWindow | vcompute/common/scripts/ipmi_sim/modules/paramiko/paramiko/channel.py:1136-1152 | Read bytes are counted, and handed out as a grant once above a tenth of the window, only while the channel is open. |
| Channel.Channel.WaitForSendWindow | vcompute/common/scripts/ipmi_sim/modules/paramiko/paramiko/channel.py:1154-1190 | Takes the least of request, window and packet from the window; it has to wait exactly if the window is 0. |
| Channel.Channel.Send | vcompute/common/scripts/ipmi_sim/modules/paramiko/paramiko/channel.py:1053-1070 | The message carries a nonempty prefix as long as request, window and packet allow, and the window shrinks by exactly its length. |
| Channel.Channel.Recv | vcompute/common/scripts/ipmi_sim/modules/paramiko/paramiko/channel.py:583-610 | The bytes read are the front of the buffer, and exactly they are counted or, above the threshold, granted; it times out exactly on an empty open pipe. |
| Channel.Channel.RecvStderr | vcompute/common/scripts/ipmi_sim/modules/paramiko/paramiko/channel.py:627-658 | The same for stderr. |
| Channel.Channel.SetCombineStderr | vcompute/common/scripts/ipmi_sim/modules/paramiko/paramiko/channel.py:449-482 | Turning it on moves all stderr bytes to the end of stdout. |
| Channel.Channel.SendEof | vcompute/common/scripts/ipmi_sim/modules/paramiko/paramiko/channel.py:1101-1110 | The end is announced once. |
| Channel.Channel.HandleEof | vcompute/common/scripts/ipmi_sim/modules/paramiko/paramiko/channel.py:1027-1038 | The end of input closes both pipes. |
| Channel.Channel.CloseInternal | vcompute/common/scripts/ipmi_sim/modules/paramiko/paramiko/channel.py:1112-1123 | Closing announces the end first and happens once. |
| ChannelFlow.ActKeeps | vcompute/common/scripts/ipmi_sim/modules/paramiko/paramiko/channel.py:449-658 | No local step of a thread changes what its side holds of either direction's credit, except that a shut receiver may forget some. |
| ChannelFlow.DeliverKeeps | vcompute/common/scripts/ipmi_sim/modules/paramiko/paramiko/channel.py:912-940 | A message that arrives moves its credit from one side to the other, without what is discarded of it. |
| ChannelFlow.AlwaysConserved | vcompute/common/scripts/ipmi_sim/modules/paramiko/paramiko/channel.py:583-1190 | The invariant of both directions holds after every run of steps of both ends, in any interleaving, with what the run has discarded. |
| ChannelFlow.WindowConserved | vcompute/common/scripts/ipmi_sim/modules/paramiko/paramiko/channel.py:880-1190 | Sender window + data on its way + receive buffers + counted bytes + grants on their way + discarded payloads = the initial window while the receiver is open, and never more; nothing is discarded if the sender uses type 1 only. |
| ChannelFlow.NoStall | vcompute/common/scripts/ipmi_sim/modules/paramiko/paramiko/channel.py:1136-1190 | With nothing on its way and the buffers empty, between W - W/10 and W of the window is left, less what has been discarded, and a send succeeds if any is. |
| ChannelFlow.UnknownTypeLeaks | vcompute/common/scripts/ipmi_sim/modules/paramiko/paramiko/channel.py:920-929 | An arriving message keeps the credit of its direction exactly if it is not nonempty extended data of a type other than 1; then its payload is lost. |
| ChannelFlow.LostForGood | vcompute/common/scripts/ipmi_sim/modules/paramiko/paramiko/channel.py:920-940 | The window of every later state is smaller by what has been discarded, and nothing can be sent once that is the whole window. |
| ChannelFlow.AllLost | vcompute/common/scripts/ipmi_sim/modules/paramiko/paramiko/channel.py:920-940 | One message can do it: after it the receiver is open and the window 0 for ever. |
| ChannelStreams.CombinedNeverHasStderr | vcompute/common/scripts/ipmi_sim/modules/paramiko/paramiko/channel.py:449-482 | In every reachable state a side that combines its streams holds nothing on stderr. |
| ChannelStreams.FlagFollows | vcompute/common/scripts/ipmi_sim/modules/paramiko/paramiko/channel.py:449-482 | The streams are combined or not as the receiver has said last. |
| ChannelStreams.StreamsInOrder | vcompute/common/scripts/ipmi_sim/modules/paramiko/paramiko/channel.py:912-929 | While the receiver does not switch, what has been read of a stream, what is in its buffer and what is on its way are, in this order, the bytes handed to the transport for it. |
| ChannelStreams.BytesConserved | vcompute/common/scripts/ipmi_sim/modules/paramiko/paramiko/channel.py:449-929 | However often it switches, no byte of a known type is lost, doubled or made up. |
| ChannelEnds.SendStarts | vcompute/common/scripts/ipmi_sim/modules/paramiko/paramiko/channel.py:1053-1190 | A send puts the longest prefix that request, window and packet allow into one message of the right type, and nothing once the end has been announced. |
| ChannelEnds.EndsOnce | vcompute/common/scripts/ipmi_sim/modules/paramiko/paramiko/channel.py:1101-1123 | In every run each side announces its end at most once, closes at most once, and not without announcing the end. |
| ChannelEnds.EndsAreSeen | vcompute/common/scripts/ipmi_sim/modules/paramiko/paramiko/channel.py:1027-1051 | Every end that has arrived has been seen, and every close that has arrived has closed the receiver. |
| ChannelEnds.GrantsAreWorthIt | vcompute/common/scripts/ipmi_sim/modules/paramiko/paramiko/channel.py:1136-1152 | In every run each grant is more than a tenth of the window. |
| ChannelEnds.ShutGrantsNothing | vcompute/common/scripts/ipmi_sim/modules/paramiko/paramiko/channel.py:1136-1152 | A side that is closed or has seen the end of its input grants nothing from then on. |
| ChannelProgress.Drains | vcompute/common/scripts/ipmi_sim/modules/paramiko/paramiko/channel.py:449-658 | From any state the threads can finish, the messages arrive and the receiver read until nothing of the direction is on its way. |
| ChannelProgress.WindowComesBack | vcompute/common/scripts/ipmi_sim/modules/paramiko/paramiko/channel.py:449-1190 | So from every reachable state such steps alone bring the sender's window back to at least W - W/10, less what has been discarded, unless the receiver is shut. |
| Lines.UniversalLine | vcompute/common/scripts/ipmi_sim/modules/paramiko/paramiko/file.py:245-269 | With universal newlines a line cut at its first newline, and the rest with the mark for a trailing CR, are the first line and the rest of the normalised stream. |
| Lines.NormalizeNoCr | vcompute/common/scripts/ipmi_sim/modules/paramiko/paramiko/file.py:211-233 | Normalising leaves no CR, and leaves a stream without CR alone. |
| BufferedFile.File.Read | vcompute/common/scripts/ipmi_sim/modules/paramiko/paramiko/file.py:123-180 | The next size bytes of buffer and stream, fewer only at the end, all of them for no size, however the stream is cut into pieces. |
| BufferedFile.File.ReadToEnd | vcompute/common/scripts/ipmi_sim/modules/paramiko/paramiko/file.py:144-159 | Everything up to the end. |
| BufferedFile.File.FillTo | vcompute/common/scripts/ipmi_sim/modules/paramiko/paramiko/file.py:165-176 | The buffer grows to the wanted size or the stream ends; nothing is lost. |
| BufferedFile.File.ReadLine | vcompute/common/scripts/ipmi_sim/modules/paramiko/paramiko/file.py:182-271 | Without a size: the first line of what is left, with CR, CR LF and LF as one newline in universal mode, independent of the pieces and of a CR at their ends. |
| BufferedFile.File.ReadToNewline | vcompute/common/scripts/ipmi_sim/modules/paramiko/paramiko/file.py:209-244 | Reading on until a newline, passing over the LF of a CR already delivered. |
| BufferedFile.File.SkipLf | vcompute/common/scripts/ipmi_sim/modules/paramiko/paramiko/file.py:211-220 | Passing over an LF that belongs to a CR already delivered keeps what is still to deliver and takes the mark away. |
| BufferedFile.File.CutLine | vcompute/common/scripts/ipmi_sim/modules/paramiko/paramiko/file.py:245-269 | Cutting the line and marking a trailing CR. |
| BufferedFile.File.ReadLines | vcompute/common/scripts/ipmi_sim/modules/paramiko/paramiko/file.py:273-293 | All lines of what is left, in order, or with a size hint the shortest run of them that reaches it. |
| BufferedFile.File.WriteAll | vcompute/common/scripts/ipmi_sim/modules/paramiko/paramiko/file.py:453-465 | All bytes go downstream in order, whatever part each write takes. |
| BufferedFile.File.Write | vcompute/common/scripts/ipmi_sim/modules/paramiko/paramiko/file.py:325-357 | Bytes downstream + buffer = all bytes written, in order; no whole line waits in line mode, less than a block in block mode. |
| BufferedFile.File.WriteLines | vcompute/common/scripts/ipmi_sim/modules/paramiko/paramiko/file.py:343-352 | Line mode writes up to the last newline of the new data. |
| BufferedFile.File.Flush | vcompute/common/scripts/ipmi_sim/modules/paramiko/paramiko/file.py:83-90 | The buffer goes downstream. |
| BufferedFile.File.Close | vcompute/common/scripts/ipmi_sim/modules/paramiko/paramiko/file.py:76-81 | Closing flushes first. |
| BufferedFile.LinesJoin | vcompute/common/scripts/ipmi_sim/modules/paramiko/paramiko/file.py:273-293 | The lines joined are the stream. |
| BufferedFile.LineEnds | vcompute/common/scripts/ipmi_sim/modules/paramiko/paramiko/file.py:182-201 | No line is empty, none has a newline inside, and only the last can lack one. |
| BufferedFile.MarkMattersIff | vcompute/common/scripts/ipmi_sim/modules/paramiko/paramiko/file.py:211-220 | The mark for a trailing CR changes what readline has still to deliver exactly before an LF in universal mode. |
| BufferedFile.ReadThenReadLine | vcompute/common/scripts/ipmi_sim/modules/paramiko/paramiko/file.py:123-271 | After a read that returned bytes, readline delivers the first line of what is left exactly if not both the mark of an earlier readline is set and the next byte is LF; otherwise that LF is lost. |
| BufferedFile.MixedReadsLoseNewline | vcompute/common/scripts/ipmi_sim/modules/paramiko/paramiko/file.py:211-220 | It happens: with pieces that end in CR and go on with x and LF, readline, read(1) and readline return a line, x and the end of the file. |

## Left out

- Memory management in `expr.c`: trees are values, so freeing, sharing of sub-trees and dangling nodes are not modelled; the aliasing that the duplicate passes rely on is.
- E_CHOICE, E_RANGE and E_NONE expressions, which the rewriters do not handle.
- Choice groups, string, int and hex values and changes of `modules_val` in the value cache; the flags for changed symbols and menus.
- ExprTransform.TransCompareExact: comparison with y and n; against m see `TransCompareModIff`, and with m-valued operands under NOT the rewrite is not exact.
- ExprEqComplete.EqualIffSameShape: for trees without y or n as operands of AND and OR; with them `expr_eq` is only sound, and holds of more (`AbsorbedAreEqual`).
- ExprEqComplete.EqualIsEquivalence: for the same trees.
- ExprEqComplete.ElimEqRecBags: for operands without the absorbing constant and without y and n further inside.
- ExprEqComplete.ExtractEqBags: for the same operands.
- ExprEqComplete.ExtractEqIsElimEq: for the same operands.
- ExprEqComplete.ExtractUsesUpIff: for a first argument without y or n as operands.
- MenuDeps.TestedMeans: where no operand under NOT is m; there `expr_trans_bool` is not exact (`TransBoolNeedsNormalForm`).
- MenuDeps.AdoptedBelow: in the same environments.
- MenuFinalize.Menus.MenuFinalize: each entry has its own prompt only; further properties of a symbol, `select`, choice typing and warnings are left out.
- MenuWalk.ConfWriter.ConfWrite: which symbols are written and in which order, not the text written for them, nor the comment of an entry without a symbol.
- Factorization.Factorize: the table of small primes is taken to be complete; the primality test itself is a parameter.
- ScalarMul.PointMul: associativity of addition on the curve is a hypothesis, and the x of the point is reduced modulo p.
- Ecdsa.Verifies: the public point is a multiple of the generator, given with its multiplier.
- Ecdsa.SignThenVerify: for such a point.
- HalfOrder.LowSIsLowIff: orders are not negative, and the interpreter's division of integers is taken to round to the nearest double.
- Channel.Channel.WaitForSendWindow: waiting, time and notification are left out; a blocked call is one that has not happened yet.
- ChannelFlow.WindowConserved: messages for a channel already unlinked from its transport are still delivered; requests and exit status carry no credit and are left out.
- BufferedFile.File.ReadLine: no size limit, since with one the mark for a trailing CR goes wrong at the cut; bytes are not decoded, and the record of newline kinds is not kept.
- BufferedFile.File.Write: append mode, which only moves positions, is left out.
- `jacobi`, `square_root_mod_prime`, the Miller-Rabin test, RFC 6979 and hash functions.
- Threads as such, sockets, key files, authentication, GSS-API; the IPMI simulator scripts, user interfaces and printing.
