# Verification of the configuration engine, the file hashes and the rule table

A Dafny model of three parts of the repository, with proofs about all their inputs, runs and
interleavings.

**The Kconfig engine (`scripts/config`).** Dependency expressions have three values, n, m and y.
`Expressions` gives their syntax and the evaluator; `Cancelling`, `Joining`, `Dups`,
`Transforming` and `Submenu` are the optimiser as functions, and prove that it keeps the value
of an expression in every world (an assignment of values to symbols), which normal forms it
reaches, and that it ends. A world assigns a truth value and a text to every symbol, as
`sym_calc_value` can: boolean symbols are never m, and a constant or a symbol without a type
prints as its own name. Numerals are read as strtoll and strtoull read them. `ExprTree` is the
same optimiser in the form the program has: it overwrites operand slots of one mutable tree through
cursors, of which `expr_eliminate_dups1` uses two into the same group. `MenuForest` is what `menu_finalize` makes of the menu tree, `MenuTree` the relinking of
next, list and parent on the heap, `MenuWalk` the walk without a stack that writes
configurations. `Choices` calculates a choice and its values, which ask for each other.
`Recursion` is the depth-first search for recursive dependencies. `ConfigText` says what the
text of a `.config` file means, `ConfigReader` reads and escapes it in place in buffers, and
`Saving` puts the walk, the text and the reader together.

**The hashes (`scripts/mkhash.c`).** `Sha256` and `Md5` state FIPS 180-4 and RFC 1321 and relate
the program's macros to them; `Sha256Constants` derives the constants from prime numbers and
`Md5Constants` from the power series of the sine; `ShaRounds` shows that rounds on rotating names
are the standard's shifting rounds; `Sha256Context` and `Md5Context` are the contexts that are
updated in place (`Streaming` holds what both share).

**The rule table (`qca/src/emesh-sp/sp_mapdb.c`).** `RuleTable` is the table kept twice, as lists
by precedence and as a hash by id, with the abstract order of matching; `RuleManager` the
functions that change and search it in place; `RuleUpdates` all interleavings of updates and
flushes as a state machine whose steps are the sections between which the lock is free.

How the methods in the form of the program and the specifications go together: each method
states its whole result as a function of the old state, and the lemmas are about these functions.

## What the code does not do

Some expectations about the code do not hold. Each is stated with the exact condition under which
it does, or with a world or an input in which it fails.

- `(a=b)&&(a!=c)` is simplified to `a=b` if the constants b and c are different symbols. That is
  wrong exactly when both read as the same truth value, as n and "0" do (`Joining.DistinguishExact`,
  `Joining.DistinguishFails`).
- A negated ordering is replaced by the opposite one, which is wrong exactly if one operand has type
  S_OTHER, which has no order, and the other is not compared as a word (`Transforming.FlipExact`).
- `expr_trans_compare` reads "not A = n" as "A is not n", which is right exactly where A is not m
  (`Submenu.NegatedTestExact`, `Submenu.NegatedSymbolExact`), and `expr_depends_symbol` trusts a
  comparison of strings, which is right exactly for symbols whose text tells their truth value
  (`Submenu.DependsTestExact`, `Submenu.DependsExact`).
- `expr_trans_bool` changes the value of exactly the comparisons it rewrites, namely where the symbol
  is m. Promoting m to y makes up for that, except below a negation (`Submenu.TransBoolPromoted`,
  `Submenu.TransBoolExact`); `menu_finalize` applies it to normal forms only, in which no comparison
  is negated (`Submenu.HandDownMonotone`).
- Exactly one value of a choice that is y is y, unless a value without a visible prompt has an active
  default of its own, which `menu_finalize` only warns about (`Choices.ChoiceExact`).
- A recursive dependency is printed but never makes `sym_check_deps` return a symbol to its
  outermost caller, so `conf_parse` does not count it as an error (`Recursion.Checker.CheckAll`).
- A string value with a newline is written but never restored, and neither is an int or hex symbol
  whose value is no number, above all one that has no value at all (`ConfigText.RoundTripExact`,
  `ConfigText.EmptyNumber`).
- The title of a menu can be read back as a setting, exactly if its comment line is an "is not set"
  line of a symbol (`ConfigText.TitleExact`, `ConfigText.TitleUnsets`).
- If the last line of a file is a bare hash, the bytes that the last line of two or more characters
  has left in the buffer are taken for a comment. A file has the effect of its lines alone exactly
  if it does not end so, or there is such a line and it does not unset a symbol when its first two
  characters are ignored (`ConfigText.ReadExact`, `ConfigText.BareHashUnsets`,
  `ConfigReader.ReadLeftBehind`).

## Model

| member | source | states |
|---|---|---|
| `Expressions.CompareLiteral` | scripts/config/expr.c:920-998 | comparing a logical symbol with y, m or n is comparing truth values, whichever of the string, signed and unsigned readings the parser picks |
| `Cancelling.EliminateYnSound` | scripts/config/expr.c:246-327 | folding y and n out of the joins keeps the value in every world |
| `Cancelling.CancelGroupsFactor` | scripts/config/expr.c:141-173 | both groups are one common factor joined with what is left of them, for AND and for OR; proved together with the soundness of equality |
| `Cancelling.ExprEqSound` | scripts/config/expr.c:200-244 | expressions that compare equal (by cancelling against each other) have the same value |
| `Cancelling.CancelGroupsOrder` | scripts/config/expr.c:141-173 | cancelling does not change which of two values is the smaller one |
| `Cancelling.EliminateEqImplies` | scripts/config/expr.c:175-195 | if the second expression reduces to y, the first one implies the second |
| `Cancelling.CancelGroupsBlanks` | scripts/config/expr.c:141-173 | cancelling keeps the shape of both groups and replaces some operands by the unit |
| `Cancelling.CancelGroupsComplete` | scripts/config/expr.c:141-173 | afterwards no operand of one group equals one of the other, apart from equal literals, which are left alone |
| `Joining.OrRuleSound` | scripts/config/expr.c:361-423 | every rule of expr_join_or keeps the value of the disjunction |
| `Joining.AndRuleSound` | scripts/config/expr.c:425-517 | every rule of expr_join_and keeps the value of the conjunction, unless a tristate is compared with a quoted numeral 0, 1 or 2 |
| `Joining.JoinedSound` | scripts/config/expr.c:361-517 | whatever two operands are joined into has the value of their join |
| `Expressions.CompareConst` | scripts/config/expr.c:920-998 | comparing a logical symbol with any constant asks whether its truth value is the one that the constant reads as, if it reads as one at all |
| `Joining.DistinguishAt` | scripts/config/expr.c:470-483 | in one world the rule for (a=b)&&(a!=c) is wrong if and only if b and c are different constants and a is equal to both |
| `Joining.DistinguishExact` | scripts/config/expr.c:470-483 | it keeps the value in every world if and only if b and c are the same constant or do not read as the same one of 0, 1 and 2 |
| `Joining.DistinguishFails` | scripts/config/expr.c:470-483 | an input on which it fails: (a="0")&&(a!=n) is never true, but is joined into a="0", which is true when a is n |
| `Paths.EvalPutTwo` | scripts/config/expr.c:519-569 | overwriting two operands of a group changes its value only through the join of those two |
| `Dups.Dups1Sound` | scripts/config/expr.c:519-569 | one pass of the two aliased cursors over a group keeps its value |
| `Dups.Dups1Progress` | scripts/config/expr.c:519-569 | a pass that joins nothing changes nothing and has tried every pair; one that joins something leaves a literal behind |
| `Dups.FoldingShrinks` | scripts/config/expr.c:571-592 | folding after such a pass makes the expression smaller, so the loop ends |
| `Dups.EliminateDupsSound` | scripts/config/expr.c:571-592 | expr_eliminate_dups keeps the value in every world |
| `Dups.EliminateDupsComplete` | scripts/config/expr.c:571-592 | at the end no two operands of any AND or OR on the spine can be joined any more |
| `Dups.ClosedEliminateDups` | scripts/config/expr.c:571-592 | whatever property joining and folding keep holds of the result |
| `Transforming.SimplifyCompSound` | scripts/config/expr.c:615-659 | replacing comparisons of booleans with y, m and n keeps the value |
| `Transforming.TransformNormal` | scripts/config/expr.c:594-749 | the result is in negation normal form: NOT only over a symbol that is not a literal, no boolean compared with a literal |
| `Transforming.TransformFixedPoints` | scripts/config/expr.c:594-749 | an expression is in normal form if and only if transforming it changes nothing |
| `Transforming.TransformIdempotent` | scripts/config/expr.c:594-749 | transforming twice is transforming once |
| `Transforming.TransformSound` | scripts/config/expr.c:594-749 | the normal form has the value of the input in every world |
| `Transforming.FlipExact` | scripts/config/expr.c:678-693 | turning a negated ordering into the opposite one is right in every world if and only if no operand has type S_OTHER, or the other one is a name without a type that is no numeral |
| `ExprTree.Tree.Write` | scripts/config/expr.c:521-569 | a write at a cursor replaces exactly the operand there |
| `ExprTree.Tree.FoldAt` | scripts/config/expr.c:246-327 | expr_eliminate_yn in place computes the folded expression at the cursor and touches nothing else |
| `ExprTree.Tree.TransBoolAt` | scripts/config/expr.c:332-356 | expr_trans_bool in place computes TransBool of the slot |
| `ExprTree.Tree.TransformAt` | scripts/config/expr.c:594-749 | expr_transform in place, with its re-entry after De Morgan, computes Transform of the slot and terminates |
| `ExprTree.Tree.JoinOperands` | scripts/config/expr.c:519-569 | expr_eliminate_dups1 in place computes Dups1 of the group and counts the joins in trans_count |
| `ExprTree.Tree.JoinPair` | scripts/config/expr.c:540-569 | the same for a pair of operands, the first of which may be a group of the other type |
| `ExprTree.Tree.RemoveDuplicates` | scripts/config/expr.c:571-592 | the loop of expr_eliminate_dups computes EliminateDups and restores trans_count |
| `ExprTree.Tree.CancelAt` | scripts/config/expr.c:141-173 | __expr_eliminate_eq on two trees in place computes CancelGroups of the two slots |
| `ExprTree.Tree.CancelCommon` | scripts/config/expr.c:175-195 | expr_eliminate_eq in place computes EliminateEq of the two trees |
| `Submenu.DependsSound` | scripts/config/expr.c:779-806 | a condition that depends on a symbol whose text tells its truth value is not n only if the symbol is not n |
| `Submenu.DependsTestExact` | scripts/config/expr.c:791-800 | each of the three tests shows that in every world if and only if the symbol is logical, or a literal, or has no type and its name decides the test |
| `Submenu.DependsExact` | scripts/config/expr.c:779-806 | all conditions together show it if and only if the symbol is logical, a literal, or named n without a type |
| `Submenu.TransCompareExact` | scripts/config/expr.c:808-871 | expr_trans_compare is y where the condition has the given value and n elsewhere (inverted for !=), given that no negated operand is m |
| `Submenu.NegatedTestExact` | scripts/config/expr.c:839-840 | under a NOT the test is right in a world if and only if the negated expression is not m there |
| `Submenu.NegatedSymbolExact` | scripts/config/expr.c:839-840 | for a negated symbol it is right in every world if and only if the symbol is boolean, y or n |
| `Submenu.NestsSound` | scripts/config/menu.c:341-366 | a nested entry has a condition other than n only if the symbol above it is set (first test, for symbols whose text tells it) or its prompt is visible (second test, for symbols of any type) |
| `Submenu.TransBoolPromoted` | scripts/config/expr.c:332-356 | without negated tests, dropping "!= n" can only lower a value, and only from y to m, so that it is unchanged once m is promoted to y |
| `Submenu.TransBoolAt` | scripts/config/expr.c:332-356 | in one world a comparison keeps its value, and a negated one its promoted value, if and only if it is not rewritten or the symbol is not m |
| `Submenu.TransBoolExact` | scripts/config/expr.c:332-356 | in every world, if and only if it is not the test of a tristate against n with != |
| `Submenu.HandDownMeaning` | scripts/config/menu.c:314-318 | the stored condition is the conjunction of the inherited one and the own one |
| `Submenu.HandDownMonotone` | scripts/config/menu.c:309-331 | value(property) <= value(entry) <= value(enclosing prompt), and the property has exactly the value of the conjunction after promotion (before it for tristates) |
| `Submenu.VisibilityUnchanged` | scripts/config/symbol.c:221-235 | rewriting the prompts of a symbol that is not a tristate leaves the visibility that sym_calc_visibility computes alone |
| `MenuForest.SpliceKeeps` | scripts/config/menu.c:415-426 | moving the entries of promptless menus up keeps the preorder sequence of entries |
| `MenuForest.FinalizeKeeps` | scripts/config/menu.c:282-444 | menu_finalize on an entry keeps exactly that entry and the following ones it takes away, in their order, with conditions handed down once; only entries of symbols that have just become values of a tristate choice also wait for it, at most one for each symbol |
| `MenuForest.FinalizeAllKeeps` | scripts/config/menu.c:339-340 | the same for all entries of a menu |
| `MenuForest.AbsorbKeeps` | scripts/config/menu.c:341-372 | the automatic submenu and what still follows are a split of what followed |
| `MenuForest.FinalizeRoot` | scripts/config/menu.c:282-444 | for the whole tree no entry is lost, duplicated or reordered, and conditions are changed in no other way |
| `MenuForest.MarkAllExact` | scripts/config/menu.c:375-414 | below a choice every symbol of the list becomes a choice value, and exactly the first entry of each new one that must wait for the choice does; elsewhere nothing happens |
| `MenuForest.GuardedMeaning` | scripts/config/menu.c:396-411 | an entry that waits has its own conditions while the choice is y, and is not available otherwise |
| `MenuForest.SpliceSettles` | scripts/config/menu.c:415-426 | afterwards no entry without prompt has a list, and nothing moves if and only if that was so before |
| `MenuForest.FinalizeSettles` | scripts/config/menu.c:282-426 | after menu_finalize every list below an entry belongs to an entry with a prompt |
| `MenuForest.AbsorbExact` | scripts/config/menu.c:346-366 | every entry of the submenu passed the test, and the first one behind it did not |
| `MenuForest.SubmenuSound` | scripts/config/menu.c:341-366 | automatic submenus are sound for every entry they take in, with the conclusion that belongs to the test that took it in |
| `MenuForest.SubmenuSoundText` | scripts/config/menu.c:341-366 | the same in every world, if below negations the two conditions use only booleans, y and n as truth values |
| `MenuForest.ConditionedMonotone` | scripts/config/menu.c:309-331 | shown <= available <= inherited for an entry after the first loop, and the same for its other properties |
| `MenuForest.SpreadMonotone` | scripts/config/menu.c:309-340 | the same everywhere below an entry, for the whole tree |
| `MenuTree.FinalizeNodes` | scripts/config/menu.c:282-444 | menu_finalize keeps the set of entries and their distinctness |
| `MenuTree.OrderOnce` | scripts/config/menu.c:339-340 | preorder names every entry of a forest of distinct entries, and none twice; so each one is finalised exactly once |
| `MenuTree.Condition` | scripts/config/menu.c:314-331 | one entry gets the conditions of the tree model, and so do its prompt and its other properties |
| `MenuTree.HandDownAll` | scripts/config/menu.c:314-331 | the loop over the entries leaves the heap linked as the forest with conditions handed down |
| `MenuTree.Reparent` | scripts/config/menu.c:416-420 | every entry of a chain gets the new parent; the last one is returned |
| `MenuTree.MoveUp` | scripts/config/menu.c:415-425 | the list of a promptless entry is linked in behind it, below the same parent |
| `MenuTree.MarkEntry` | scripts/config/menu.c:376-411 | one entry of a choice gets its flag and, if it has to wait, all its conditions are changed, in place |
| `MenuTree.TurnAt` | scripts/config/menu.c:375-426 | one turn of the third loop: an entry is marked, and its list moves up if it has no prompt |
| `MenuTree.SpliceBelow` | scripts/config/menu.c:375-426 | the third loop leaves the heap linked as the spliced and marked forest, with the flags set as specified |
| `MenuTree.NestEntries` | scripts/config/menu.c:342-366 | the second loop finalises the entries that nest, in order, and gives them their parent |
| `MenuTree.TakeOver` | scripts/config/menu.c:367-371 | the chain up to the last nested entry becomes the list, and the rest still follows |
| `MenuTree.NestFollowing` | scripts/config/menu.c:341-372 | both together, for an entry without a list |
| `MenuTree.FinalizeEntries` | scripts/config/menu.c:339-340 | each entry of a menu is finalised, once |
| `MenuTree.FinalizeMenu` | scripts/config/menu.c:282-426 | on the heap of next, list and parent links: the result is linked exactly as the tree model says, with the choice value flags it says, every parent pointer names the containing entry, and the function has been called once per entry, in preorder |
| `MenuWalk.WrittenOnce` | scripts/config/confdata.c:794-811 | however many entries a symbol has, it is written once if flagged and not at all otherwise |
| `MenuWalk.WrittenInOrder` | scripts/config/confdata.c:794-826 | symbols are written in the order of their first entries |
| `MenuWalk.Next` | scripts/config/confdata.c:813-825 | one step of the stackless walk ends at the next entry in preorder, or at null if there is none |
| `MenuWalk.Configuration.CalcValue` | scripts/config/symbol.c:327-340 | calculating a symbol, and others on the way, changes nothing about which symbols are going to be written |
| `MenuWalk.Configuration.WriteSymbol` | scripts/config/confdata.c:804-811 | the symbol is calculated, and written if it is then flagged, which takes the flag away |
| `MenuWalk.Configuration.Write` | scripts/config/confdata.c:793-826 | the walk visits every entry below the root exactly once, in preorder, and writes each symbol that calculation flags once; if nothing has been changed before, everything is calculated anew |
| `MenuWalk.FinalizeAlike` | scripts/config/menu.c:282-444 | finalising changes neither which entries a walk visits nor their order |
| `MenuWalk.FinalizeAndWrite` | scripts/config/confdata.c:793-826 | finalising the tree and then walking it visits every entry that was read, once, in the order of the files |
| `Choices.ShareFinalized` | scripts/config/menu.c:396-411 | what a choice contributes to the prompt of a value is what menu_finalize has written into its condition |
| `Choices.FirstDefaultExact` | scripts/config/symbol.c:275-283 | the default found is the first active one that is visible |
| `Choices.FirstVisibleExact` | scripts/config/symbol.c:285-289 | the value found is the first visible one |
| `Choices.WinnerExact` | scripts/config/symbol.c:295-325 | there is a winner if and only if some value is visible; it is visible, and it is the user's pick whenever that is |
| `Choices.ChoiceExact` | scripts/config/symbol.c:327-437 | exactly one value is y and all others n if and only if the choice is y and no value without visible prompt gets an active default of its own; the winner is y in any case; if the choice is not y, no value exceeds it |
| `Choices.MandatoryChoice` | scripts/config/menu.c:439-443 | a visible boolean choice that is not optional is n only if none of its values is visible |
| `Choices.Choice.CalcVisibility` | scripts/config/symbol.c:221-260 | the visibility of a choice and the values of its two dependency expressions |
| `Choices.Choice.CalcMemberVisibility` | scripts/config/symbol.c:209-241 | the visibility of a value, calculating the choice on the way unless that is under way |
| `Choices.Choice.ChoiceDefault` | scripts/config/symbol.c:269-293 | sym_choice_default finds the first active visible default, else the first visible value |
| `Choices.Choice.CalcChoice` | scripts/config/symbol.c:295-325 | sym_calc_choice returns the winner, and resets the choice to n if there is none |
| `Choices.Choice.Calc` | scripts/config/symbol.c:327-437 | calculating the choice first gives the specified value, despite the recursion |
| `Choices.Choice.CalcDefault` | scripts/config/symbol.c:115-126 | the first default of a value that is active, with the choice calculated on the way |
| `Choices.Choice.MemberTarget` | scripts/config/symbol.c:370-424 | what a value comes to once its visibility is known |
| `Choices.Choice.CalcMember` | scripts/config/symbol.c:327-435 | calculating a value first gives the specified value and keeps everything calculated right |
| `Choices.CalcInOrder` | scripts/config/symbol.c:327-466 | in whatever order the choice and its values are asked for, they get the same values |
| `Recursion.RankedAcyclic` | scripts/config/symbol.c:1266-1298 | a numbering that dependencies descend excludes a cycle |
| `Recursion.Checker.PrintRecursive` | scripts/config/symbol.c:1086-1158 | the slice of the stack that is printed is a cycle through the symbol |
| `Recursion.Checker.CheckDeps` | scripts/config/symbol.c:1266-1298 | the stack is restored, and a returned symbol is still on it |
| `Recursion.Checker.CheckSymDeps` | scripts/config/symbol.c:1195-1227 | all dependencies of a symbol are explored, or a symbol on the stack is returned |
| `Recursion.Checker.CheckExpr` | scripts/config/symbol.c:1160-1192 | the same for the symbols of an expression |
| `Recursion.Checker.CheckAll` | scripts/config/zconf.y:531-534 | a pass over the symbols of the hash table, which lacks y, m and n, reports something if and only if there is a cycle; every report is one; no call returns a symbol, so the configuration is never rejected for it |
| `ConfigText.UnquoteQuoted` | scripts/config/confdata.c:161-171 | unescaping a written string gives it back |
| `ConfigText.QuotedInjective` | scripts/config/symbol.c:920-961 | different strings are never written alike |
| `ConfigText.LinesPartition` | scripts/config/confdata.c:217-249 | the lines are a partition of the text; only the last may lack its newline |
| `ConfigText.AssignLine` | scripts/config/confdata.c:355-365 | a line with a value means that value, without a carriage return at its end |
| `ConfigText.UnsetLine` | scripts/config/confdata.c:326-354 | an "is not set" line means n |
| `ConfigText.ReadTitle` | scripts/config/confdata.c:799-803 | the lines written for a menu title change nothing when read |
| `ConfigText.TitleExact` | scripts/config/confdata.c:326-354 | a title in one line changes nothing in any configuration if and only if its line does not unset a symbol |
| `ConfigText.ReadHeading` | scripts/config/confdata.c:653-665 | the heading, cut to 255 bytes, changes nothing if its title does not |
| `ConfigText.ReadComment` | scripts/config/confdata.c:513-531 | nor does any comment of several lines each of which is harmless |
| `ConfigText.ReadExact` | scripts/config/confdata.c:320-328 | in every state and whatever new memory holds, reading has the effect of the lines, if and only if the last one is not a bare hash, or the last line of two or more characters before it does not go on like a comment that unsets a symbol |
| `ConfigText.BareHashUnsets` | scripts/config/confdata.c:326-354 | a text of two meaningless lines that unsets a symbol, because the first one is still in the buffer |
| `ConfigText.ReadSetting` | scripts/config/confdata.c:490-511 | one setting, written and read back, is stored, unless it should be a number and is none; nothing else changes |
| `ConfigText.RoundTrip` | scripts/config/confdata.c:276-410 | reading a written configuration of values without newlines stores exactly these values, except what is no number for an int or hex symbol |
| `ConfigText.StoreAllAt` | scripts/config/confdata.c:276-410 | with distinct names each value ends up at its own symbol |
| `ConfigText.ReadFree` | scripts/config/confdata.c:126-194 | whatever the text, no value that is read contains a newline, every number that is read is one, and symbols keep their types |
| `ConfigText.RoundTripExact` | scripts/config/confdata.c:276-410 | every written value is restored if and only if no string contains a newline and every number is one |
| `ConfigText.EmptyNumber` | scripts/config/confdata.c:179-187 | an int or hex symbol without a value is written as an empty number, and reading that leaves it without one |
| `ConfigText.TitleUnsets` | scripts/config/confdata.c:326-354 | a concrete title that is read as a setting |
| `ConfigReader.StrChr` | scripts/config/confdata.c:329-360 | strchr on the buffer finds the first occurrence within the C string |
| `ConfigReader.DropBackslash` | scripts/config/confdata.c:169-169 | the memmove removes one backslash; at the very end of the string it leaves a terminator behind |
| `ConfigReader.Unescape` | scripts/config/confdata.c:164-175 | the in-place loop leaves the unescaped string, or fails, exactly as the specification says, and stays inside the line |
| `ConfigReader.EscapeStringValue` | scripts/config/symbol.c:920-961 | the buffer counted beforehand is filled to the last byte with the quoted string |
| `ConfigReader.StringValid` | scripts/config/symbol.c:557-598 | sym_string_valid decides the syntax of integers and hexadecimal numbers |
| `ConfigReader.Reader.AddByte` | scripts/config/confdata.c:196-215 | the line buffer grows and keeps its contents |
| `ConfigReader.Reader.GetLine` | scripts/config/confdata.c:217-249 | one line with terminator, or -1 exactly at the end |
| `ConfigReader.Reader.SetSymVal` | scripts/config/confdata.c:126-194 | the symbol gets the value the specification gives it, in place |
| `ConfigReader.Reader.ReadUnset` | scripts/config/confdata.c:329-354 | the name and the rest of an "is not set" line, cut apart in the buffer |
| `ConfigReader.Reader.ReadValue` | scripts/config/confdata.c:356-379 | the name and the value of an assignment, cut apart in the buffer |
| `ConfigReader.Reader.ReadComment` | scripts/config/confdata.c:326-354 | a comment line takes effect as specified, with the bytes behind the terminator when nothing follows the hash |
| `ConfigReader.Reader.ReadAssignment` | scripts/config/confdata.c:355-379 | a line with "=" takes effect as specified |
| `ConfigReader.Reader.NextLine` | scripts/config/confdata.c:323-379 | one turn of the loop: the next line has had its effect, and what it has left in the buffer is what a bare hash would say |
| `ConfigReader.Reader.ReadSimple` | scripts/config/confdata.c:320-410 | reading a file computes the effect of its lines, where a last bare hash says what its predecessors have left in the buffer |
| `ConfigReader.ReadLeftBehind` | scripts/config/confdata.c:320-354 | the reader on such a file: a symbol is unset, whatever new memory holds |
| `Saving.SavedConfiguration` | scripts/config/confdata.c:793-826 | the flagged symbols that the walk writes are all restored by reading the text if and only if no string among their values contains a newline and every number is one |
| `Streaming.AbsorbConcat` | scripts/mkhash.c:614-650 | blocks can be taken in in portions |
| `Streaming.ZeroCountLeast` | scripts/mkhash.c:566-591 | the padding uses the least number of zeros |
| `Streaming.PadBlocks` | scripts/mkhash.c:566-591 | the padded message is the complete blocks and one or two more |
| `ShaRounds.RewritesSums` | scripts/mkhash.c:482-494 | regrouped sums and rewritten Ch and Maj give the same two temporary words |
| `ShaRounds.ScheduleWords` | scripts/mkhash.c:496-497 | the interleaved schedule consists of the words of the standard |
| `ShaRounds.Rnd` | scripts/mkhash.c:482-487 | RND changes two words as the standard computes them |
| `ShaRounds.RotatingRound` | scripts/mkhash.c:488-494 | a round on rotated names is the shifting round of the standard, seen one place further |
| `ShaRounds.MSCH` | scripts/mkhash.c:496-497 | one more schedule word |
| `ShaRounds.SixteenRounds` | scripts/mkhash.c:506-522 | 16 rotating rounds are 16 shifting rounds, and the rotation is back where it was |
| `ShaRounds.SixteenWords` | scripts/mkhash.c:526-541 | 16 more schedule words |
| `ShaRounds.Transform` | scripts/mkhash.c:451-555 | the whole block: 64 rounds of section 6.2.2 of FIPS 180-4 and the final additions |
| `Sha256Constants.RoundConstantCorrect` | scripts/mkhash.c:454-471 | each of the 64 constants has the first 32 fractional bits of the cube root of its prime number |
| `Sha256Constants.InitialValueCorrect` | scripts/mkhash.c:595-610 | each word of the initial state has the first 32 fractional bits of a square root |
| `Sha256.ChCorrect` | scripts/mkhash.c:442-442 | Ch as written is Ch of section 4.1.2 of FIPS 180-4 |
| `Sha256.MajCorrect` | scripts/mkhash.c:443-443 | Maj as written is Maj of section 4.1.2 |
| `Sha256.ProgramRewrites` | scripts/mkhash.c:442-494 | on all words the program's round computes what the standard's does |
| `Sha256.Be32DecCorrect` | scripts/mkhash.c:113-126 | decoding gives the word of the block, most significant byte first |
| `Sha256.WordRoundTrip` | scripts/mkhash.c:92-126 | encoding a word and decoding it gives it back |
| `Sha256.Be32EncCorrect` | scripts/mkhash.c:92-100 | the bytes of a word, most significant first |
| `Sha256.Be64EncCorrect` | scripts/mkhash.c:103-109 | the bytes of the length, most significant first |
| `Sha256Context.Context.Transform` | scripts/mkhash.c:451-555 | the state becomes the hash value after the block |
| `Sha256Context.Context.CountBytes` | scripts/mkhash.c:623-627 | the count is the length in bits modulo 2^64 |
| `Sha256Context.Context.Update` | scripts/mkhash.c:614-650 | the context stands for the message followed by the data, however much is buffered |
| `Sha256Context.Context.PadToLength` | scripts/mkhash.c:570-584 | the marker and the zeros, with an extra block if there is no room for the length |
| `Sha256Context.Context.Pad` | scripts/mkhash.c:566-591 | the state is the hash value of the padded message of section 5.1.1 |
| `Sha256Context.Context.Final` | scripts/mkhash.c:657-667 | the digest of the message; the context is cleared |
| `Sha256Context.HashChunks` | scripts/mkhash.c:707-720 | the digest of the concatenation, however the file is split |
| `Md5Constants.AdditiveCorrect` | scripts/mkhash.c:181-280 | each of the 64 additive constants is the whole part of 2^32 times the absolute value of a sine |
| `Md5.TableCorrect` | scripts/mkhash.c:181-280 | the 64 steps as transcribed use the macros, words, distances and constants of section 3.4 of RFC 1321 |
| `Md5.MacroCorrect` | scripts/mkhash.c:143-160 | F, G, H, H2 and I as written are the functions of section 3.4 |
| `Md5.StepCorrect` | scripts/mkhash.c:152-160 | one STEP is one operation of the standard on rotated registers |
| `Md5Context.Context.Block` | scripts/mkhash.c:181-289 | 64 steps and the final additions are the standard's block |
| `Md5Context.Context.Body` | scripts/mkhash.c:181-289 | any positive number of complete blocks |
| `Md5Context.Context.CountBytes` | scripts/mkhash.c:308-311 | hi * 2^29 + lo is the byte count modulo 2^61, with the carry found by comparing |
| `Md5Context.Context.Update` | scripts/mkhash.c:303-335 | the context stands for the message followed by the data |
| `Md5Context.Context.PadToLength` | scripts/mkhash.c:343-356 | the marker and the zeros, with an extra block if needed |
| `Md5Context.Context.Final` | scripts/mkhash.c:338-388 | the digest of the message; the context is cleared |
| `Md5Context.CounterStep` | scripts/mkhash.c:308-311 | the arithmetic of the two-part counter |
| `Md5Context.LengthBytes` | scripts/mkhash.c:358-366 | the two halves of the counter, the lower one shifted, are the bytes of the length in bits |
| `Md5Context.HashChunks` | scripts/mkhash.c:692-705 | the digest of the concatenation, however the file is split |
| `RuleTable.InsertRefines` | qca/src/emesh-sp/sp_mapdb.c:165-170 | a new rule is matched before the rules of its precedence, nothing else changes, and lists and hash stay consistent |
| `RuleTable.ModifyRefines` | qca/src/emesh-sp/sp_mapdb.c:183-216 | a changed rule keeps its place if its precedence stays, and is linked newest in its new precedence otherwise |
| `RuleTable.RemoveRefines` | qca/src/emesh-sp/sp_mapdb.c:225-261 | deleting removes one rule from the order and from the map by id |
| `RuleTable.FlushRefines` | qca/src/emesh-sp/sp_mapdb.c:573-610 | flushing empties both |
| `RuleTable.FirstMatchBest` | qca/src/emesh-sp/sp_mapdb.c:505-518 | the search finds a rule of the highest matching precedence, the front-most of its list, and nothing only if nothing matches |
| `RuleManager.Manager.SearchEntry` | qca/src/emesh-sp/sp_mapdb.c:94-105 | the hash lookup finds the rule with the id |
| `RuleManager.Manager.ModifyLocked` | qca/src/emesh-sp/sp_mapdb.c:150-216 | the first locked section changes the rule with the id if there is one, and changes nothing otherwise |
| `RuleManager.Manager.InsertLocked` | qca/src/emesh-sp/sp_mapdb.c:165-170 | the second locked section inserts |
| `RuleManager.Manager.DeleteLocked` | qca/src/emesh-sp/sp_mapdb.c:225-261 | the locked section of deletion |
| `RuleManager.Manager.FlushLocked` | qca/src/emesh-sp/sp_mapdb.c:573-610 | the flush retires exactly the rules that were there |
| `RuleManager.Manager.Walk` | qca/src/emesh-sp/sp_mapdb.c:510-518 | the loops over the lists return the first match in the abstract order |
| `RuleManager.Manager.Search` | qca/src/emesh-sp/sp_mapdb.c:486-561 | the output of the first match, turned into a priority |
| `RuleManager.Manager.LatencyParams` | qca/src/emesh-sp/sp_mapdb.c:724-761 | the parameters of the rule that the search decides for, and zeros without one |
| `RuleManager.Manager.Add` | qca/src/emesh-sp/sp_mapdb.c:115-217 | every result of sp_mapdb_rule_add, and the new order and map by id |
| `RuleManager.Manager.Update` | qca/src/emesh-sp/sp_mapdb.c:624-655 | the whole of sp_mapdb_rule_update without interference, with all its error results |
| `RuleUpdates.NextInv` | qca/src/emesh-sp/sp_mapdb.c:115-261 | every atomic step of every thread and of the flush keeps the invariant |
| `RuleUpdates.RunInv` | qca/src/emesh-sp/sp_mapdb.c:573-655 | hence every interleaving does |
| `RuleUpdates.UpdatesSafe` | qca/src/emesh-sp/sp_mapdb.c:573-655 | in every reachable state: ids unique, hash and lists hold the same nodes, the count is their number and at most 255, no node retired twice or while linked, at most one thread inside |
| `RuleUpdates.RetiredOnce` | qca/src/emesh-sp/sp_mapdb.c:225-261 | no node is handed over for destruction twice |
| `RuleUpdates.StepRefines` | qca/src/emesh-sp/sp_mapdb.c:115-261 | every step is one operation on the abstract order of rules, or leaves it alone |

## Left out

Optimiser:

- Allocation and freeing of expressions, and sharing of subtrees between expressions: trees are values, or one mutable tree with cursors.
- Dups.EliminateDupsComplete: speaks about the spine of ANDs and ORs; the code does not look for pairs below a NOT either.
- Joining.AndRuleSound: assumes that no constant compared with a tristate symbol is a numeral 0, 1 or 2; `Joining.DistinguishExact` says why. The same holds of everything that contains joins.
- Transforming.TransformSound: assumes that the operands of orderings have an order; `Transforming.FlipExact` says why.
- Submenu.TransCompareExact: assumes that no negated operand is m; `Submenu.NegatedTestExact` says why.
- The increments of `trans_count` in `expr_eliminate_eq` and `expr_eliminate_yn`: the only reader, `expr_eliminate_dups`, resets the counter first.
- E_LIST, E_RANGE and E_NONE nodes, `expr_simplify_unmet_dep`, `expr_compare_type` and printing.
- Overflow in strtoll and strtoull is an error, as with `errno`; `sym_get_string_value` giving "n" for m when modules are off is not needed, because evaluation never leaves m then.

Menus, choices and recursive dependencies:

- MenuTree.FinalizeMenu: the reverse and direct dependencies that are collected for each symbol, the list of choice values and all warnings are not part of this model. Types are those that symbols have in the end; that a choice has none yet when its own conditions are handed down is told by a field of its entry.
- MenuTree.Condition: of a select it models the condition, not the reverse dependency it adds to another symbol.
- Choices.CalcInOrder: conditions other than the choice itself are values that do not depend on the choice; what the values of defaults of choice values evaluate to is given; the flags for writing, changes and random choices are not part of this model.
- MenuWalk.Configuration.Write: the values of symbols do not change during the walk, so whether calculating a symbol flags it is fixed; titles of menus are part of the text model only.
- Recursion.Checker.CheckAll: choices and choice values, which share their flags, are not part of the graph; the printed message is the cycle itself.
- `conf_write_defconfig` uses the same walk with other filters.

Configuration files:

- ConfigReader.Reader.ReadSimple: reads for S_DEF_USER; the automatic configuration, which creates symbols, is not part of this model, nor are the choice that a choice value belongs to, warnings and failing allocations.
- ConfigReader.Reader.ReadComment: the program may read behind the line buffer after a bare hash; here new memory holds anything, but ends in a NUL.
- ConfigText.RoundTrip: the prefix is `CONFIG_`, not one from the environment; names consist of letters, digits and underscores; the other printers (headers, `tristate.conf`) are not part of this model.

Hashes:

- Sha256.Be32DecCorrect: sums of disjoint bytes stand for the shifts and ors of the source.
- Md5Constants.AdditiveCorrect: the sine of a natural number is defined by the addition theorem from sin(1) and cos(1), and these by their power series; floating point plays no part.
- File reading, option parsing and the hexadecimal output; `size_t` has 64 bits, and one call gets fewer than 2^64 bytes.
- The 64 STEP lines of MD5 are a table, and the unrolled rounds of SHA-256 are called in groups of four; order and arguments are those of the source. The byte order of SET is little endian, that of be32dec_vect big endian.

Rule table:

- Matching a packet against a rule is an abstract predicate; RCU grace periods and memory ordering, notifications, statistics, printing and hash buckets are not part of this model. RCU lists are sequences, so readers see one consistent list.
- RuleUpdates.UpdatesSafe: the single-writer bit also remembers which thread has set it, and rule ids are natural numbers.
- The command-line and menu user interfaces, `px5g.c`, the Python scripts and the QCA daemons.
