# Kconfig, device trees, modules, DHCP, cpio and command lines, verified

This project models the symbolic core of Kconfig as it is kept in buildroot,
and five algorithms of u-root that surround booting a kernel, and proves what
they promise.  `dafny verify dfyconfig.toml` checks all of it.

**Kconfig** (`buildroot/support/kconfig`) is an engine over the three-valued
logic n < m < y, with AND as minimum, OR as maximum and NOT as the distance
from 2.

- `Tristates`, `Numbers`, `Expressions`: the logic, the number parsing behind
  comparisons, expressions and their value under an assignment.
  `NumeralReading`, `Comparisons`: which texts are numbers, and that the
  relations are those of the numbers or of the dictionary.
- `Elimination`, `Joining`, `Duplicates`, `Transforming`, `NormalForms`,
  `Submenus`: the rewriting of dependency expressions.  Each rewrite keeps the
  value, or it is said exactly when it does.  `Operands`: which expressions
  count as equal, and what is used up.
- `Equations`, `SymbolValues`: the values of all symbols as the one solution
  of a system of equations, in which every symbol has a `modules_val` of its
  own.  `SymbolCache`: the evaluation with its VALID marks, in whatever order
  symbols are calculated, and the setting and toggling of values.
  `ModulesSwitch`, `Eras`: what the modules symbol is calculated from, and what
  happens to calculated values when `modules_val` changes.  `SymbolMarks`,
  `MarksAfter`: when the marks are right, before and after such a change.
  `SymbolRuns`: two runs that leave a stale value.  `Choices`: choices, whose
  members and whose own value are calculated through each other.
- `DependencyCheck`: the search for recursive dependencies with its CHECK and
  CHECKED marks and its early exits.
- `MinimalConfig`, `ReadingBack`, `ConfigLines`: minimal configurations, what
  a program that has just been started makes of them, and the lines of a
  configuration file down to their characters, from the values to the text and
  back to the values.
- `Menus`: the menu tree as linked objects, relinked in place, and the walk
  through its pointers.

**u-root** (`u-root/pkg`):

- `Bytes`, `DeviceTree`, `DeviceTreeWriter`, `DeviceTreeReader`,
  `DeviceTreeRoundTrip`: flattened device trees (Devicetree Specification,
  Release 0.2, sections 5.2 to 5.5), with a recursive writer, a separate size
  pass, a deduplicated strings block, and a token loop that builds linked
  nodes.  `DeviceTreeFormat`, `DeviceTreeNops`: which files are accepted, apart
  from the reader's own steps, and that FDT_NOP tokens change nothing.
- `ModuleLoader`: the depth-first loading of modules over mutable states.
- `SendRequests`: the goroutines, WaitGroup and channel of the DHCP
  coordination as interleaved steps.
- `Cpio`: newc archives (cpio(5), "New ASCII Format").
- `CommandLine`: the quote-state tokenizer of kernel command lines and the
  filter whose output is tokenized again.

Code that works step by step is modelled by classes and methods with loops,
each proved against a definition on values; what the program promises is then
proved about those definitions.  `Wrappers` and `Sequences` hold what several
modules need.

## Assumptions

- An assignment is well formed if bools are never `m`, a bool or tristate has
  its letter as string value, and the constants have their own values.  This
  is proved of every calculated table (`SymbolValues.SolutionIsWellFormed`).
- Tables of symbols have no choices (these are in `Choices`), no ranges, and
  no symbols set by the environment or by options.
- A table has no dependency cycle when symbols are calculated
  (`DependencyCheck.SortedIsAcyclic` gives the ranking).
- Memory and files do not run out; positions and counters of Go are
  mathematical integers except where a field has 32 bits, where every
  conversion is written out.

## Where the code does something else than one might expect

- The comments of `expr_join_and` promise `(a!='m')&&(a!='n') -> (a='m')`; the
  code gives `a='y'`, and that is what keeps the value.
- `a='b' && a!='c'` becomes `a='b'` even if `b` is `m` and `c` is the text
  "1", which are equal for a tristate that is `m`.  `JoinEqualUnequalExact`
  says exactly which constants are affected, `NumbersBreakDups` shows one.
- Whether two ANDs or ORs are equal does not depend on the order of their
  operands, unless a `y` or `n` among them has not been folded away
  (`EqualExact`, `ConstantsBreakOrder`).
- The negation of an ordered comparison is wrong where values cannot be
  compared: both comparisons are `n` then (`NegatedCompExact`).
- The test `expr_trans_compare` makes of a negation is wrong when the negated
  part is `m` (`NegationTestExact`, `NegationTestFails`).
- The test `expr_trans_compare` makes of a symbol `FOO` that nothing defines is
  `FOO != n`, which is `y` although `FOO` is `n`: the test compares strings, and
  the string of `FOO` is its name (`ConditionTestExact`).  So the submenu test
  takes in entries that are visible although the symbol is `n` and its prompt
  is not visible, when one of the two conditions uses `FOO` alone and the other
  compares it (`UndefinedIsVisibleAlone`).
- A minimal configuration can lose values in two ways.  A select can hold the
  value of a tristate or string in place (`Pinned`, `PinnedExample`); and a
  program that has just been started calculates everything that the modules
  symbol reaches without modules, so that a tristate that was `m` there becomes
  `y` and the modules symbol can come out differently (`LostExample`).
  `ReadingBack.MinimalConfigExact` says that these are the only ways.
- Setting a symbol to the value it has does not clear the VALID marks, which
  leaves stale values if and only if the value did not fit the limits
  (`SetTristateValue`, `LimitedExample`).
- `sym_clear_all_valid` calculates everything that the modules symbol reaches
  under the old `modules_val` and changes `modules_val` only afterwards.  What
  has been calculated stays VALID, and it is stale if and only if modules have
  been switched on or off and one of these tristates is, or is limited to, `m`
  with modules (`Eras.Survives`, a condition on the state before the call;
  `ClearAllValid`, `SurvivesExact`, `StaleExample`).
- Calculating an optional choice forgets its mode when a visible member has no
  value from the user; calculating it again then gives `n`
  (`RecalculationExact`, `RecalculationFails`).
- `sym_check_deps` never returns a symbol to its outermost caller; what it
  finds is only printed.  Implied dependencies are not followed
  (`ImplyUnseen`).
- The device tree reader accepts a structure block that ends while nodes are
  still open (`DeviceTreeFormat.Describes`).
- The device tree reader turns each byte of a node name into a character, so
  that other than ASCII names change (`TreeExact`); a tree without properties
  is written but not read again (`ReadBackExact`); reserved memory ends at the
  first all-zero entry (`EntriesReadBack`).
- A module that has been probed stays `loading`; only its dependencies become
  loaded (`ModuleLoader.Modules.Probe`).
- A truncated cpio archive is read without an error (`TruncationIsSilent`).
  Records without content come back with empty content and size 0.

## Model

| member | source | states |
|---|---|---|
| `Expressions.CompareWithLetter` | buildroot/support/kconfig/expr.c:991-1104 | comparing a bool or tristate with `y`, `m` or `n` through the string path compares the two values |
| `NumeralReading.SignedExact` | buildroot/support/kconfig/expr.c:991-1024 | `strtoll` with the checks around it accepts exactly spaces, a sign and digits of the base, with the value of the digits by their places, if that fits into 64 bits with a sign |
| `NumeralReading.UnsignedExact` | buildroot/support/kconfig/expr.c:991-1024 | the same for `strtoull`, where a minus sign subtracts from 2^64 |
| `NumeralReading.NumeralIsRead` | buildroot/support/kconfig/expr.c:991-1024 | the digits of a number in any base up to 16, with any zeros before them, are worth that number |
| `NumeralReading.WrittenOctal` | buildroot/support/kconfig/expr.c:991-1024 | digits behind a zero are an octal number where the base is that of the prefix |
| `NumeralReading.WrittenHex` | buildroot/support/kconfig/expr.c:991-1024 | digits behind `0x` or `0X`, in either case, are a hexadecimal number |
| `NumeralReading.WrittenIsRead` | buildroot/support/kconfig/expr.c:991-1024 | what both conversions give for a written number with spaces and a sign before it, in decimal, octal or hexadecimal |
| `Comparisons.StrCmpIsDictionary` | buildroot/support/kconfig/expr.c:1074-1081 | `strcmp` is negative, zero or positive exactly as the first string comes before the second in a dictionary, is equal, or comes after it |
| `Comparisons.CompareSigned` | buildroot/support/kconfig/expr.c:1066-1104 | each of the six relations between two signed numbers is `y` exactly when it holds of the numbers |
| `Comparisons.CompareUnsigned` | buildroot/support/kconfig/expr.c:1082-1083 | with a hexadecimal number the relation is that of the 64 bits without sign |
| `Comparisons.CompareTexts` | buildroot/support/kconfig/expr.c:1074-1075 | two strings, or anything and what is no number, are compared as in a dictionary |
| `Comparisons.CompareOthers` | buildroot/support/kconfig/expr.c:1076-1081 | what cannot be compared is equal to the same string, and `n` for every ordered relation |
| `Comparisons.ReadingIsComplete` | buildroot/support/kconfig/expr.c:991-1024 | every string of a type that can be compared is read as a signed number, an unsigned number or a text |
| `Comparisons.CompareDecimals` | buildroot/support/kconfig/expr.c:1066-1104 | an int with decimal digits and a decimal constant are related as the numbers are |
| `Expressions.CalcReadsItsSymbols` | buildroot/support/kconfig/expr.c:1026-1104 | the value of an expression depends on nothing but the symbols that occur in it |
| `Elimination.EliminateYnKeepsValue` | buildroot/support/kconfig/expr.c:308-389 | constant folding keeps the value under every assignment |
| `Elimination.EliminateYnRemovesConstants` | buildroot/support/kconfig/expr.c:308-389 | no constant operand survives, each one found makes the expression smaller, and without one nothing changes |
| `Elimination.EliminateLeavesFactors` | buildroot/support/kconfig/expr.c:149-218 | whatever one elimination takes out of both sides is a common operand under that operator |
| `Elimination.EliminateEqFactors` | buildroot/support/kconfig/expr.c:220-240 | there are p and q with e1 = p or (q and r1) and e2 = p or (q and r2) for the two remainders |
| `Elimination.EqualIsSound` | buildroot/support/kconfig/expr.c:251-295 | expressions that the mutually recursive equality test accepts have the same value under every assignment; which it accepts is `Operands.EqualExact` |
| `Operands.EqualToItself` | buildroot/support/kconfig/expr.c:251-295 | every expression is equal to itself |
| `Operands.EqualInOrder` | buildroot/support/kconfig/expr.c:251-295 | two ANDs or ORs with the same operands in the same order are equal, however they are grouped and whatever they contain |
| `Operands.EqualExact` | buildroot/support/kconfig/expr.c:251-295 | without `y` and `n` as operands, two expressions are equal if and only if they are the same up to the order and grouping of operands, at every depth |
| `Operands.ConstantsBreakOrder` | buildroot/support/kconfig/expr.c:251-295 | with such constants, two expressions that differ only in the order of their operands can be unequal |
| `Operands.EliminateEqExact` | buildroot/support/kconfig/expr.c:220-240 | of two ANDs or ORs the operands of each remain that the other one does not have, counted as often as they occur |
| `Operands.UsedUpExact` | buildroot/support/kconfig/expr.c:220-240 | an AND reduces a second expression to `y` if and only if it has all of its operands, as often as they occur |
| `Elimination.UsedUpMeansImplied` | buildroot/support/kconfig/expr.c:220-240 | if the second operand is reduced to `y`, the first original is at most the second |
| `Joining.JoinEqualUnequalExact` | buildroot/support/kconfig/expr.c:531-545 | the rule for `a = b && a != c` keeps the value under all assignments if and only if no value of a equals both constants |
| `Joining.NumbersAreNotApart` | buildroot/support/kconfig/expr.c:991-1024 | the text "1" and `m` are both equal to a tristate that is `m`, so the rule fails for this pair |
| `Joining.JoinOrKeepsValue` | buildroot/support/kconfig/expr.c:423-485 | what replaces two operands of an OR has the value of the OR |
| `Joining.JoinAndKeepsValue` | buildroot/support/kconfig/expr.c:487-579 | what replaces two operands of an AND has the value of the AND, for constants that are letters or apart from them |
| `Joining.JoinIsSmall` | buildroot/support/kconfig/expr.c:423-579 | the joined operand is no larger than the first one and is not of the same operator again |
| `Duplicates.Dups1` | buildroot/support/kconfig/expr.c:588-654 | the walk of the tree against itself ends, keeps the outline of the operator's operands and never makes the tree larger |
| `Duplicates.Dups1KeepsValue` | buildroot/support/kconfig/expr.c:588-654 | every rewrite of two leaves through the two pointers keeps the value of the whole tree |
| `Duplicates.RoundShrinks` | buildroot/support/kconfig/expr.c:656-678 | a round of the loop that counted something leaves a strictly smaller tree, any other round changes nothing |
| `Duplicates.EliminateDups` | buildroot/support/kconfig/expr.c:656-678 | the `while (1)` loop ends with the tree that repeated rounds give |
| `Duplicates.DupsKeepsValue` | buildroot/support/kconfig/expr.c:656-678 | removing duplicates keeps the value under every well-formed assignment |
| `Duplicates.DupsIsSettled` | buildroot/support/kconfig/expr.c:656-678 | a second removal finds nothing to do |
| `Duplicates.DupsLeavesNoDuplicates` | buildroot/support/kconfig/expr.c:588-678 | at every level of ANDs and ORs of the result no operand occurs twice, in any order without constants, and no two operands about one symbol are left of the pairs that are one comparison or none |
| `Duplicates.JoinedExact` | buildroot/support/kconfig/expr.c:423-579 | two operands are joined if and only if they are equal or one of the listed pairs about one symbol, in either order |
| `Duplicates.NumbersBreakDups` | buildroot/support/kconfig/expr.c:531-545 | `A = m && A != "1"` changes its value when duplicates are removed |
| `Transforming.TransformIsNormal` | buildroot/support/kconfig/expr.c:686-841 | in the result negation stands only over non-constant symbols and no bool is compared with `y`, `m` or `n` |
| `Transforming.TransformIdempotent` | buildroot/support/kconfig/expr.c:686-841 | transforming twice is transforming once, and the fixed points are exactly the normal forms |
| `Transforming.TransformKeepsValue` | buildroot/support/kconfig/expr.c:686-841 | the transformation keeps the value under every assignment, for expressions whose ordered comparisons can be compared |
| `Transforming.NegatedComp` | buildroot/support/kconfig/expr.c:762-785 | swapping a relation negates the test if and only if the two sides can be ordered |
| `Transforming.NegatedCompExact` | buildroot/support/kconfig/expr.c:770-785 | negating an ordered comparison keeps the value under all assignments if and only if it can never reach the `Cannot compare` branch |
| `Submenus.RewriteMValue` | buildroot/support/kconfig/menu.c:81-104 | rewriting makes `m` worth what it is without modules and changes nothing else |
| `Submenus.TransBoolKeepsNo` | buildroot/support/kconfig/expr.c:394-418 | on normal forms the result is `n` exactly when the original is, and never larger |
| `Submenus.TransBoolOfTest` | buildroot/support/kconfig/expr.c:394-418 | the test of a bool or tristate against `n` is rewritten into something that is worth what the symbol is worth |
| `Submenus.TransBoolRemovesTests` | buildroot/support/kconfig/expr.c:394-418 | no test of a tristate against `n` is left, and an expression without one is not changed |
| `Submenus.TransCompareYes` | buildroot/support/kconfig/expr.c:914-977 | the test against `y` is `y` exactly when the expression is, under the same conditions |
| `Submenus.TransCompareMod` | buildroot/support/kconfig/expr.c:914-977 | a comparison is never `m`, and its test against `m` says so |
| `Submenus.TransCompareIsTest` | buildroot/support/kconfig/expr.c:914-977 | the test against `n` is `y` exactly when the expression is not `n`, if negated parts never take `m` and every condition shows whether it is `n` |
| `Submenus.ConditionTestExact` | buildroot/support/kconfig/expr.c:969-970 | for a symbol used as a condition the test is right if and only if its string says whether its tristate is `n` |
| `Submenus.NegationTestExact` | buildroot/support/kconfig/expr.c:945-946 | for a negation the test is right if and only if the negated expression is not `m` |
| `Submenus.NegationTestFails` | buildroot/support/kconfig/expr.c:945-946 | a tristate that is `m`: the test of its negation says `n` although the negation is `m` |
| `Submenus.ContainsIsOccurrence` | buildroot/support/kconfig/expr.c:843-869 | the search for a symbol finds it if and only if it occurs |
| `Submenus.DependsOnOperand` | buildroot/support/kconfig/expr.c:871-898 | an expression depends on a symbol if and only if one operand of its outer AND does |
| `Submenus.ComparisonDepends` | buildroot/support/kconfig/expr.c:882-893 | a comparison with a letter depends on its symbol if and only if it is `n` whenever the symbol is |
| `Submenus.DependsMeansImplies` | buildroot/support/kconfig/expr.c:871-898 | an expression that depends on a symbol is `n` whenever the symbol is |
| `Submenus.SupersetIsVisibleWithParent` | buildroot/support/kconfig/menu.c:471-483 | an entry taken in by the superset test is visible only if the prompt of the parent is |
| `Submenus.AbsorbedIsDependent` | buildroot/support/kconfig/menu.c:448-488 | an entry taken into the submenu can be visible only if the symbol is set or its prompt is visible, unless a condition that nothing defines is also compared |
| `Submenus.UndefinedIsVisibleAlone` | buildroot/support/kconfig/menu.c:471-483 | with an undefined condition that is also compared, the entry taken in is visible while the symbol is `n` and its prompt is not visible |
| `NormalForms.DupsKeepsNormal` | buildroot/support/kconfig/expr.c:656-678 | removing duplicates keeps the normal form |
| `SymbolValues.SolutionSolves` | buildroot/support/kconfig/symbol.c:357-498 | on a table without cycles the plain recursive definition gives every symbol the value calculated from the others |
| `SymbolValues.SolutionIsUnique` | buildroot/support/kconfig/symbol.c:357-498 | no other values satisfy all the definitions at once |
| `SymbolValues.ComputeReads` | buildroot/support/kconfig/symbol.c:357-498 | a value depends on nothing but what the definition of the symbol reads |
| `SymbolValues.SolutionIsWellFormed` | buildroot/support/kconfig/symbol.c:803-825 | the calculated values are assignments in the sense of the expression rewriting: bools are never `m`, strings of tristates are their letters, and other symbols are `n` |
| `SymbolValues.BestPromptExact` | buildroot/support/kconfig/symbol.c:216-222 | the conditions of all prompts count: none is better than the result, and one is as good |
| `SymbolValues.VisibleExact` | buildroot/support/kconfig/symbol.c:216-233 | a symbol is visible if and only if the condition of some prompt is not `n`, and `m` only as a tristate with modules |
| `SymbolValues.LimitsExact` | buildroot/support/kconfig/symbol.c:234-270 | direct dependency, selects and implies are the values of their expressions, `y` for `m` without modules, and an imply counts only where the dependency is not `n` |
| `SymbolValues.FirstDefaultExact` | buildroot/support/kconfig/symbol.c:115-125 | the default is the first one, by its place, whose condition is not `n` |
| `SymbolValues.TextualExact` | buildroot/support/kconfig/symbol.c:446-462 | a string or number is what a visible user has set, or else what the symbol of the first default is worth |
| `SymbolValues.WritesExact` | buildroot/support/kconfig/symbol.c:405-445 | a bool or tristate is to be written if and only if it is visible or not `n` |
| `SymbolCache.Symbols.constructor` | buildroot/support/kconfig/symbol.c:14-44 | at the start of the program modules are off and exactly the three constants are VALID |
| `SymbolCache.Symbols.CalcExpr` | buildroot/support/kconfig/expr.c:1026-1104 | evaluating an expression calculates its symbols on the way, yields its value in the solution (for comparisons see `Comparisons`) and leaves higher symbols alone |
| `SymbolCache.Symbols.CalcVisibility` | buildroot/support/kconfig/symbol.c:209-270 | visibility, direct, reverse and implied dependency get the values that `BestPromptExact`, `VisibleExact` and `LimitsExact` describe |
| `SymbolCache.Symbols.GetDefaultProp` | buildroot/support/kconfig/symbol.c:115-125 | the first default whose condition is not `n` |
| `SymbolCache.Symbols.CalcTristate` | buildroot/support/kconfig/symbol.c:405-445 | the new tristate value and the WRITE flag are those of the plain definition |
| `SymbolCache.Symbols.CalcString` | buildroot/support/kconfig/symbol.c:446-462 | the same for strings and numbers |
| `SymbolCache.Symbols.CalcValue` | buildroot/support/kconfig/symbol.c:357-498 | after the call the symbol is VALID with its value in the solution, no VALID symbol has lost or changed its value, and `modules_val` follows `modules_sym`, which can be calculated while `modules_val` is not its value |
| `SymbolCache.Symbols.CalcSymbols` | buildroot/support/kconfig/symbol.c:357-498 | after any sequence of calls, in any order, and also with stale values left over from a change of `modules_val`, every VALID symbol holds its value in the plain recursive definition in which those symbols keep their old `modules_val` |
| `SymbolCache.Symbols.ValidIsCurrent` | buildroot/support/kconfig/symbol.c:357-498 | without such left-overs every VALID symbol is right for the present `modules_val` |
| `ModulesSwitch.ConsultedSuffices` | buildroot/support/kconfig/symbol.c:357-498 | value, limits and WRITE flag depend on nothing but the symbols that the calculation really evaluates |
| `ModulesSwitch.SwitchExact` | buildroot/support/kconfig/symbol.c:474-476 | when modules are switched on or off, values calculated from each other are still right if and only if no tristate among them is, or is limited to, `m` with modules |
| `Eras.ReachedIsLeast` | buildroot/support/kconfig/symbol.c:500-509 | what the calculation of a symbol reaches is the least set with it that is closed under what calculations evaluate |
| `MarksAfter.OnlyReached` | buildroot/support/kconfig/symbol.c:500-509 | marks set by calculating one symbol are on exactly the symbols that it reaches, according to the values before, and on the constants |
| `SymbolCache.Symbols.CalcModules` | buildroot/support/kconfig/symbol.c:500-509 | the modules symbol is calculated under the old `modules_val`, together with exactly what it reaches, and then `modules_val` is its value |
| `SymbolCache.Symbols.ClearAllValid` | buildroot/support/kconfig/symbol.c:500-509 | exactly the constants and what the modules symbol reaches under the old `modules_val` are VALID afterwards; all values are known, and the VALID ones are right for the new `modules_val` if and only if they survive, which is a condition on the state before the call |
| `MarksAfter.SurvivesExact` | buildroot/support/kconfig/symbol.c:500-509 | marks on what the modules symbol reaches are right under its value if and only if modules have not been switched on or off, or no tristate among them is, or is limited to, `m` with modules |
| `Eras.AfterIsMixed` | buildroot/support/kconfig/symbol.c:500-509 | the values afterwards are those in which everything that the modules symbol reaches keeps the old `modules_val` and everything else has the new one, whether or not the old values survive |
| `Eras.NoModWithoutModules` | buildroot/support/kconfig/symbol.c:803-825 | without modules no bool and no tristate is `m`, so no string is read by a look at the modules symbol |
| `ModulesSwitch.StaleValues` | buildroot/support/kconfig/symbol.c:474-476 | a table in which setting S switches modules on and a tristate, calculated before that, is `y` instead of `m` |
| `SymbolRuns.StaleDoesNotSurvive` | buildroot/support/kconfig/symbol.c:500-509 | in that table the tristate is reached by the modules symbol and its value does not survive |
| `SymbolRuns.StaleExample` | buildroot/support/kconfig/symbol.c:532-566 | setting S there leaves the tristate VALID with the value it does not have with modules |
| `SymbolCache.Symbols.SetTristateValue` | buildroot/support/kconfig/symbol.c:532-566 | accepted exactly when the value is the old one or within range; a new value is what calculating the symbol gives, whatever happens to `modules_val`, and the VALID values are right if and only if they survive; setting the old value leaves them right if and only if it fits |
| `MarksAfter.Unreached` | buildroot/support/kconfig/symbol.c:532-566 | what the modules symbol reaches has its old value after another symbol has been set that it does not reach |
| `MarksAfter.NewValueStays` | buildroot/support/kconfig/symbol.c:532-566 | the new value of a symbol is still its value after the modules symbol has been calculated with it and `modules_val` has followed |
| `MarksAfter.OldValueExact` | buildroot/support/kconfig/symbol.c:532-566 | setting a symbol to the value it has leaves the VALID symbols right if and only if the value fits its limits |
| `SymbolRuns.LimitedDoesNotFit` | buildroot/support/kconfig/symbol.c:532-566 | a tristate visible up to `m` with default `y` shows `y`, but as the user's value `y` does not fit |
| `SymbolRuns.LimitedExample` | buildroot/support/kconfig/symbol.c:532-566 | setting that tristate to the `y` it shows is accepted and leaves it VALID with `y`, while calculating it again gives `m` |
| `SymbolMarks.WithinRangeExact` | buildroot/support/kconfig/symbol.c:511-530 | a value is within range if and only if the user can change the symbol, the value is at most its visibility, and the symbol would show it |
| `SymbolMarks.WithinRangeFits` | buildroot/support/kconfig/symbol.c:511-530 | a value within range always fits, so only unusual old values can leave the cache stale |
| `SymbolMarks.LowerUnchanged` | buildroot/support/kconfig/symbol.c:532-566 | a new user value changes no symbol that comes before it |
| `SymbolMarks.UserValueShows` | buildroot/support/kconfig/symbol.c:357-498 | what recalculation gives a symbol after its user value has been set, from its limits alone |
| `SymbolCache.Symbols.ToggleTristateValue` | buildroot/support/kconfig/symbol.c:568-589 | within three tries it sets the next value within range, or else the old one |
| `SymbolCache.Symbols.GetStringValue` | buildroot/support/kconfig/symbol.c:803-825 | the string of the value in the solution, although the code looks at the modules symbol once more for an `m`; every VALID symbol stays as it is |
| `SymbolCache.Symbols.GetStringDefault` | buildroot/support/kconfig/symbol.c:732-801 | the default string of the plain definition, whether or not the symbol has been calculated; every VALID symbol stays as it is |
| `MinimalConfig.DefaultIsValueWithoutUser` | buildroot/support/kconfig/symbol.c:732-801 | the default string is the string the symbol would have without a user value |
| `MinimalConfig.IntValidExact` | buildroot/support/kconfig/symbol.c:598-609 | a text is accepted for an int if and only if it is a decimal numeral without zeros before it, perhaps with a minus sign |
| `MinimalConfig.HexValidExact` | buildroot/support/kconfig/symbol.c:610-618 | a text is accepted for a hex if and only if it is hexadecimal digits, perhaps behind `0x` or `0X` |
| `MinimalConfig.OneSymbolKept` | buildroot/support/kconfig/confdata.c:667-738 | under one given `modules_val` a symbol keeps its value when only the printed user values remain, if and only if it is not pinned |
| `MinimalConfig.SameModulesExact` | buildroot/support/kconfig/confdata.c:667-738 | as long as no `modules_val` changes, every symbol keeps its value if and only if no symbol is pinned |
| `SymbolCache.Symbols.ReadUser` | buildroot/support/kconfig/confdata.c:407-420 | reading user values from any state gives the values in which everything that the modules symbol reaches has the old `modules_val`, unless it survives, and everything else has the new one |
| `ReadingBack.MinimalConfigExact` | buildroot/support/kconfig/confdata.c:407-475 | keeping only the user values that would be printed, and reading them in a program that has just been started, gives every value back if and only if no symbol is pinned and, with modules, no tristate that the modules symbol reaches is `m` |
| `ReadingBack.MinimalConfigIdentity` | buildroot/support/kconfig/confdata.c:407-475 | if no tristate is `m` and no string is selected, every value comes back, with and without modules |
| `ReadingBack.LostExample` | buildroot/support/kconfig/confdata.c:407-475 | T is `m` and MODULES, `default y if !T`, is `y`: no symbol is pinned, but in a program that has just been started T comes back as `y` and MODULES as `n` |
| `MinimalConfig.PinnedExample` | buildroot/support/kconfig/confdata.c:667-738 | a tristate selected as `m` below a default `y` loses its value |
| `MinimalConfig.WriteSymbol` | buildroot/support/kconfig/confdata.c:684-720 | an entry is written if and only if its symbol has not been visited, is to be written, is changeable and differs from its default |
| `MinimalConfig.WriteDefconfig` | buildroot/support/kconfig/confdata.c:667-738 | whatever has been calculated before, the walk writes each printed symbol once, and reading its lines gives the minimal user values |
| `DependencyCheck.EdgeExact` | buildroot/support/kconfig/symbol.c:1241-1273 | the search goes from a symbol to exactly what occurs in its reverse dependency, in the condition of a property other than a choice or a select, or in the value of a default |
| `DependencyCheck.Checker.PrintRecursive` | buildroot/support/kconfig/symbol.c:1128-1200 | the chain that is printed is a cycle of the dependency graph, beginning with the given symbol |
| `DependencyCheck.Checker.CheckExprDeps` | buildroot/support/kconfig/symbol.c:1206-1238 | a result is a symbol on the stack and comes with a report; without a report everything in the expression has been explored |
| `DependencyCheck.Checker.CheckSymDeps` | buildroot/support/kconfig/symbol.c:1241-1273 | the same for everything a symbol depends on; the stack and the marks are restored |
| `DependencyCheck.Checker.CheckDeps` | buildroot/support/kconfig/symbol.c:1312-1344 | at the top level the result is always none; exploration ends because unCHECKED symbols run out |
| `DependencyCheck.Checker.CheckAll` | buildroot/support/kconfig/symbol.c:1312-1344 | checking all symbols reports something if and only if the graph of selects, prompts and defaults has a cycle, in spite of the early exits |
| `DependencyCheck.SortedHasNoCycle` | buildroot/support/kconfig/symbol.c:1241-1273 | no cycle goes through symbols in order of completion |
| `DependencyCheck.SortedIsAcyclic` | buildroot/support/kconfig/symbol.c:1241-1273 | a check without reports yields a ranking of the symbols, as the calculation of values needs it |
| `DependencyCheck.DefinitionFollowed` | buildroot/support/kconfig/symbol.c:1241-1273 | without implies, everything that the value of a symbol reads is followed by the check |
| `DependencyCheck.ImplyUnseen` | buildroot/support/kconfig/symbol.c:1253-1267 | a symbol that implies itself is a cycle for the calculation and none for the check |
| `Menus.PropagateValue` | buildroot/support/kconfig/menu.c:348-351 | a child is available as far as its parent is and its own dependency, with `m` rewritten, allows |
| `Menus.ChildPromptValue` | buildroot/support/kconfig/menu.c:348-402 | the prompt of a child is hidden if and only if its parent's dependency, its own or the prompt's condition is `n`; for a tristate it is worth the least of them |
| `Menus.ChildHiddenExact` | buildroot/support/kconfig/menu.c:334-398 | the prompt of a child is hidden if and only if its own dependency or condition is `n`, or the parent hides it: as a choice by its mode, as a menu by its prompt, and otherwise by its dependency |
| `Menus.TakenInIsDependent` | buildroot/support/kconfig/menu.c:448-488 | an entry of the submenu is shown only while the symbol is set or its prompt is not hidden, for the prompt of the entry or, if it has none, its dependency |
| `Menus.PropagateToChildren` | buildroot/support/kconfig/menu.c:342-414 | every child gets exactly the propagated dependency and prompt condition |
| `Menus.Flatten` | buildroot/support/kconfig/menu.c:539-577 | what is below a promptless entry follows it instead, with parent pointers and order of the nodes kept |
| `Menus.FlattenedFacts` | buildroot/support/kconfig/menu.c:539-577 | flattening keeps the preorder and leaves children only below entries with a prompt text |
| `Menus.Absorb` | buildroot/support/kconfig/menu.c:448-494 | the submenu takes in exactly the longest run of following entries that pass the dependency test, finalizes each and relinks them |
| `Menus.TakeInAll` | buildroot/support/kconfig/menu.c:452-488 | the loop stops at the first entry that fails the test, and all before it passed |
| `Menus.Finalize` | buildroot/support/kconfig/menu.c:296-577 | parent pointers and the preorder of all nodes are kept, every node is finalized once in that order, and conditions change only by propagation |
| `Menus.FinalizeChildren` | buildroot/support/kconfig/menu.c:419-424 | the children are finalized although finalizing one can take its siblings away |
| `Menus.CutOff` | buildroot/support/kconfig/menu.c:490-494 | the three assignments leave two well-linked lists |
| `Menus.Splice` | buildroot/support/kconfig/menu.c:567-576 | the children of an entry are moved behind it with their new parent |
| `Menus.Walk` | buildroot/support/kconfig/confdata.c:792-825 | the walk through `list`, `next` and `parent` visits exactly the preorder, each node once, and ends |
| `Menus.ClimbFrom` | buildroot/support/kconfig/confdata.c:819-824 | climbing ends at the nearest ancestor with a next sibling, or at the root |
| `Menus.FinalizeAndWalk` | buildroot/support/kconfig/menu.c:296-577 | the walk after finalizing visits the nodes in the order in which they were finalized |
| `Choices.SelectedIsShown` | buildroot/support/kconfig/symbol.c:278-334 | the selected member is visible, and one is selected if and only if some member is visible |
| `Choices.NoChoiceNoMember` | buildroot/support/kconfig/symbol.c:209-231 | while the choice is `n` no member is visible |
| `Choices.ExactlyOneMember` | buildroot/support/kconfig/symbol.c:357-498 | once the choice is `y` exactly one member is `y` and it is visible; while it is `n` none is |
| `Choices.PickedIsYes` | buildroot/support/kconfig/symbol.c:273-332 | the choice points to a member exactly when it is `y`, and exactly that member is `y` which the user has picked if it is visible, or else that of the first default that applies, or else the first visible one |
| `Choices.ModeExact` | buildroot/support/kconfig/symbol.c:405-445 | the choice can be `y` if and only if something selects it, or the user has set it and some prompt is visible |
| `Choices.RecalculationExact` | buildroot/support/kconfig/symbol.c:311-320 | calculating again gives the same value if and only if the forgotten mode was not needed |
| `Choices.RecalculationFails` | buildroot/support/kconfig/symbol.c:311-320 | an optional choice set to `y` whose only member has no user value is `y` at first and `n` when it is calculated again |
| `Choices.Choice.CalcMembersVisibility` | buildroot/support/kconfig/symbol.c:311-318 | the visibilities of all members are calculated while the choice itself is being calculated |
| `Choices.Choice.ChoiceDefault` | buildroot/support/kconfig/symbol.c:278-302 | the first applicable visible default, or the first visible member |
| `Choices.Choice.CalcChoiceValue` | buildroot/support/kconfig/symbol.c:304-334 | the member that `PickedIsYes` and `SelectedIsPicked` describe, and the mode that is forgotten if some visible member has no user value |
| `Choices.Choice.CalcChoice` | buildroot/support/kconfig/symbol.c:357-498 | value and selected member of the choice from the settings at the first calculation |
| `Choices.Choice.CalcMember` | buildroot/support/kconfig/symbol.c:395-410 | calculating a member calculates the choice first, through the visibility |
| `Choices.Choice.CalcAll` | buildroot/support/kconfig/symbol.c:357-498 | in whatever order choice and members are calculated, the values are the same |
| `ConfigLines.EscapeStringValue` | buildroot/support/kconfig/symbol.c:962-1003 | quotes around the value, and a backslash before every quote and backslash |
| `ConfigLines.EscapeRoundTrip` | buildroot/support/kconfig/confdata.c:160-175 | taking the quotes and backslashes off again gives back every string |
| `ConfigLines.MoveDown` | buildroot/support/kconfig/confdata.c:168 | everything behind the pointer moves down by one, nothing else changes |
| `ConfigLines.UnquoteInPlace` | buildroot/support/kconfig/confdata.c:160-174 | the loop over the buffer accepts exactly the terminated strings and leaves the unescaped text in place |
| `ConfigLines.ParseUnset` | buildroot/support/kconfig/confdata.c:315-323 | the `is not set` line is recognized with its name |
| `ConfigLines.ParseAssign` | buildroot/support/kconfig/confdata.c:347-357 | an assignment is split at the first `=` behind the prefix, without newline |
| `ConfigLines.ParseUnsetExact` | buildroot/support/kconfig/confdata.c:315-323 | a line takes a value back if and only if it is `#`, any character, the prefix, a name without spaces and ` is not set`, whatever follows |
| `ConfigLines.ParseAssignExact` | buildroot/support/kconfig/confdata.c:347-357 | a line gives a value if and only if it is prefix, name, `=` and the text up to the end of the line |
| `ConfigLines.ChompExact` | buildroot/support/kconfig/confdata.c:352-357 | the text ends before the first newline, and one carriage return just before that is dropped |
| `ConfigLines.LineRoundTrip` | buildroot/support/kconfig/confdata.c:487-507 | printing a value and reading the line stores exactly that value, for every type and prefix |
| `ConfigLines.FileRoundTrip` | buildroot/support/kconfig/confdata.c:312-380 | reading a whole printed file gives the values of its lines, in order |
| `ConfigLines.MinimalFileExact` | buildroot/support/kconfig/confdata.c:312-475 | reading the text of a minimal configuration in a program that has just been started gives every value back if and only if no symbol is pinned and, with modules, no tristate that the modules symbol reaches is `m` |
| `ConfigLines.WriteFile` | buildroot/support/kconfig/confdata.c:667-738 | the evaluation with its marks writes such a text, so that the same holds of its file |
| `ConfigLines.ReadFile` | buildroot/support/kconfig/confdata.c:407-429 | reading a text at the start of the program and calculating all symbols, in any order, gives the values that the two statements above speak of |
| `DeviceTree.InternNodeKeeps` | u-root/pkg/dt/fdt_linux.go:340-353 | after the walk every name of the tree has an offset at which its bytes and a NUL can be read |
| `DeviceTree.NodeSizeIsLength` | u-root/pkg/dt/fdt_linux.go:357-364 | the size calculated beforehand is the number of bytes the recursive writer emits |
| `Bytes.UpExact` | u-root/pkg/align/align.go:14-20 | adding the mask and clearing its bits gives the next multiple for every value if and only if the size is a power of two |
| `Bytes.Up4IsMasked` | u-root/pkg/cpio/newc.go:81-83 | for four the masked sum is the next multiple of four |
| `DeviceTree.NodeSizeIsAligned` | u-root/pkg/dt/fdt_linux.go:357-364 | the padded sizes are multiples of four |
| `DeviceTreeWriter.AlignWriter.Write` | u-root/pkg/uio/alignwriter.go:20-24 | the counter is the number of bytes written |
| `DeviceTreeWriter.AlignWriter.Align` | u-root/pkg/uio/alignwriter.go:28-34 | pads with zeros up to the next multiple |
| `DeviceTreeWriter.LayoutExact` | u-root/pkg/dt/fdt_linux.go:365-369 | TotalSize is the number of bytes if and only if that is below 2^32, and then the blocks lie at the announced offsets without gaps |
| `DeviceTreeWriter.FDT.CollectStrings` | u-root/pkg/dt/fdt_linux.go:340-353 | strings block and offset map in the order of the walk, each name once |
| `DeviceTreeWriter.FDT.AddSizes` | u-root/pkg/dt/fdt_linux.go:357-364 | the 32-bit sum of the sizes, whatever the order of the conversions |
| `DeviceTreeWriter.FDT.FillHeader` | u-root/pkg/dt/fdt_linux.go:355-369 | sizes and offsets of the header |
| `DeviceTreeWriter.FDT.WriteNode` | u-root/pkg/dt/fdt_linux.go:392-431 | the structure block of a node, aligned throughout |
| `DeviceTreeWriter.FDT.WriteFirst` | u-root/pkg/dt/fdt_linux.go:372-386 | header, padding, reserved memory and its terminator |
| `DeviceTreeWriter.FDT.Write` | u-root/pkg/dt/fdt_linux.go:338-442 | fills in the header and returns all blocks and their number of bytes |
| `DeviceTreeReader.AlignReader.ReadFull` | u-root/pkg/uio/alignreader.go:19-31 | the next bytes, or failure at the end |
| `DeviceTreeReader.AlignReader.Align` | u-root/pkg/uio/alignreader.go:34-41 | skips to the next multiple, or fails at the end |
| `DeviceTreeReader.AlignReader.ReadName` | u-root/pkg/dt/fdt_linux.go:255-264 | the bytes up to the first NUL, each turned into UTF-8 |
| `DeviceTreeReader.Reader.ReadHeader` | u-root/pkg/dt/fdt_linux.go:133-156 | the header or the first check that fails |
| `DeviceTreeReader.Reader.ReadMemoryReservationBlock` | u-root/pkg/dt/fdt_linux.go:158-183 | the entries up to the first all-zero one, or the first check that fails |
| `DeviceTreeReader.Reader.Push` | u-root/pkg/dt/fdt_linux.go:239-253 | a new node becomes root or child of the node below it on the stack |
| `DeviceTreeReader.Reader.TakeProp` | u-root/pkg/dt/fdt_linux.go:274-303 | a property with all its checks, added to the node on top of the stack |
| `DeviceTreeReader.Reader.ReadStructBlock` | u-root/pkg/dt/fdt_linux.go:211-334 | the token loop over linked objects does what the run over records does, error by error (`DeviceTreeFormat.RunExact`, `NopChangesNothing`) |
| `DeviceTreeReader.Reader.ReadFDT` | u-root/pkg/dt/fdt_linux.go:112-131 | fails exactly when and as the contents say, or leaves header, entries and linked nodes in the fields |
| `DeviceTreeReader.AcceptedIsTree` | u-root/pkg/dt/fdt_linux.go:211-334 | whatever the bytes are, the nodes of an accepted file form one tree: every node but the root is a child exactly once |
| `DeviceTreeFormat.RunExact` | u-root/pkg/dt/fdt_linux.go:211-334 | a structure block is accepted if and only if it consists of written tokens that may stand where they are, the last of them FDT_END at the announced size, and the nodes are those the tokens give |
| `DeviceTreeFormat.FileExact` | u-root/pkg/dt/fdt_linux.go:112-131 | a file is accepted, with given contents, if and only if header, reserved memory and structure block are written as the format says and the header passes its checks |
| `DeviceTreeRoundTrip.RunNode` | u-root/pkg/dt/fdt_linux.go:236-305 | reading the bytes of a node adds exactly that node to the tree, whatever is around it |
| `DeviceTreeRoundTrip.FlatIsTree` | u-root/pkg/dt/fdt_linux.go:236-305 | the allocated records stand for the tree that was written |
| `DeviceTreeRoundTrip.EntriesReadBack` | u-root/pkg/dt/fdt_linux.go:170-182 | the entries that come back are those before the first all-zero one |
| `DeviceTreeRoundTrip.LayoutReadBack` | u-root/pkg/dt/fdt_linux.go:188-198 | the offsets the writer announces pass the reader's check, whichever entries come back |
| `DeviceTreeRoundTrip.BlocksReadBack` | u-root/pkg/dt/fdt_linux.go:200-211 | the strings block and the nodes at the announced offsets come back |
| `DeviceTreeRoundTrip.ReadBackExact` | u-root/pkg/dt/fdt_linux.go:112-131 | a file below 4 GiB is read back if and only if its magic, version and size are acceptable and the tree has a property |
| `DeviceTreeRoundTrip.TreeExact` | u-root/pkg/dt/fdt_linux.go:262 | the tree that comes back is the one written if and only if node names are ASCII and property names have no NUL |
| `DeviceTreeRoundTrip.RoundTripExact` | u-root/pkg/dt/fdt_linux.go:338-442 | writing and reading gives the same header; the same entries if and only if none is all zero; the same tree if and only if its names are plain |
| `DeviceTreeNops.NopChangesNothing` | u-root/pkg/dt/fdt_linux.go:305 | one more FDT_NOP where the loop reads a token does not change what is read of any block, errors included |
| `DeviceTreeNops.NopsChangeNothing` | u-root/pkg/dt/fdt_linux.go:305 | the same for any number of them, one after the other |
| `DeviceTreeNops.RoundTripWithNops` | u-root/pkg/dt/fdt_linux.go:211-334 | a file that was written and has got FDT_NOP tokens in its structure block, with sizes and offsets to match, is read like the original |
| `ModuleLoader.ChainsGoBack` | u-root/pkg/kmodule/kmodule_linux.go:247-274 | a chain of dependencies from a loaded module goes backwards in the log, so that it meets no obstacle |
| `ModuleLoader.Modules.LoadDeps` | u-root/pkg/kmodule/kmodule_linux.go:247-274 | afterwards the module is there with the same modules open, or there is an obstacle on a real chain; ends because unloaded modules run out |
| `ModuleLoader.Modules.LoadAll` | u-root/pkg/kmodule/kmodule_linux.go:261-265 | the same for all dependencies of an open module |
| `ModuleLoader.Modules.Finish` | u-root/pkg/kmodule/kmodule_linux.go:267-273 | the log stays in order and the state becomes loaded |
| `ModuleLoader.Modules.Probe` | u-root/pkg/kmodule/kmodule_linux.go:119-143 | succeeds if and only if no chain from the module meets an unknown, circular or refused module; then the log has no duplicates, is deps first and ends with the module, which stays `loading` |
| `SendRequests.StepKeeps` | u-root/pkg/dhclient/dhclient.go:319-360 | every step of every goroutine keeps the invariant |
| `SendRequests.RoomToSend` | u-root/pkg/dhclient/dhclient.go:321 | at a send the channel is open and has room, even if nobody receives |
| `SendRequests.NoPanicAhead` | u-root/pkg/dhclient/dhclient.go:325-358 | every `wg.Done` finds a positive counter, and the channel is closed only once |
| `SendRequests.AlwaysSafe` | u-root/pkg/dhclient/dhclient.go:319-360 | in every interleaving the counter is the number of unfinished workers, nothing panics, and no send blocks |
| `SendRequests.ClosedMeansComplete` | u-root/pkg/dhclient/dhclient.go:355-358 | at the close the channel has got exactly one result for each requested protocol of each interface that came up |
| `SendRequests.ResultsAreOutcomes` | u-root/pkg/dhclient/dhclient.go:335-352 | every result in the channel is what the request for its interface and protocol came to in some step of the run |
| `SendRequests.NeverStuck` | u-root/pkg/dhclient/dhclient.go:319-360 | until the close some goroutine can take a step, without any receive |
| `SendRequests.RunsEnd` | u-root/pkg/dhclient/dhclient.go:319-360 | no run has more than 17 steps for each interface and four more, apart from receives |
| `Cpio.HexRoundTrip` | u-root/pkg/cpio/newc.go:135-137 | decoding the capital hexadecimal digits gives the bytes back |
| `Cpio.FromHexExact` | u-root/pkg/cpio/newc.go:278-293 | decoding accepts exactly hexadecimal digits, with letters in either case, and gives the bytes they spell |
| `Cpio.HeaderReadBack` | u-root/pkg/cpio/newc.go:24-38 | the thirteen fields come back |
| `Cpio.Writer.Pad` | u-root/pkg/cpio/newc.go:105-113 | pads with zeros to the next multiple of four |
| `Cpio.Writer.WriteRecord` | u-root/pkg/cpio/newc.go:117-177 | an aligned record, or failure if and only if the content has not the announced size |
| `Cpio.DedupExact` | u-root/pkg/cpio/utils.go:119-127 | exactly the first record of each normalized name is kept, in the order of the records |
| `Cpio.DedupWriter.WriteRecord` | u-root/pkg/cpio/utils.go:119-127 | the archive holds the first record of each normalized name |
| `Cpio.DedupWriter.WriteRecords` | u-root/pkg/cpio/utils.go:130-137 | all records are written, up to the first failure |
| `Cpio.DedupWriter.WriteArchive` | u-root/pkg/cpio/utils.go:154-157 | records and trailer |
| `Cpio.Reader.Read` | u-root/pkg/cpio/newc.go:252-265 | the bytes at the position, or EOF if fewer are left |
| `Cpio.Reader.ReadRecord` | u-root/pkg/cpio/newc.go:274-320 | the record, its place and the aligned position of the next one, or the first failure |
| `Cpio.Reader.ReadAllRecords` | u-root/pkg/cpio/utils.go:174-200 | the records up to EOF or the trailer |
| `Cpio.ReadGoesOn` | u-root/pkg/cpio/newc.go:274-320 | a record that is read leads on, and content and next record are at multiples of four |
| `Cpio.ReadAtExact` | u-root/pkg/cpio/newc.go:274-300 | a record is read exactly where the magic number, hexadecimal digits and the announced bytes of the name are, and otherwise the first of them that is missing decides the error |
| `Cpio.ReadOne` | u-root/pkg/cpio/newc.go:274-320 | reading a written record at an aligned position gives it back with its content at an aligned position |
| `Cpio.ArchiveRoundTrip` | u-root/pkg/cpio/utils.go:82-157 | reading an archive gives the first record of each normalized name, in order, up to one named like the trailer |
| `Cpio.PlainRoundTrip` | u-root/pkg/cpio/utils.go:82-157 | records with distinct normalized names all come back in order, unchanged if and only if each has 32-bit numbers, no Dev and some content |
| `Cpio.PassthroughIsIdentity` | u-root/pkg/cpio/utils.go:139-152 | reading an archive and writing it again gives the same bytes |
| `Cpio.TruncationIsSilent` | u-root/pkg/cpio/newc.go:252-265 | an archive cut off anywhere is read without an error as a beginning of the original |
| `CommandLine.Split` | u-root/pkg/cmdline/cmdline.go:80-97 | the quote-state scanner yields the fields of the plain definition |
| `CommandLine.QuotedText` | u-root/pkg/cmdline/cmdline.go:80-97 | a quoted text stays in one field up to the same quote, whatever spaces and other quotes are in it |
| `CommandLine.OpenQuote` | u-root/pkg/cmdline/cmdline.go:80-97 | a quote that is not closed takes in the rest of the line |
| `CommandLine.PlainCharacter` | u-root/pkg/cmdline/cmdline.go:80-97 | outside quotes a space ends the field, and any other character belongs to it |
| `CommandLine.FieldsAreWell` | u-root/pkg/cmdline/cmdline.go:80-97 | fields are not empty, have no separator inside, and only the last one can have an open quote |
| `CommandLine.JoinThenSplit` | u-root/pkg/cmdline/filters.go:13-37 | joining such fields with spaces and splitting again gives them back |
| `CommandLine.ParseToMap` | u-root/pkg/cmdline/cmdline.go:124-134 | the map after all flags, both forms of each key, later flags winning |
| `CommandLine.KeyAndValue` | u-root/pkg/cmdline/cmdline.go:102-114 | a flag is its key, an equals sign and its value, where the key has no equals sign, or a key alone with the value 1 |
| `CommandLine.AsciiCharacters` | u-root/pkg/cmdline/cmdline.go:84-100 | among the ASCII characters exactly the two quotes quote, and exactly the usual spaces separate |
| `CommandLine.TrimExact` | u-root/pkg/cmdline/cmdline.go:116 | quotes are taken off both ends of a value until none is there, and nothing else |
| `CommandLine.CanonicalExact` | u-root/pkg/cmdline/cmdline.go:115 | dashes become underscores and nothing else changes |
| `CommandLine.FlagIsLast` | u-root/pkg/cmdline/cmdline.go:124-134 | a variable has the unquoted value of the last flag that sets it, under its own name or with underscores |
| `CommandLine.RemoveFilter` | u-root/pkg/cmdline/filters.go:13-37 | rewrites the variables in place and joins the flags that are not listed |
| `CommandLine.FilterExact` | u-root/pkg/cmdline/filters.go:13-37 | parsing the output gives exactly the flags that are not listed, in order, and filtering again changes nothing |
| `CommandLine.FilteredFlags` | u-root/pkg/cmdline/cmdline.go:144-149 | after filtering a listed variable is not found, and any other has the value it had |

## Left out

- Expressions are values: `expr.c` rewrites nodes in place and frees them, and saves and restores the global `trans_count`; what is not captured is the sharing and freeing of nodes.  The test for the same leaf is equality of positions, and the loop of `expr_eliminate_dups` is a method over a variable.
- Operands.EqualExact: stated without `y` and `n` as operands; with them it fails (`ConstantsBreakOrder`), and what remains is `EqualInOrder`.
- Operands.EliminateEqExact: stated without such operands.
- Operands.UsedUpExact: stated without such operands.
- Joining.JoinAndKeepsValue: stated for constants that are letters or apart from them; for the one rule that needs it the exact condition is `JoinEqualUnequalExact`.
- Duplicates.Dups1KeepsValue: stated for the same constants, as `NumbersBreakDups` shows it must be.
- Duplicates.DupsKeepsValue: stated for the same constants.
- Duplicates.DupsLeavesNoDuplicates: an operand that occurs again with its own operands in another order is excluded only without `y` and `n` in them; in the same order it is always excluded.
- Joining.JoinKeepsPlain and similar closure lemmas have no row; they only carry that condition along.
- Transforming.TransformKeepsValue: excludes ordered comparisons that can reach `Cannot compare`; the exact condition is `NegatedCompExact`.
- Submenus.TransCompareIsTest: excludes negated parts that are `m` and symbols that do not show whether they are `n`; the exact conditions are `NegationTestExact` and `ConditionTestExact`.
- Submenus.SupersetIsVisibleWithParent: excludes negated parts that are `m`, symbols without a definition (or of a textual type) that one of the two dependencies uses alone while one of them compares it, where the claim fails (`UndefinedIsVisibleAlone`), and text constants used as conditions.
- Submenus.AbsorbedIsDependent: has the same conditions.
- ReadingBack.MinimalConfigIdentity: the condition is sufficient; the exact one is in `MinimalConfigExact`.
- ReadingBack.MinimalConfigExact: speaks of a program that has just been started.  Reading in a running program, where modules may be on, is `SymbolCache.Symbols.ReadUser`, without a statement about which values come back.
- SymbolCache.Symbols.ReadUser: after all values have been calculated `conf_read` drops the user values of invisible symbols, if nothing has changed, and of strings out of range; this is not modelled.
- MinimalConfig.WriteSymbol: choice values are skipped by a rule of their own in `conf_write_defconfig`, which is not modelled.
- MinimalConfig.WriteDefconfig: starts with any marks, but where `modules_val` is the value of the modules symbol; the entries come as a sequence, in the order of `Menus.Walk`; choice values and `menu_is_visible` are not modelled.
- SymbolCache.Symbols.SetTristateValue: starts where no stale values are left; what it leaves can be calculated on with `CalcSymbols`, but setting a further value is not modelled then.  Choice values, whose choice is set along with them, are not modelled.
- SymbolCache.Symbols.ToggleTristateValue: starts where no stale values are left.
- SymbolCache.Symbols.CalcValue: a symbol that reads the modules symbol is calculated only where `modules_val` is the value of that symbol.
- SymbolCache.Symbols.CalcExpr: `sym_get_string_value` calculates the modules symbol for an `m` and gives "n" if that is `n`.  From outside this is `GetStringValue`; inside a comparison it is not modelled, a string is the letter of the value there.  The call makes a difference while the modules symbol is being calculated itself, since it is VALID with a provisional `n` then, and for an `m` that is left over after modules have been switched off.  So what is said about clearing the marks when modules were on before (`ClearAllValid`, `SurvivesExact`, `SetTristateValue`) excludes comparisons of tristates that are `m` and are reached by the modules symbol.  When modules were off before, as in reading at the start of the program, there is no such `m` (`Eras.NoModWithoutModules`).
- Symbols: ranges (`sym_validate_range`), SYMBOL_AUTO, environment symbols, SYMBOL_NEED_SET_CHOICE_VALUES, change counters and warnings.
- Choices.Choice.CalcChoice: bool choices only.
- Choices: a condition that depends on a member of the choice, which `sym_check_choice_deps` reports as a recursive dependency, tristate choices, members with selects, implies or defaults of their own, and nested choices.
- DependencyCheck.Checker.PrintRecursive: the text of the lines and the handling of choices.
- DependencyCheck.Checker.CheckDeps: the branches for choices and choice values.
- DependencyCheck: choices, range properties, and the lines printed for each link of a chain.
- Menus.Finalize: the types of choice values, the list of a choice's members, the reverse and implied dependencies that selects and implies add, the direct dependency of symbols, and the comparison added for members of tristate choices.
- Menus.PropagateToChildren: a menu has one prompt, given by its condition; defaults, selects and implies of its symbol are not modelled.
- ConfigLines: a line is parsed as a value, while the C code cuts the buffer into pieces by NULs; the loop that removes backslashes is modelled in place.  Comments, S_OTHER symbols of the automatic configuration and override warnings are left out.
- The Kconfig grammar, all front ends, regular expression search, help texts, autoconf files and random configurations.
- DeviceTree: nodes given to the writer are values, so shared or cyclic nodes are not modelled; the reader builds linked objects.  Reading from a file that is not a `bytes.Reader`, where a read of zero bytes at the end succeeds, is not modelled.
- DeviceTreeFormat.FileExact: which of several errors a rejected file gets is said by the reader's definition alone.
- DeviceTree: typed access to properties, searching, and loading from sysfs.
- ModuleLoader: reading modules.dep, modules.builtin and /proc/modules, finding a module by name, decompression and system calls.
- SendRequests: packets, links and timeouts are outcomes of a step; fairness of the scheduler and the Go memory model are not part of it.
- Cpio: reading from pipes, creating files, and the cleaning of paths, which is a given function.
- CommandLine: invalid UTF-8, reading /proc/cmdline, and the options that the update filter appends.
- The rest of buildroot and u-root: build scripts, drivers, network boot, ACPI, IPMI, EFI, flash, TPM and crypto, gzip and the commands.
