# Verified model of the Kconfig engine and three host tools

This project models the configuration engine in `scripts/config` and the host tools `sstrip`, `padjffs2`
and `zyimage`, and proves what they promise. `dafny verify dfyconfig.toml` checks everything.

## What is modelled

**Expressions** (`exprs`, `numbers`, `transform`, `equality`, `shapes`, `dups`, `dupsfree`, `compare`). A dependency
expression is a tree over symbols with AND, OR, NOT and comparisons; its value is no, mod or yes, and comparisons
order numbers as numbers and other strings by their first difference. Every rewriter of `scripts/config/expr.c` is
given as a function on trees and proved to keep the value: the comparison by cancelling operands is sound and
reflexive, and decides whether two expressions are the same up to the order and grouping of operands; the negation
pass keeps the value, is idempotent and ends; and the removal of duplicates keeps the value, never grows a tree,
ends, with all its aliasing slots and nested passes, and leaves no duplicate.

**Expressions in memory** (`nodes`, `slots`, `rewriters`). The same rewriters on nodes that are changed in
place: a class with cells and pointers, and with the counter `trans_count`. A `struct expr **` argument is a
field of a node or the variable that holds the tree; the two arguments of `expr_eliminate_dups1` may be the same
or lie inside one another. Each method leaves, at the pointer it returns, the tree the function computes, made of
cells of the old tree and new ones, and changes no other cell.

**The evaluator** (`symbols`, `symprops`, `values`, `symtab`). The value of a symbol is defined by recursion along a
ranking of the dependencies; the class `SymTab` is the memoising evaluator with its flags and cached fields,
choices included. After any calls in any order each valid symbol holds its defined value. What these values are is
said property by property: which prompts make a symbol visible, which default gives its value, which member a
choice takes. On top of that:
selected symbols have their dependencies met, a choice that is yes has exactly one member that is yes, and
accepted changes take effect, except where a choice has forgotten the user, for which the exact condition is given.

**The dependency check** (`depcheck`). The depth-first search with its stack and flags reports a recursive
dependency if and only if there is one, and a silent sweep yields the ranking that the evaluator needs.

**Menus** (`menus`, `menulinks`, `menudeps`, `submenus`, `menuvis`). `menu_finalize` as a function on the tree of entries
and as the in-place pass over next, list and parent pointers. It is called once on each entry, keeps document
order, leaves all pointers right, dissolves just the submenus of entries without a prompt, gives a symbol the
following entries that depend on it, pushes each limit down exactly once and to the original subentries, and bounds
the visibility of every property, as it is left, by all enclosing dependencies up to the nearest choice.

**Configuration files** (`escape`, `confdata`, `conflines`, `conffile`). Quoting and unquoting of strings in
buffers; the minimal and the full configuration file, reading them back with the clean-up that `conf_read` does,
for both the exact condition under which no value is lost, and that no line of the minimal one is superfluous.

**Host tools** (`octets`). `sstrip` (`elf`, `sstrip`): the loaded image is kept. `padjffs2` (`padimage`): a mark at each
alignment asked for, exactly when that is within 32 bits. `zyimage` (`crc`): the table-driven checksum is the
bit-at-a-time one, and that is the known CRC-32.

Automatic induction is switched off in every lemma, so that each proof by induction is spelled out.

## Assumptions, and where the code does not do what it says

- Constant symbols are interned, so a constant is its name. Expressions contain no E_LIST, E_RANGE or E_NONE.
- Rewriting is judged on settled values: a boolean is never mod, and without modules nothing is. The evaluator
  establishes that (`SymbolProperties.DenotationSettled`).
- Order comparisons with a symbol of type S_OTHER are "no" both for `<=` and for `>`. Negation therefore keeps
  its value exactly when the two sides can be compared: `Transforms.OppositeExact`, with an input in
  `Transforms.OppositeFails`.
- `expr_trans_bool` under a negation over a mod comparison changes "not no": `Compares.TransBoolUnderNot`.
  `expr_trans_compare` is wrong for a negation over something that is mod: `Compares.TransCompareNot`.
- In `dir_dep` an entry without a dependency counts for nothing, as `expr_alloc_or` takes a missing expression for
  the neutral one: a symbol with such an entry and another that has a dependency can be visible while its `dir_dep`
  is not met. `MenuVisibility.EntriesMeetDeps` has the exact condition, `MenuVisibility.BareExample` a menu.
- A new value that `sym_tristate_within_range` refuses would not take effect either, with one exception: a symbol
  not visible beyond what selects it would fall from its default to that: `SymbolValues.RefusedExactly`.
- The minimal configuration loses a boolean or tristate value in one case: a tristate symbol visible as m, selected
  as m, with its dependencies met, a user value, and default y (a table is in `Confdata.ForgottenExample`); and a
  string or number that is not its default only where that is selected or not valid. `Confdata.MinimalConfigLossless`
  shows that there are no other cases. That visibility implies the dependencies is not needed. It has a superfluous
  line in one case: for a symbol that is selected with its dependencies unmet (`ConfLines.MinimalConfigMinimal`).
- `sym_check_deps` returns a symbol only to calls on its own stack: at the top level it returns NULL on every
  table without choices even when it has printed a recursion, so the parser counts no error
  (`DepChecks.DepChecker.Sweep`).
- The full configuration loses a value exactly when a default has given a visible symbol more than its prompt and
  its selectors do, or a number that is neither its default nor valid: `Confdata.FullConfigLossless`, with a table in
  `Confdata.OverriddenExample` whose minimal configuration loses nothing. Storing such a value again with
  `sym_set_tristate_value` makes it wrong at the next recomputation: `SymbolProperties.UnchangedExactly`.
- `sym_calc_choice` drops the user flag of a choice when a visible member has none, so an accepted change of
  something that depends on that choice may not take effect: `SymbolProperties.WaveringExample`. The values that
  the change turns on stay as they were if and only if no choice among them wavers, that is, is yes without its
  flag although its selectors and dependencies do not make it yes (`SymTabs.SymTab.SetIsFelt`); then the change
  takes effect. For a symbol that depends on one choice value alone that is exact (`SymTabs.SymTab.DependentExactly`).
- `modules_val` is taken as a constant of the table: contracts that clear the values ask that modules_sym has that
  value before and after.
- `sstrip` and `padjffs2` are modelled with an unsigned long, an off_t and an ssize_t of 64 bits.
- `sstrip` reads the program header table right after the ELF header but writes it to e_phoff. The image is
  kept when the two are the same (`Sstrip.Genuine`); `Sstrip.MisplacedLosesImage` has a file that is ruined. An
  e_phoff beyond all file offsets is noticed only after the ELF header has been written.
- `truncatezeros` would not end on a file that starts with a lone non-zero byte followed by zeros; the magic
  number rules that out, and the termination proof uses it.
- `padjffs2` computes alignments with a 32-bit mask. Its result is right if and only if no alignment asked for
  lies beyond 4 GiB, except where the file already has it: `PadImages.LargeImagesFail` gives lengths that fail.

## Model

| member | source | states |
|---|---|---|
| Transforms.TransformMeaning | scripts/config/expr.c:594-749 | expr_transform keeps the value of every expression over settled symbols with comparable order comparisons |
| Transforms.TransformNormal | scripts/config/expr.c:594-749 | its result has NOT only over symbols other than y, m and n, and no boolean compared with y, m or n |
| Transforms.NormalFixed | scripts/config/expr.c:594-749 | it leaves an expression alone if and only if that is in this form |
| Transforms.TransformIdempotent | scripts/config/expr.c:594-749 | applying it twice is applying it once |
| Transforms.DeMorganLighter | scripts/config/expr.c:694-711 | the De Morgan step lowers a weight the whole pass never raises, although it adds a node: the pass ends |
| Transforms.TransformSyms | scripts/config/expr.c:594-749 | no symbol appears that was not there, save y, m and n |
| Transforms.OppositeExact | scripts/config/expr.c:678-693 | turning a negated order comparison round keeps the value if and only if the two symbols can be compared |
| Transforms.OppositeFails | scripts/config/expr.c:967-971 | an S_OTHER symbol against a number on which it does not |
| Equality.EqualSound | scripts/config/expr.c:200-244 | expressions that expr_eq equates have the same value under every valuation |
| Equality.EqualReflexive | scripts/config/expr.c:200-244 | expr_eq finds every expression equal to itself, although it cancels operands greedily |
| Equality.CancelMeaning | scripts/config/expr.c:141-173 | __expr_eliminate_eq takes one common value off both expressions |
| Equality.EliminateEqReflects | scripts/config/expr.c:175-195 | what is left of two expressions orders the originals, in both directions |
| Equality.EliminateEqImplies | scripts/config/expr.c:175-195 | if the second is reduced to yes, it was implied by the first |
| Equality.EliminateYnMeaning | scripts/config/expr.c:246-327 | folding constants keeps the value |
| Equality.EliminateYnShrinks | scripts/config/expr.c:246-327 | it never grows a tree, and shrinks one with a neutral constant directly under its operator |
| Equality.OperandMeetsItself | scripts/config/expr.c:141-173 | while an expression is cancelled against itself, the k-th operand meets its own copy before any other |
| Shapes.EqualExactly | scripts/config/expr.c:200-244 | expr_eq equates two expressions without the constants y and n if and only if they are the same up to the order and the grouping of the operands of AND and OR, at all depths |
| Shapes.CancelLive | scripts/config/expr.c:141-173 | __expr_eliminate_eq takes from each side what the other has, operand for operand, and no more |
| Shapes.EliminateYnFolded | scripts/config/expr.c:246-327 | folding leaves no operand of an AND or OR that is y or n, and changes nothing if there is none |
| Dups.JoinMeaning | scripts/config/expr.c:361-517 | every join of two operands has the value of their OR or AND, over settled symbols |
| Dups.JoinShape | scripts/config/expr.c:361-517 | a join is smaller than its two operands together and no new operator node |
| Dups.ConstTests | scripts/config/expr.c:389-407 | comparing a settled boolean or tristate with y, m or n tests its value |
| Dups.PassKeeps | scripts/config/expr.c:519-569 | expr_eliminate_dups1, whatever its two slots, keeps the value and the shape of negations; if it counted a change a neutral constant is left directly under its operator, and if it counted none the tree is the same |
| Dups.PassTwoSteps | scripts/config/expr.c:538-569 | on two operands it is the nested pass on the first, then the join, with the counts added |
| Dups.EliminateDupsMeaning | scripts/config/expr.c:571-592 | expr_eliminate_dups keeps the value over settled symbols |
| Dups.EliminateDupsSize | scripts/config/expr.c:571-592 | it never grows a tree |
| Dups.EliminateDupsFixed | scripts/config/expr.c:571-592 | applying it to its result changes nothing |
| DupsFree.EliminateDupsFree | scripts/config/expr.c:361-592 | in the result no two operands of an AND or OR are the same or equated by expr_eq, and none are two tests of one symbol that could be said in one; and so it is inside each operand that is an AND or OR |
| DupsFree.FixedExactly | scripts/config/expr.c:519-592 | expr_eliminate_dups leaves an expression alone if and only if it has no such duplicates |
| DupsFree.JoinExactly | scripts/config/expr.c:361-517 | two operands are joined if and only if expr_eq equates them or they are one of the pairs of tests, in either order |
| Dups.EliminateDupsNegations | scripts/config/expr.c:571-592 | it puts no negation over anything but a symbol |
| Compares.TransBoolMeaning | scripts/config/expr.c:332-356 | on expressions negated only at symbols expr_trans_bool keeps "not no" and raises no value |
| Compares.TransBoolUnderNot | scripts/config/expr.c:332-356 | under a negation it keeps "not no" if and only if the symbol is not mod |
| Compares.TransBoolExactly | scripts/config/expr.c:332-356 | no test that a tristate is not n is left, and an expression without one is not changed |
| Compares.TransCompareMeaning | scripts/config/expr.c:808-869 | comparing with n or y tests for that, where symbols are y, m, n or settled boolean or tristate ones and no negated part is mod |
| Compares.TransCompareMod | scripts/config/expr.c:808-869 | comparing a symbol or a comparison with m tests for m; a negation that is not m gets the opposite answer, and AND and OR come back as they were |
| Compares.TransCompareNot | scripts/config/expr.c:839-840 | for a negation the test is right if and only if the operand is not mod |
| Compares.NotNoMeaning | scripts/config/menu.c:352-353 | the form in which menu_finalize compares conditions is y or n, as the condition is not no or no |
| Compares.DependsMeaning | scripts/config/expr.c:779-806 | what depends on a symbol is no whenever the symbol is |
| Compares.DependsExactly | scripts/config/expr.c:779-806 | an expression depends on a symbol if and only if an operand of its topmost AND is the symbol, or a test that it is y or m or not n |
| Numbers.NumbersCompare | scripts/config/expr.c:881-1000 | two symbols that are numbers of the range of their C types, as decimal, hexadecimal or octal numerals as their types allow, compare as these numbers, in all six relations; beside a hexadecimal one a negative number counts 2^64 more |
| Numbers.LargeNumbersCompare | scripts/config/expr.c:881-1000 | where one number is beyond that range the two compare by their first difference as strings |
| Numbers.StringsCompare | scripts/config/expr.c:881-1000 | two strings, or symbols one of which is boolean, tristate or no number, compare by their first difference |
| Exprs.TriCompareConst | scripts/config/expr.c:917-995 | comparing a settled symbol with y, m or n as strings compares tristate values |
| Exprs.EvalAgree | scripts/config/expr.c:917-995 | the value of an expression depends only on the symbols in it |
| Nodes.TreeFrame | scripts/config/expr.h:42-45 | a tree is not disturbed by changes to cells outside it |
| Nodes.DeMorganInPlace | scripts/config/expr.c:694-711 | the in-place De Morgan step re-uses the operator node as the left negation and leaves a proper tree |
| Nodes.CopyUp | scripts/config/expr.c:262-267 | overwriting a node with a copy of its operand leaves a proper tree for the operand |
| Nodes.RunOfTwo | scripts/config/expr.c:143-147 | working through both operands of one tree together with another tree keeps the two apart |
| Slots.Stored | scripts/config/expr.c:548-551 | storing a tree through an operand slot changes just that operand, and moves no operator node of the run |
| Slots.Within | scripts/config/expr.c:538-543 | work below an operand slot is the same work on the whole tree, and moves no operator node of the run |
| Slots.SlotsDiffer | scripts/config/expr.c:535-536 | two operand slots hold the same node if and only if they are the same slot, so the pointer test is right |
| Rewriters.Arena.TransBoolAt | scripts/config/expr.c:332-356 | expr_trans_bool in place leaves the tree of TransBool, in the old cells |
| Rewriters.Arena.EliminateYnAt | scripts/config/expr.c:246-327 | expr_eliminate_yn in place leaves the tree of EliminateYn at the same node |
| Rewriters.Arena.TransformAt | scripts/config/expr.c:594-749 | expr_transform in place leaves the tree of Transform at the node it returns, and changes no cell outside the old tree |
| Rewriters.Arena.TransformNotAt | scripts/config/expr.c:660-744 | the same for a negation whose operand has been transformed |
| Rewriters.Arena.CopyAt | scripts/config/expr.c:65-104 | a copy is made of new cells and stands for the same expression; no old cell changes |
| Rewriters.Arena.EqualAt | scripts/config/expr.c:200-244 | expr_eq decides Equal; no old cell changes and trans_count is put back |
| Rewriters.Arena.EliminateEqAt | scripts/config/expr.c:175-195 | two separate trees become the two results of EliminateEq, still separate |
| Rewriters.Arena.CancelAt | scripts/config/expr.c:141-173 | the same for __expr_eliminate_eq and Cancel |
| Rewriters.Arena.JoinAt | scripts/config/expr.c:361-517 | the joiners return a new tree for the join, or nothing if there is none; no old cell changes |
| Rewriters.Arena.PassAt | scripts/config/expr.c:519-569 | expr_eliminate_dups1 through slots that may alias or nest leaves the tree of Pass and adds its count to trans_count |
| Rewriters.Arena.JoinOperands | scripts/config/expr.c:545-566 | a join stores a neutral constant through the first slot and the joined tree through the second |
| Rewriters.Arena.EliminateDupsAt | scripts/config/expr.c:571-592 | the loop driven by trans_count ends with the tree of EliminateDups and the old trans_count |
| Symbols.DenotationSolves | scripts/config/symbol.c:327-466 | the recursively defined values satisfy the equations of all symbols |
| Symbols.DenotationUnique | scripts/config/symbol.c:327-466 | on an acyclic table they are the only values that do |
| Symbols.SolutionsAgree | scripts/config/symbol.c:327-466 | changing user values changes no symbol ranked below the changes |
| Symbols.StepAgrees | scripts/config/symbol.c:209-261 | a value depends only on the user's choice and the symbols in prompts, defaults and dependencies |
| SymbolProperties.DenotationSettled | scripts/config/symbol.c:376-412 | computed values are settled: booleans never mod, nothing mod without modules |
| SymbolProperties.SelectedMeetsDeps | scripts/config/symbol.c:376-412 | if prompts and defaults in force imply dir_dep, a symbol that is set has its dependencies met, and with them met it is at least what selects it |
| SymbolProperties.AcceptedTakesEffect | scripts/config/symbol.c:479-496 | a value in range becomes the symbol's value if visibility implies the dependencies and all that it is computed from keeps its value |
| SymbolProperties.ModuleTakesEffect | scripts/config/symbol.c:351-412 | a value in range becomes the value of a choice value visible as m |
| SymbolProperties.ChoiceTakesEffect | scripts/config/symbol.c:351-437 | a value in range becomes the value of a choice, but for y exactly if it has a visible member |
| SymbolProperties.ReachedSameExactly | scripts/config/symbol.c:327-466 | everything a symbol depends on keeps its value under a change of user values if and only if none of them, taken alone, feels the change |
| SymbolProperties.DropFelt | scripts/config/symbol.c:295-307 | a choice that drops its user flag was yes; the drop is not felt if and only if it is yes by selectors and dependencies alone |
| SymbolProperties.WaveringExample | scripts/config/symbol.c:295-307 | an accepted change that does not take effect: the symbol depends on a choice value, which is new and makes the choice drop its flag |
| SymbolProperties.UnchangedExactly | scripts/config/symbol.c:498-532 | storing the value a symbol has leaves all values right if and only if it is not above what the symbol is visible or selected as |
| SymbolProperties.ChoiceExclusive | scripts/config/symbol.c:295-325 | a yes choice has exactly one yes member, visible and the choice's own; a mod choice has none; a choice that would be yes is no exactly when no member is visible |
| SymbolProperties.PickIsVisibleMember | scripts/config/symbol.c:269-325 | a visible member is picked whenever there is one |
| SymbolProperties.SwitchTakesEffect | scripts/config/symbol.c:509-526 | making a visible member of a yes choice the user's makes it the only yes member |
| SymbolValues.ConnectivesExactly | scripts/config/expr.h:47-49 | with n, m and y as 0, 1 and 2, AND is the minimum, OR the maximum and NOT the difference from 2 |
| SymbolValues.VisibleExactly | scripts/config/symbol.c:209-241 | a symbol is visible as y or m exactly as one of its prompts shows it so, but for prompts at m of tristate choice values whose choice is y; m is y where the symbol is no tristate or there are no modules |
| SymbolValues.CachedExactly | scripts/config/symbol.c:242-261 | dir_dep is whether the dependencies are met, and rev_dep what the selectors ask for, y for m where a boolean or tristate can only be n or y; for choice values neither is computed |
| SymbolValues.PlainExactly | scripts/config/symbol.c:327-440 | the value of a boolean or tristate outside choices: n if it is selected with dependencies unmet; else the greater of what its selectors ask for and of the user value as far as it is visible, or if there is none in force of the value and the condition of the first default whose condition is not n |
| SymbolValues.MemberExactly | scripts/config/symbol.c:327-440 | the value of a choice value: visible as y, it is y if it is the one chosen, else n; otherwise the user value as far as it is visible, or that of the first default in force |
| SymbolValues.ChoiceExactly | scripts/config/symbol.c:327-440 | the value of a choice, which has no default of its own and is not y without a member to choose |
| SymbolValues.PickExactly | scripts/config/symbol.c:269-325 | the member of a choice that is y: the one the user chose, if it is visible; else the one named by the first default in force whose member is visible; else the first visible one |
| SymbolValues.TextExactly | scripts/config/symbol.c:411-431 | the value of a string or number: the one of the user if it is visible, else that of the symbol the first default in force names, else empty |
| SymbolValues.NameExactly | scripts/config/symbol.c:353-357 | a symbol without a type has its name as value and is n |
| SymbolValues.WrittenExactly | scripts/config/symbol.c:345-461 | which symbols outside choices are to be written to a configuration |
| SymbolValues.FullDefaultExactly | scripts/config/symbol.c:698-763 | the default of a boolean or tristate: the greater of what the first default in force gives and of what the selectors ask for |
| SymbolValues.RefusedExactly | scripts/config/symbol.c:479-496 | a new value of a symbol outside choices takes effect if and only if it is within range, or just what selects the symbol, which is visible no further |
| SymbolValues.RefusedMember | scripts/config/symbol.c:479-496 | a new value refused for a choice value would not take effect |
| SymbolValues.MemberRangeExactly | scripts/config/symbol.c:479-526 | a new value for a choice value visible as y takes effect, with the change of the choice that goes with y, if and only if it is within range |
| SymbolValues.RefusedChoice | scripts/config/symbol.c:479-496 | nor would one for a choice, unless it is just what selects the choice |
| SymTabs.SymTab.constructor | scripts/config/symbol.c:327-338 | a table with nothing valid is consistent |
| SymTabs.SymTab.EvalExpr | scripts/config/expr.c:917-995 | evaluation with values computed on demand gives the expression's defined value, and leaves decided symbols alone |
| SymTabs.SymTab.CalcVisibility | scripts/config/symbol.c:209-261 | the three cached fields become visibility, dir_dep and rev_dep of the symbol |
| SymTabs.SymTab.CalcValue | scripts/config/symbol.c:327-466 | sym_calc_value makes the symbol valid, keeps every valid symbol at its defined value, and ends on acyclic tables |
| SymTabs.SymTab.CalcChoice | scripts/config/symbol.c:295-325 | the choice picks the user's visible member, else the default one, with the members' visibilities computed, and drops its user flag exactly if a visible member is new |
| SymTabs.SymTab.CalcAll | scripts/config/symbol.c:327-466 | any sequence of requests in any order leaves the defined value in every symbol asked for |
| SymTabs.SymTab.ValidIsDone | scripts/config/symbol.c:334-335 | what is valid between calls holds its defined value, cached fields and write flag |
| SymTabs.SymTab.ClearAllValid | scripts/config/symbol.c:468-477 | values are defined anew from the user's, which are kept; nothing is valid but modules_sym, valued again, and what that took |
| SymTabs.SymTab.GetTriDefault | scripts/config/symbol.c:698-763 | the default of a boolean or tristate, choice values included, with selects and modules taken into account, without disturbing valid symbols |
| SymTabs.SymTab.GetTextDefault | scripts/config/symbol.c:698-763 | the default of a string or number, likewise |
| SymTabs.SymTab.SetTristateValue | scripts/config/symbol.c:498-532 | accepted exactly when unchanged or in range; then exactly the user values meant are stored, and the table can be used on. If nothing that the change turns on wavers, a new value takes effect for symbols outside choices, for choices but for y without a visible member, for choice values visible as m, and for switching a choice that is y; an old value leaves all values right if it is lasting |
| SymTabs.SymTab.SetIsFelt | scripts/config/symbol.c:498-532 | after an accepted change all that its subject depends on has its old value if and only if no choice among that wavers, which the cached fields tell |
| SymTabs.SymTab.DependentExactly | scripts/config/symbol.c:498-532 | for a symbol that depends on one choice value that is y, the change to y takes effect if and only if the choice does not waver |
| SymTabs.SymTab.SettleMembers | scripts/config/symbol.c:516-526 | all visible members of the choice count as set by the user, nothing else changes |
| DepChecks.DepChecker.Sweep | scripts/config/zconf.y:531-534 | a recursion is reported if and only if the dependency relation has a cycle; no call returns a symbol to the parser |
| DepChecks.DepChecker.CheckDeps | scripts/config/symbol.c:1266-1298 | the search ends, restores its stack and flags, and returns a symbol only if that is under way and reported |
| DepChecks.DepChecker.Report | scripts/config/symbol.c:1086-1158 | a report is made only for a cycle, the part of the stack that it prints |
| DepChecks.OrderRanks | scripts/config/symbol.c:1195-1227 | a silent sweep gives a ranking along which every symbol can be evaluated |
| DepChecks.OrderedNotCyclic | scripts/config/symbol.c:1195-1227 | symbols listed each after its dependencies are on no cycle |
| DepChecks.CheckedExactly | scripts/config/symbol.c:1195-1227 | what is followed from a symbol: what selects it, and the conditions and defaults of its properties, except selects |
| Menus.FinalizeOrder | scripts/config/menu.c:282-444 | menu_finalize is called on each entry once, in document order, and keeps that order |
| Menus.AbsorbOrder | scripts/config/menu.c:346-371 | so does the loop that moves following entries below a symbol |
| Menus.Flatten | scripts/config/menu.c:415-424 | dissolving promptless submenus keeps document order and loses no entry |
| Submenus.MenuKeepsUnder | scripts/config/menu.c:282-444 | what lies below an entry with a prompt still lies below it when menu_finalize is through, new entries come only below an entry of a symbol that had none, and below the outermost entry one with subentries has a prompt |
| Submenus.FinalizePrompted | scripts/config/menu.c:415-424 | below any entry it is called on no entry without a prompt has subentries, at any depth |
| Submenus.FlattenUnder | scripts/config/menu.c:415-424 | dissolving puts nothing below an entry that was not there, and takes nothing from below one with a prompt |
| Submenus.SymbolTakes | scripts/config/menu.c:341-366 | the entries that follow a symbol without subentries go below it as long as their conditions depend on it, or mention it while its own prompt has no condition |
| Submenus.SymbolTakesNone | scripts/config/menu.c:346-349 | it takes none if the condition of the next entry does not mention it |
| MenuLinks.MenuTable.FinalizeMenu | scripts/config/menu.c:282-444 | the in-place pass over the root menu visits every entry once in document order and leaves next, list and parent pointers of the new tree, in the old document order: entries with subentries have a prompt, and keep below them what was below them |
| MenuLinks.MenuTable.Finalize | scripts/config/menu.c:282-444 | the same for one entry and those after it, and entries outside keep their pointers |
| MenuLinks.MenuTable.AbsorbFollowing | scripts/config/menu.c:341-366 | following entries are finalized and re-parented while they depend on the symbol, the last of them is returned |
| MenuLinks.MenuTable.FinalizeSymbol | scripts/config/menu.c:341-374 | they are linked out of their list into the submenu, and dir_dep is extended |
| MenuLinks.MenuTable.CloseAll | scripts/config/menu.c:375-425 | promptless submenus are dissolved into the list being walked, and choice values recorded |
| MenuLinks.MenuTable.Dissolve | scripts/config/menu.c:415-424 | one submenu goes behind its entry, with the parents of all its entries changed |
| MenuLinks.MenuTable.Walk | scripts/config/confdata.c:793-832 | the walk by next, list and parent pointers comes by each entry below the root once, in document order |
| MenuDeps.FinalizePushes | scripts/config/menu.c:308-338 | every entry below gets its conditions from its original ones and from the limit of its original parent, exactly once, whatever is re-parented |
| MenuDeps.FinalizeFrame | scripts/config/menu.c:308-373 | a call leaves the conditions of the entry itself and of its siblings alone |
| MenuDeps.FinalizeDir | scripts/config/menu.c:373 | dir_dep of a symbol is the OR of the dependencies that its entries without subentries end up with, as far as they have any |
| MenuVisibility.FinalizeVisibility | scripts/config/menu.c:308-338 | in the whole tree an entry's dependency is the minimum of its parent's limit and its own; each property is the minimum of that and its own condition, up to not being no for symbols that are not tristate |
| MenuVisibility.EntryExactly | scripts/config/menu.c:305-338 | before choice values get their conjunct the dependency of an entry has the least of its own value and of what the entry above it in the source text lets it have: the value of a choice, else the visibility of its prompt, else its dependency; a property has the least of that and of its own condition, or is n with it where the symbol is no tristate |
| MenuVisibility.EnclosingBound | scripts/config/menu.c:308-338 | once menu_finalize is through, each property of an entry is visible at most as far as the entry's dependency and that of every enclosing entry up to the nearest choice |
| MenuVisibility.ChoiceBound | scripts/config/menu.c:308 | once menu_finalize is through, everything inside a choice depends on the choice |
| MenuVisibility.AbsorbedNeedsParent | scripts/config/menu.c:346-361 | an entry moved below a symbol is visible only if the symbol is on or its prompt visible |
| MenuVisibility.EntriesMeetDeps | scripts/config/menu.c:308-373 | visible prompts and defaults in force imply dir_dep if and only if it is not so that one of an entry without any dependency is in force while other entries have dependencies of which none is met |
| MenuVisibility.DirDepUnmet | scripts/config/menu.c:373 | dir_dep is not met if and only if some entry of the symbol has a dependency and none of these is met |
| MenuVisibility.BareExample | scripts/config/menu.c:373 | a symbol with a visible prompt whose dir_dep is not met |
| MenuVisibility.GuardedMeaning | scripts/config/menu.c:398-406 | the conjunct for boolean values of tristate choices makes them unavailable exactly while the choice is not y |
| MenuVisibility.GuardPut | scripts/config/menu.c:376-407 | the conjunct is put on the first entry of each boolean symbol that becomes a value of a tristate choice, and on no other |
| MenuVisibility.ValuesPut | scripts/config/menu.c:376-414 | just the symbols of the entries in the list of a choice become its values |
| MenuVisibility.FinalizeGuards | scripts/config/menu.c:376-407 | over the whole pass the conjunct is put only on boolean values of tristate choices, and never taken away |
| MenuVisibility.ValueNeedsYes | scripts/config/menu.c:398-406 | the dependency and properties of such a value, as they are left, are no unless the choice is y, and then as without the conjunct |
| Escapes.EscapeRoundTrip | scripts/config/symbol.c:920-961 | unescaping the quoted form of any string gives the string back, whatever follows the closing quote |
| Escapes.EscapeExactly | scripts/config/symbol.c:944-961 | a backslash is put before quotes and backslashes, and nothing else is changed |
| Escapes.UnescapeExactly | scripts/config/confdata.c:161-175 | unquoting takes a backslash off any character, and fails exactly if there is no closing quote |
| Escapes.EscapedSize | scripts/config/symbol.c:928-942 | the counting loop finds exactly the room the quoted text and its terminator take |
| Escapes.EscapeString | scripts/config/symbol.c:920-961 | the buffer holds the quoted text and is exactly full |
| Escapes.UnescapeInPlace | scripts/config/confdata.c:161-175 | the in-place loop finds the closing quote exactly if there is one, and leaves the unquoted text |
| Escapes.QuoteAndUnquote | scripts/config/confdata.c:161-175 | the text that sym_escape_string_value writes into its buffer, unquoted there in place, is the original string |
| Confdata.StringRoundTrip | scripts/config/confdata.c:126-194 | a string symbol written quoted and read back has the same string as its user value |
| Confdata.NotSetRoundTrip | scripts/config/confdata.c:491-511 | the comment line for n reads back as not set |
| Confdata.AssignedRoundTrip | scripts/config/confdata.c:491-511 | an assignment line reads back as the name and the value, an empty one included |
| Confdata.LinesReadBack | scripts/config/confdata.c:276-410 | after a whole minimal or full file exactly the symbols written in it have their value as the user's, but for numbers that are not valid |
| Confdata.MinimalConfigLossless | scripts/config/confdata.c:671-742 | writing the minimal configuration, reading it and recomputing restores every value if and only if none is forgotten |
| ConfLines.MinimalConfigMinimal | scripts/config/confdata.c:671-742 | if the minimal file has a line for a symbol, and what the symbol reads is restored from the file, then without what the file says of it the symbol gets another value; unless it is selected with its dependencies unmet |
| ConfLines.LinesAre | scripts/config/confdata.c:671-742 | a file has one line for each symbol saved, in the order of its first menu entry |
| ConfLines.LineEnds | scripts/config/confdata.c:356-366 | an assignment reads the same whether it ends in a newline, in a carriage return and a newline, or with the file |
| ConfLines.MemberLine | scripts/config/confdata.c:383-406 | the line of a choice value at y makes it the choice; at m it makes the choice m, or if that is y already, unset; at n it leaves the choice alone |
| ConfLines.ChosenReadBack | scripts/config/confdata.c:383-406 | a file that sets one member of a choice to y and the others to n makes y the user value of the choice and that member its choice |
| ConfLines.IntValidExactly | scripts/config/symbol.c:564-575 | the valid values of an S_INT symbol are the decimal numerals without leading zeros, and "-0" |
| ConfLines.HexValidExactly | scripts/config/symbol.c:576-583 | the valid values of an S_HEX symbol are the non-empty strings of hexadecimal digits, with or without a prefix |
| Confdata.ForgottenExample | scripts/config/confdata.c:697-702 | a table with a value that the minimal file loses |
| Confdata.InvisibleUserIrrelevant | scripts/config/confdata.c:452-460 | dropping the user values of invisible symbols changes no value |
| Confdata.LineParses | scripts/config/confdata.c:491-511 | the line of any symbol reads back as not set or as its name and value, quoted for strings |
| Confdata.FullConfigLossless | scripts/config/confdata.c:744-850 | writing the full configuration, reading it and recomputing restores every value if and only if none is overridden |
| Confdata.OverriddenExample | scripts/config/confdata.c:744-850 | a table with a value that the full file loses and the minimal one does not |
| ConfFiles.WriteDefconfig | scripts/config/confdata.c:671-742 | the loop with the live evaluator and the write flags writes the lines of exactly the symbols to be recorded, each once |
| ConfFiles.ReadConfig | scripts/config/confdata.c:276-410 | the reader leaves the user values of the lines, and changes nothing else but validity |
| ConfFiles.ReadLine | scripts/config/confdata.c:323-406 | one line changes the user value of its symbol, and of its choice |
| ConfFiles.SaveAndReload | scripts/config/confdata.c:412-480 | the whole cycle with conf_write or conf_write_defconfig and conf_read on a live table: every symbol holds its old value if and only if nothing is lost |
| ConfFiles.WriteConfig | scripts/config/confdata.c:744-850 | the loop with the live evaluator and the write flags writes the line of exactly the symbols that are to be saved, each once |
| ConfFiles.ReadBack | scripts/config/confdata.c:412-480 | conf_read leaves every symbol valid with the value that the lines give it, although it drops user values |
| ConfFiles.CountUnsaved | scripts/config/confdata.c:423-450 | no difference is counted if and only if each symbol to be saved has its own value in the file and no other has one |
| ConfFiles.SettleUsers | scripts/config/confdata.c:452-460 | exactly the user values of invisible symbols are dropped, if nothing differed, and no value changes |
| Crc.TakeBytesAppend | tools/zyimage/src/zyimage.c:28-35 | a message may be taken in in pieces of any length |
| Crc.LookupTakesByte | tools/zyimage/src/zyimage.c:33-34 | one table lookup with a signed char does the work of eight message bits |
| Crc.StepsHigh | tools/zyimage/src/zyimage.c:48-56 | the part of the register the division has not reached is only shifted |
| Crc.CheckValue | tools/zyimage/src/zyimage.c:21-58 | the checksum of the digits 1 to 9 is the one known of this polynomial and start value, 0xCBF43926 before the complement |
| Crc.Signer.GenTab | tools/zyimage/src/zyimage.c:40-58 | the table holds what eight shifts make of each byte |
| Crc.Signer.Checksum | tools/zyimage/src/zyimage.c:21-38 | the checksum of any file is the bit-at-a-time one |
| PadImages.Image.PadImage | tools/padjffs2/src/padjffs2.c:60-111 | the original stays in front, the loop ends, and there is a mark at each alignment asked for with 0xff in between, if and only if no alignment is out of reach |
| PadImages.Image.FirstBit | tools/padjffs2/src/padjffs2.c:72-76 | the lowest alignment in a non-empty mask is found |
| PadImages.Image.ClearAligned | tools/padjffs2/src/padjffs2.c:80-84 | exactly the alignments the length has are cleared |
| PadImages.Image.Extend | tools/padjffs2/src/padjffs2.c:88-110 | 0xff up to the length, then the mark |
| PadImages.MarksApart | tools/padjffs2/src/padjffs2.c:78 | two marks are at the same place or at least 1024 bytes apart |
| PadImages.SmallImages | tools/padjffs2/src/padjffs2.c:38 | up to 2 GiB every alignment is within reach |
| PadImages.LargeImagesFail | tools/padjffs2/src/padjffs2.c:78 | between 2 and 4 GiB alignment to 2 GiB is out of reach |
| Elf.PhdrRoundTrip | tools/sstrip/src/sstrip.c:92-131 | an entry written in either byte order reads back with its fields, and with all other bytes untouched |
| Elf.ByteOrders | tools/sstrip/src/sstrip.c:92-109 | numbers of two, four and eight bytes with the most or the least significant byte first |
| Elf.LayoutsExactly | tools/sstrip/src/sstrip.c:92-131 | in both classes each field lies where those before it end |
| Elf.EhdrRoundTrip | tools/sstrip/src/sstrip.c:92-131 | so does the ELF header |
| Elf.TableRoundTrip | tools/sstrip/src/sstrip.c:284-288 | so does the whole program header table |
| Sstrip.Stripper.ReadIdent | tools/sstrip/src/sstrip.c:312-359 | accepted are exactly files with the magic number, a known class and a known byte order |
| Sstrip.Stripper.GetMemorySize | tools/sstrip/src/sstrip.c:194-222 | the end of the headers and of all that entries refer to, whichever is last |
| Sstrip.Stripper.TruncateZeros | tools/sstrip/src/sstrip.c:371-396 | the largest size not above the given one whose last byte is not zero; it fails exactly when the file is shorter, and ends on files with the magic number |
| Sstrip.Stripper.ModifyHeaders | tools/sstrip/src/sstrip.c:228-259 | every entry is trimmed to the new size, and references to a section table that is gone are cleared |
| Sstrip.Stripper.CommitChanges | tools/sstrip/src/sstrip.c:264-306 | both headers are written and the file is cut, but not within the table; bytes outside the headers stay |
| Sstrip.Stripper.Strip | tools/sstrip/src/sstrip.c:438-446 | a file that is not accepted is left alone, but for the sections in the ELF header if the table is said to be beyond all offsets; otherwise it is cut down, with its headers trimmed, and all other bytes kept |
| Sstrip.StripKeepsImage | tools/sstrip/src/sstrip.c:170-307 | every segment to be loaded lies in the file before and after, and keeps its size in memory and all its bytes but those of the headers |
| Sstrip.StripWithin | tools/sstrip/src/sstrip.c:228-306 | no entry, of whatever type, refers to anything beyond what is left of the file, one that did not before is the same, and the section header table lies in the file or is not mentioned |
| Sstrip.OtherEntryLosesImage | tools/sstrip/src/sstrip.c:170-307 | a segment whose entry is read with another type or memory size than it has at e_phoff is always lost |
| Sstrip.MisplacedLosesImage | tools/sstrip/src/sstrip.c:170-307 | a file whose table is not where it is read: its segment is no longer loaded |

## Left out

- Sstrip.StripKeepsImage: asks that the table read after the ELF header is the one at e_phoff, since otherwise the program overwrites one table with another, and that no segment's end wraps around in an unsigned long.
- PadImages.Image.PadImage: asks that the mask has no bit below 1024, as the command line guarantees; failing writes are not modelled.
- Confdata.MinimalConfigLossless: covers tables without choices and without ranges of numbers, whose defaults the code says it does not handle; strings and numbers must fit into one line.
- SymbolProperties.ChoiceExclusive: asks that members have no defaults of their own and that the defaults of the choice name members.
- DepChecks.DepChecker.Sweep: covers tables without choices; in a choice the code deliberately ignores recursion among members.
- DepChecks.DepChecker.CheckDeps: the same; starting at the choice for a choice value, and sym_check_choice_deps, are not modelled.
- DepChecks.DepChecker.Report: prints no text; the stack entries that a choice value adds are not modelled.
- Confdata.LinesReadBack: covers tables without choices, like the theorems it serves.
- ConfFiles.WriteDefconfig: covers tables without choices; the test for the default of a choice is not modelled.
- ConfFiles.SaveAndReload: the same, and modules_val is settled.
- ConfFiles.WriteConfig: covers tables without choices, and asks, when values are not cleared first, that nothing has been written since the last clearing; otherwise the code leaves out what was.
- ConfFiles.ReadBack: covers tables without choices.
- ConfFiles.CountUnsaved: the same.
- ConfFiles.SettleUsers: the same.
- Confdata.FullConfigLossless: the same.
- ConfFiles.ReadLine: an S_OTHER symbol, which only reading auto.conf makes, keeps its type when unquoted text is stored in it.
- ConfFiles.ReadConfig: the same.
- Compares.TransCompareMeaning: does not cover comparison with m, for which the code gives wrong answers (Compares.TransCompareMod) and which menu_finalize does not make.
- Shapes.EqualExactly: asks that neither expression has a constant y or n, which expr_eq never matches; with constants it is sound and reflexive.
- Numbers.NumbersCompare: leaves out numbers with superfluous leading zeros or with a sign before a prefix.
- ConfLines.MinimalConfigMinimal: covers tables without choices, like the theorem it goes with.
- Submenus.SymbolTakes: leaves out the third way, where the condition implies that of the prompt, of which MenuVisibility.AbsorbedNeedsParent says what it is good for.
- SymTabs.SymTab.SetTristateValue: modules_val is settled, so changes of the modules symbol are not covered; that an old value stays right is stated outside choices, and the switch of a choice for members without defaults.
- Ranges of number symbols (sym_validate_range), SYMBOL_CHANGED and the change counter, the cached visibility inside properties, set_all_choice_values, and randconfig.
- In `menu_finalize`: the types given to choices and their values, the accumulation of rev_dep from selects and choices, and the warnings.
- Sharing between expressions of different owners: `dir_dep` points into the dependency of its entry in the code, and copies here; freed nodes are simply not used again.
- The comment lines of conf_write, its files, and the header and auto.conf writers; environment prefixes, file handling, temporary names, message callbacks, help texts and the user interfaces.
- The parser, symbol lookup by hash, expr_simplify_unmet_dep and expr_get_leftmost_symbol.
- Command lines of the host tools, the signature block that zyimage appends, and failing reads, writes and seeks apart from those named above.
