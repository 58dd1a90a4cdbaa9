# XtratuM: verified models of its hardest parts

XtratuM is a separation hypervisor. It partitions a machine in time with a cyclic plan, lets partitions talk over
queuing channels and time-triggered network ports, keeps logs that survive a power cut, and is configured with the
Kconfig language. This project models the parts of it that are easiest to get wrong and proves what they are for.

| files | part of the system |
|---|---|
| `KconfigExpr`, `KconfigEq`, `KconfigSlots`, `KconfigDups`, `KconfigOperands`, `KconfigSettled`, `KconfigNodes`, `KconfigNodeDups`, `KconfigMenu` | the tristate expression optimiser, its equality and implication tests, and its use for menus |
| `KconfigDeps` | the recursive-dependency check |
| `ConfString` | string values in a configuration file |
| `CyclicSched`, `KTimer` | the cyclic partition scheduler; the timer queues and the hardware timer |
| `TtnocSync`, `TtnocRing`, `TtnocDouble`, `TtnocNbw` | the three port protocols between a host and the network interface |
| `LogDevice`, `LogStream` | the persistent log ring on a memory block |
| `DynList`, `QueuingChannel` | the intrusive circular list and the queuing channels over it |
| `Bits`, `Md5`, `Md5Sines`, `Klibc` | streaming MD5 (RFC 1321) and its sine table; number printing and `strtoul` |
| `Options` | values that may be missing, for all of them |

`dafny verify dfyconfig.toml` checks all of it.

## How the parts are modelled

**Expressions.** Values are n < m < y. Expressions are trees of symbols, `=`, `!=`, NOT, AND and OR. An assignment is
*typed* when bool symbols are n or y, the string of a bool or tristate symbol names its value, and different constant
symbols, which are never bool or tristate, have different strings; there is one for every choice of values
(`KconfigExpr.TypedForAnyChoice`). Passes that rewrite a tree in memory appear twice: what they compute is proved about
functions on trees, or, for the duplicate passes, about stores into slots, the paths a `struct expr **` can name
(`KconfigSlots`, `KconfigDups`); and `KconfigNodes` and `KconfigNodeDups` show that the code on heap nodes does exactly
that, with `*e = *child`, reused NOT nodes, freed roots, comparison on copies and new nodes stored through the slots.

**Scheduler.** One object is one CPU's `struct cyclicData`. Its ghost trace holds every answer given so far with the
plan then in force; the class invariant says all of them were isolated. The clock is a non-decreasing parameter.

**Timers.** Queues are sequences of timer objects. The clock is a list of readings still to come, because
`SetHwTimer` and `TimerHandler` call each other for as long as the clock runs ahead of the deadline; a call during
which the readings run out is *not done*.

**Ports.** Host code runs word by word; before each of its register or memory accesses any number of interface steps
may happen, chosen by a parameter. Interface steps obey the rules in the comments of the drivers.

**Log.** The device is an array with a position, as `core/drivers/memblock.c` has it. Every device write is recorded;
*untorn* means that after any prefix of an operation's writes a restart finds the state before or the state after it.

**Results that differ from the comments or the intention**

- `expr_join_and` turns `a!='m' && a!='n'` into `a='y'`; its comment says `a='m'`. The code is right
  (`KconfigEq.JoinExact`).
- `expr_trans_compare` compares with y as if every symbol worth m were n, and with n as if it were y
  (`KconfigExpr.TransCompareExact`). So it is right exactly when that reading does not change whether the expression is
  worth the constant (`KconfigExpr.TransCompareRight`), which a NOT above an operand worth m can do
  (`KconfigExpr.NoModUnderNotRight`); for a negated symbol it is right exactly when the symbol is not worth m
  (`KconfigExpr.TransCompareNegatedSymbol`). Compared with m, which no caller asks for, it is right only below an
  even number of NOTs, and for AND and OR only where the expression is worth n (`KconfigExpr.TransCompareModRight`).
- A strike of `expr_eliminate_dups2` changes the value exactly when its spine is worth m
  (`KconfigDups.StruckExactlyMod`); `(a || b) && (!a && !b)` with a worth m and b not worth y is struck to n
  (`KconfigDups.StrikeSharpens`).
- `menu_finalize` can take an entry into the sub-menu of a symbol although the entry is visible where neither the symbol
  nor its prompt is: `!x && (s || t)` under s, whose prompt depends on `x = n`, with x worth m, t worth y and s worth n
  (`KconfigMenu.SubMenuFails`). It cannot when the entry's condition depends on the symbol; nor, if it is in
  normal form, where it is worth y or has no NOT above a tristate symbol (`KconfigMenu.SubMenuTest`);
  `KconfigMenu.SubMenuExactly` says exactly when.
- An insert into a full log replaces the oldest record before it moves the ring. A stop in between shows a log that is
  neither the old nor the new one, unless the new record equals the oldest, or the cursor is on the oldest and the new
  record equals all the others (`LogStream.FullInsertUntorn`; `LogStream.TornInsert` is such a stop).
- A port with explicit synchronisation and a time stamp, filling its lower half, writes into the half being sent
  (`TtnocDouble.SendStaysOut` says exactly when). A word of that half sent after it was overwritten is the time stamp's,
  one sent before is still the message's (`TtnocDouble.DoublePort.Tiss`); the period is whole exactly when each word
  of the time stamp in it equals the one it replaces (`TtnocDouble.PeriodWhole`).
- After a context switch a timer of the new thread can be due and still wait for the next interrupt. It happens when the
  least deadline of the new thread's timers passes between the two clock readings of the switch and no earlier interrupt
  was programmed: then the hardware is programmed for the least deadline of the other active timers, the processor's and
  those of the thread that leaves, which under the cyclic policy is at most the next scheduling point
  (`KTimer.LocalTime.SwitchTo` says exactly when; `KTimer.LateSwitch` is a run).
- A negative number printed with space padding does not read back, since the sign comes before the spaces
  (`Klibc.PrintSignedThenParse` says exactly when).
- A string value reads back exactly when it has no newline and its line fits 1023 characters (`ConfString.WriteThenRead`).

## Model

| member | source | states |
|---|---|---|
| KconfigExpr.TypedForAnyChoice | scripts/kconfig/expr.c:943-981 | the assignments the value results speak of are free: one for every choice of symbol values, and of strings for symbols without a tristate |
| KconfigExpr.EliminateYnCorrect | scripts/kconfig/expr.c:236-317 | folding y and n keeps the value under every typed assignment, leaves neither as an AND/OR operand at any depth, and makes the tree smaller exactly when there was one |
| KconfigExpr.TransformExact | scripts/kconfig/expr.c:641-776 | the transformation keeps the three-valued value under every typed assignment (its termination measure, doubling under NOT, is in the function) |
| KconfigExpr.TransformNormal | scripts/kconfig/expr.c:641-776 | the result is in negation normal form: NOT only above non-constant symbols, no bool symbol compared with a constant |
| KconfigExpr.TransformFixpoint | scripts/kconfig/expr.c:641-776 | the normal forms are exactly its fixed points, so transforming twice is transforming once |
| KconfigExpr.TransBoolKeepsVisible | scripts/kconfig/expr.c:322-346 | on normal forms, dropping `!= n` never changes whether the value is n and never raises it |
| KconfigExpr.TransBoolLowers | scripts/kconfig/expr.c:322-346 | afterwards no `!= n` of a tristate symbol is left at any depth, under NOT or not: each became its symbol, and the expression is the same exactly when there was none |
| KconfigExpr.NotContained | scripts/kconfig/expr.c:778-800 | when a symbol does not occur in an expression, assignments that agree on all others give it the same value |
| KconfigExpr.ContainedExactly | scripts/kconfig/expr.c:778-800 | a symbol occurs exactly when a symbol or comparison at the end of some chain of NOT, AND and OR names it, on either side |
| KconfigExpr.VisibilityUnchanged | scripts/kconfig/symbol.c:194-201 | the visibility of a non-tristate symbol, m rounded up to y, is not changed by transforming and bool-lowering its condition |
| KconfigExpr.TransCompareExact | scripts/kconfig/expr.c:882-941 | whatever the expression, the comparison with y or n is lowered to an expression worth y or n as the comparison holds or not for the expression with m read as n, for y, or as y, for n |
| KconfigExpr.TransCompareRight | scripts/kconfig/expr.c:882-941 | so it is right if and only if that reading does not change whether the expression is worth the constant |
| KconfigExpr.NoModUnderNotRight | scripts/kconfig/expr.c:882-941 | it is right whenever no NOT is above an operand worth m |
| KconfigExpr.TransCompareTwoValued | scripts/kconfig/expr.c:882-941 | compared with y or n, the result is never m |
| KconfigExpr.TransCompareModRight | scripts/kconfig/expr.c:882-941 | compared with m, a symbol or comparison comes out right exactly when the number of NOTs above it is even, and an AND or OR exactly where the expression is worth n |
| KconfigExpr.TransCompareNegatedSymbol | scripts/kconfig/expr.c:882-941 | for a negated symbol the comparison is right if and only if the symbol is not worth m |
| KconfigEq.ExprEqSound | scripts/kconfig/expr.c:194-234 | expressions found equal have the same value under every typed assignment |
| KconfigEq.ExprEqReflexive | scripts/kconfig/expr.c:194-234 | an expression is found equal to itself, although AND and OR are compared by eliminating operands |
| KconfigEq.ElimSpineCommon | scripts/kconfig/expr.c:135-167 | elimination takes one common value out of both spines |
| KconfigOperands.PermutedEqual | scripts/kconfig/expr.c:194-234 | the comparison finds what it is for: spines with the same distinct operands, in any order and grouping, are equal to it |
| KconfigEq.EliminateEqMonotone | scripts/kconfig/expr.c:169-189 | an order between the reduced expressions, either way, is the order between the originals |
| KconfigEq.EliminatedToYesImplies | scripts/kconfig/expr.c:169-189 | when the second expression is reduced to y, the value of the first never exceeds that of the second |
| KconfigEq.ExtractEqExact | scripts/kconfig/expr.c:831-880 | each side is worth its rest combined with the extracted common part |
| KconfigOperands.ExtractFound | scripts/kconfig/expr.c:831-880 | when all operands of one side, distinct, are among those of the other, nothing but the unit is left of it |
| KconfigEq.JoinExact | scripts/kconfig/expr.c:351-507 | a joined pair is worth exactly the OR or AND of its operands, for every join rule |
| KconfigSettled.JoinedExactly | scripts/kconfig/expr.c:351-507 | a pair is joined if and only if its operands are found equal or it is, in either order, one of the listed pairs: of one tristate two of `=y`, `=m`, `=n` under OR, two of `!=y`, `!=m`, `!=n` under AND, or an equality and an inequality with constants under AND; of one bool `s` and `!s` under OR; `s` with `=y`, `!=n` or `!=m` under AND |
| KconfigEq.JoinShape | scripts/kconfig/expr.c:351-507 | a join is smaller than the pair, opens no new spine and keeps normal form |
| KconfigSlots.PullOut | scripts/kconfig/expr.c:509-559 | storing through a pointer into a spine: the operand's value can be pulled out of the whole |
| KconfigSlots.PairReplaced | scripts/kconfig/expr.c:548-555 | replacing two operands by a pair of the same combined value keeps the value of the tree |
| KconfigSlots.PutRefines | scripts/kconfig/expr.c:609-613 | sharpening an operand worth m sharpens at most a whole worth m |
| KconfigNodeDups.Optimiser.EliminateDups1 | scripts/kconfig/expr.c:509-559 | the join pass on heap nodes, from any two slots of a spine: value kept exactly, no pair of distinct operands below the slots left that would join (JoinedExactly says which do), and nothing counted exactly when there was none |
| KconfigNodeDups.StoreBelow | scripts/kconfig/expr.c:509-559 | a store through a pointer into a tree leaves an unshared tree for the expression with that operand replaced |
| KconfigNodeDups.NodesDiffer | scripts/kconfig/expr.c:524-525 | two slots hold the same node only when they are the same slot, so the test of addresses is exact |
| KconfigNodeDups.Optimiser.JoinOperands | scripts/kconfig/expr.c:527-556 | the end of the pass: works inside the first operand, then replaces two operands that a rule joins, value kept exactly |
| KconfigNodeDups.Optimiser.EliminateDups2 | scripts/kconfig/expr.c:561-615 | the second pass on heap nodes: only values of m change, no operand left that could be struck, and nothing counted exactly when there was none |
| KconfigNodeDups.Optimiser.StrikeOperand | scripts/kconfig/expr.c:576-613 | one operand of the second pass is swept inside and struck when its negation is found |
| KconfigDups.StruckExactlyMod | scripts/kconfig/expr.c:561-615 | striking an operand makes the spine its deciding constant, and that is a change if and only if the spine was worth m |
| KconfigDups.StrikeSharpens | scripts/kconfig/expr.c:561-615 | a tree worth m whose first operand is struck against the second, which makes it n |
| KconfigSettled.NegatedOperands | scripts/kconfig/expr.c:580-598 | the operands of a negated AND are the negations of its operands, as the operands of an OR, and the other way round |
| KconfigSettled.StruckWhenNegated | scripts/kconfig/expr.c:594-607 | an AND among the operands of an OR is struck when the negations of its operands, distinct, are among them too; so is an OR among those of an AND |
| KconfigSettled.NoneStruck | scripts/kconfig/expr.c:561-615 | at no depth of a settled expression is such an operand left |
| KconfigSettled.NoDuplicates | scripts/kconfig/expr.c:509-559 | at no depth of a settled expression are two operands of one spine found equal or a listed pair |
| KconfigDups.RoundProgress | scripts/kconfig/expr.c:617-639 | a round that counts a rewrite shrinks the tree after folding; one that counts none left it alone and found nothing to do |
| KconfigNodeDups.Optimiser.EliminateDups | scripts/kconfig/expr.c:617-639 | the whole loop terminates; a value of n or y is kept and only m may be sharpened; at no depth of the result are two operands of one spine found equal or a pair a join rule unites (JoinedExactly), or an operand whose negated operands are among the others (NoneStruck); it has no constant operand unless nothing was done; it is the identity exactly on settled trees; the counter is restored |
| KconfigMenu.Optimised | scripts/kconfig/expr.c:617-639 | the same for a condition that may be missing |
| KconfigMenu.PromptCondition | scripts/kconfig/menu.c:272-277 | the order of the passes on a prompt's condition: normal form is kept, only values of m may change, and a condition worth n or y keeps its rounded visibility, bool-lowered or not; afterwards nothing is left for the duplicate passes, or, bool-lowered, no `!= n` of a tristate symbol |
| KconfigMenu.Visible | scripts/kconfig/menu.c:288-290 | the normalised `!= n` of a condition, its duplicates eliminated, is y where the condition is visible with m read as y and n where it is not |
| KconfigMenu.ReadModVisible | scripts/kconfig/menu.c:288-290 | for a condition in normal form, reading m as y never shows what is hidden, and hides nothing if no NOT is above a tristate symbol |
| KconfigMenu.SubMenuTest | scripts/kconfig/menu.c:292-315 | exactly the entries that mention the symbol and pass one of the two tests are taken into its sub-menu; such an entry, if its condition depends on the symbol, is visible only where the symbol is not n or its prompt is visible; otherwise (conditions over bools and tristates, the prompt's in normal form as PromptCondition leaves it) so it is with m read as y, and, if its own condition is in normal form, outright except where that is worth m and, with m read as y, n, which takes a NOT above a tristate symbol |
| KconfigMenu.FinalizeEntry | scripts/kconfig/menu.c:287-318 | the sub-menu of an entry, with the sub-menus within it: every entry taken in passes the test of its parent, lies after it with nothing but the parent's sub-menu in between, and each sub-menu ends where its symbol refuses an entry; the entry after it has no conjunct that is the symbol, `=y`, `=m` or `!=n` of it; no other entry moves |
| KconfigMenu.FinalizeList | scripts/kconfig/menu.c:285-286 | the same for a whole list, where every entry ends up on its own or in one sub-menu |
| KconfigMenu.TakenInside | scripts/kconfig/menu.c:292-315 | every entry so taken in names the symbol in its condition and has the property SubMenuTest states |
| KconfigMenu.SubMenuExactly | scripts/kconfig/menu.c:292-315 | for a condition in normal form whose lowered form is a conjunction the duplicate passes leave alone, the property holds under every prompt that takes the entry in if and only if, where the symbol is n and the condition m, reading m as y does not make the condition n |
| KconfigMenu.SubMenuFails | scripts/kconfig/menu.c:292-315 | without that condition the property fails: an entry that is taken and visible where the symbol is n and its prompt is not visible |
| KconfigMenu.DependsExactly | scripts/kconfig/expr.c:802-829 | a condition depends on a symbol if and only if one of its conjuncts is the symbol, `=y`, `=m` or `!=n` of it |
| KconfigMenu.DependsImplies | scripts/kconfig/expr.c:802-829 | a condition that depends on a symbol mentions it and is n whenever the symbol is |
| KconfigMenu.RefusedIndependent | scripts/kconfig/menu.c:292-298 | an entry that ends a sub-menu, at any level, has no conjunct that makes it depend on the symbol |
| KconfigOperands.SingleEliminated | scripts/kconfig/expr.c:169-189 | an operand on its own, not y or n, is eliminated against a spine of either kind that has it, on either side |
| KconfigOperands.ConjunctsRecognised | scripts/kconfig/menu.c:299-306 | the implication test is not only sound: a conjunction that contains all the distinct conjuncts of the parent's condition is recognised, in any order |
| KconfigNodes.Node.EliminateYn | scripts/kconfig/expr.c:236-317 | folding in place, with nodes overwritten by their child, yields the folded expression on nodes of the old tree |
| KconfigNodes.Node.TransBool | scripts/kconfig/expr.c:322-346 | bool lowering in place, which follows the right operand of a negation too: it is null in every valid tree, as the transformation leaves it |
| KconfigNodes.Node.Transform | scripts/kconfig/expr.c:641-776 | the transformation in place, with roots freed and nodes allocated, yields a tree without sharing that stands for the transformed expression |
| KconfigNodes.Node.DeMorgan | scripts/kconfig/expr.c:723-738 | pushing a NOT through AND or OR reuses the operand's node as the first of the two negations |
| KconfigNodes.Node.ExprEq | scripts/kconfig/expr.c:194-234 | the comparison of two trees in memory changes neither and answers as the function on expressions does |
| KconfigNodes.Node.ElimSpine | scripts/kconfig/expr.c:135-167 | elimination through two pointers leaves two disjoint trees that stand for the reduced expressions |
| KconfigNodes.Node.EliminateEq | scripts/kconfig/expr.c:169-189 | the same for the whole elimination, with folding |
| KconfigNodes.Node.Copy | scripts/kconfig/expr.c:67-102 | a copy shares no node and stands for the same expression |
| KconfigDeps.Checker.CheckDeps | scripts/kconfig/symbol.c:853-889 | a check finds an error only with a cycle, counts every error it does not pass up to a symbol of its own chain, and otherwise completes the symbol and everything it depends on |
| KconfigDeps.Checker.CheckSymDeps | scripts/kconfig/symbol.c:795-817 | reverse dependencies, then conditions and defaults; choices and selects are skipped |
| KconfigDeps.Checker.CheckExprDeps | scripts/kconfig/symbol.c:763-792 | every symbol of the expression is checked until one reports an error |
| KconfigDeps.Checker.CheckAll | scripts/kconfig/zconf.tab.c:2279-2282 | the error count rises if and only if some symbol of the table reaches a dependency cycle, and no flag stays behind |
| KconfigDeps.IndependentOf | scripts/kconfig/symbol.c:795-817 | what the dependency relation means: changing a symbol that s does not depend on changes no reverse dependency, no condition and no default of s |
| KconfigDeps.DependsExactly | scripts/kconfig/symbol.c:763-817 | s depends on a symbol if and only if one of these names it, choices and selects apart |
| KconfigDeps.OrderedIsAcyclic | scripts/kconfig/symbol.c:853-889 | symbols completed each after its dependencies reach no cycle |
| KconfigDeps.Checker.AllCounted | scripts/kconfig/zconf.tab.c:2280-2281 | at the top the check never returns a symbol: each error was counted by the symbol it is about |
| ConfString.UnescapeEscape | scripts/kconfig/confdata.c:495-509 | escaping is undone whatever the string and whatever follows the closing quote |
| ConfString.UnescapeCut | scripts/kconfig/confdata.c:117-133 | no prefix of an escaped string contains a closing quote |
| ConfString.WriteString | scripts/kconfig/confdata.c:495-509 | the writer, which copies stretches without special characters, produces the escaped line |
| ConfString.SetStringVal | scripts/kconfig/confdata.c:117-137 | unescaping in place by moving the rest of the string down yields exactly the text up to the first quote no backslash escapes, or the error when there is none, a backslash at the very end included |
| ConfString.ReadLine | scripts/kconfig/confdata.c:247-276 | the name and the value of an assignment line in the buffer, its newline stripped in place |
| ConfString.WriteThenRead | scripts/kconfig/confdata.c:495-509 | a written string value reads back if and only if it has no newline and its line fits the buffer |
| CyclicSched.DecisionUnique | core/kernel/sched.c:150-170 | a well-formed plan decides every offset of the frame in one way |
| CyclicSched.DecisionIs | core/kernel/sched.c:150-181 | a decision for a thread comes from a slot that contains the offset and names the thread's partition and vCPU, and the thread is ready, not halted and not suspended; nobody is decided for only where no slot contains the offset or the flags of its thread forbid it |
| CyclicSched.IsolatedIs | core/kernel/sched.c:100-215 | an isolated answer with the thread of a vCPU of a partition, cached or computed, was given in a slot of that partition and vCPU, with the thread's flags at the call allowing it |
| CyclicSched.FrameArithmetic | core/kernel/sched.c:136-144 | the frame in force and the offset in it are functions of the time since the plan switch alone |
| CyclicSched.CyclicData.constructor | core/kernel/sched.c:246-284 | the initial state satisfies the invariant with no plan in force |
| CyclicSched.CyclicData.MakePlanSwitch | core/kernel/sched.c:75-98 | the requested plan becomes current, the time of the switch is recorded and the cursor reset, exactly when it is another plan |
| CyclicSched.CyclicData.NextFrame | core/kernel/sched.c:121-147 | plans change only at the end of a frame; otherwise whole frames go by, without drift, to the one that contains the time |
| CyclicSched.CyclicData.PickSlot | core/kernel/sched.c:151-181 | the decision for an offset, and a next scheduling point ahead with no slot starting before it |
| CyclicSched.CyclicData.Recompute | core/kernel/sched.c:117-214 | a recomputed answer is the plan's own decision for the current offset; sExec <= now < mjf, now < nextAct <= mjf, the frame start is a whole number of frames after the switch |
| CyclicSched.CyclicData.CachedIsolated | core/kernel/sched.c:112-115 | an answer from the cached decision is isolated as long as the next activation is ahead |
| CyclicSched.CyclicData.GetReadyKThread | core/kernel/sched.c:100-215 | temporal isolation over every run: each answer joins a trace in which every thread is none, the yielded-to idle thread, or the runnable owner of the slot containing the offset in the plan then in force; in terms of the slot table, a thread of partition p and vCPU v is answered only when some slot of the plan in force has that partition and vCPU and contains the time since the switch modulo the major frame, and its flags allow it; a recomputation answers nobody only when no slot does or the flags forbid it |
| CyclicSched.CyclicData.YieldToIdle | core/include/sched.h:86-91 | yielding replaces the cached thread by the idle thread and keeps the invariant |
| CyclicSched.SwitchSchedPlan | core/kernel/sched.c:52-73 | a plan switch is only requested, on every CPU, and keeps every CPU's invariant |
| KTimer.FirstBeyondUnique | core/kernel/ktimer.c:71-73 | the first deadline of a period after now is unique |
| KTimer.Timer.Step | core/kernel/ktimer.c:64-83 | an expired timer runs once; a periodic one moves to its first deadline after now, a one-shot is disarmed |
| KTimer.SteppedDeadline | core/kernel/ktimer.c:64-83 | its next deadline in closed form: the first point of its grid after now |
| KTimer.TraverseKTimerQueue | core/kernel/ktimer.c:56-87 | every timer of the queue is stepped once, and the least armed deadline is returned |
| KTimer.RanTrans | core/kernel/ktimer.c:56-87 | over any number of traversals no timer runs before its deadline, periodic ones stay armed and on their grid, one-shots run at most once, and no action runs oftener than deadlines passed |
| KTimer.LocalTime.SetHwTimer | core/kernel/ktimer.c:27-54 | afterwards the hardware fires for every active armed timer at its deadline or at the shortest interval after the last programming; late exactly when the reading has passed the deadline, and then everything is looked at again |
| KTimer.LocalTime.TimerHandler | core/kernel/ktimer.c:89-104 | the same after an interrupt, with the hardware programmed for exactly the least active deadline after the first reading, clamped to what it can count |
| KTimer.LocalTime.ArmKTimer | core/kernel/ktimer.c:137-147 | arming keeps every active deadline covered; a deadline of zero leaves the hardware alone |
| KTimer.LocalTime.DisarmKTimer | core/kernel/ktimer.c:149-156 | disarming keeps every deadline covered and reports a timer that was not armed |
| KTimer.LocalTime.SwitchTo | core/kernel/sched.c:354-355 | the switch is late if and only if the new thread's least deadline after the first reading lies before the second and before the interrupt in place; then the hardware is programmed for the least deadline d of the timers active before, and the new thread's timers are covered afterwards if and only if the switch was not late or d is within the shortest interval |
| KTimer.LateSwitch | core/kernel/sched.c:354-355 | under a cyclic plan, with the scheduling timer armed and the guest's timer armed by itself, a late switch leaves a timer that is due until the end of the slot |
| TtnocSync.IterCounts | core/drivers/ttnoc/sync.c:262-296 | advancing the host address and its overflow bit is adding one to an unbounded count |
| TtnocSync.TestsExact | core/drivers/ttnoc/sync.c:173-213 | the full and empty tests on addresses and overflow bits are exact |
| TtnocRing.StoreKeepsOutstanding | core/drivers/ttnoc/sync.c:216-218 | a word stored into the next slot of a queue that is not full touches no message still to be consumed |
| TtnocRing.RingPort.Tiss | core/drivers/ttnoc/sync.c:173-213 | an interface step consumes the oldest message of an outgoing queue that has one, stores a word into the next slot of an incoming queue that is not full, or produces the message in that slot; it does nothing else and keeps the encoding |
| TtnocRing.RingPort.SendMsg | core/drivers/ttnoc/txrx.c:299-367 | a send interleaved with the interface appends exactly its message, and is refused only when the queue is full |
| TtnocRing.RingPort.ReceiveMsg | core/drivers/ttnoc/txrx.c:98-270 | a receive delivers the oldest message not yet consumed, whole, blocking or not; it reports an empty queue only when it was and it was not blocking, and a blocking receive on an empty queue is pending |
| TtnocDouble.SendStaysOut | core/drivers/ttnoc/sync.c:124-152 | whatever the memory and the message, the half being sent keeps its words during a send if and only if that does not put a time stamp into the lower half |
| TtnocDouble.SendsWhole | core/drivers/ttnoc/sync.c:124-152 | during a send, what the half in use shows is the last whole message if and only if no word of a time stamp that differs is stored over it; always without time stamps |
| TtnocDouble.PeriodWhole | core/drivers/ttnoc/sync.c:124-152 | a period is one whole message if and only if each word of a time stamp in it is the one it replaces, and always when none goes over its half |
| TtnocDouble.DoublePort.PeriodSends | core/drivers/ttnoc/sync.c:124-152 | in any state between two sends, every period over so far carried, word by word, the message it began with, or the time stamp of the message after it where that was stored before the word was sent |
| TtnocDouble.DoublePort.SendMsg | core/drivers/ttnoc/txrx.c:299-367 | a send interleaved with the words of the interface completes its half while the other one is sent, or is refused exactly when a switch is still due and no period begins; what the half in use shows before each access is the last whole message, with the words of a time stamp stored so far over its first words when the message goes into the lower half |
| TtnocDouble.DoublePort.Tiss | core/drivers/ttnoc/sync.c:124-152 | word by word, whatever the host does meanwhile, a period sends the message completed last before it began, each word with the words of the next message's time stamp over it that were stored when it was sent; every period is recorded with how many those were |
| TtnocNbw.NbwPort.Tiss | core/drivers/ttnoc/txrx.c:182-188 | an updater step begins, stores a word of, or ends an update when it is its turn, and does nothing otherwise: the counter is odd while words are mixed and has a new even value afterwards |
| TtnocNbw.NbwPort.CopyAndRead | core/drivers/ttnoc/txrx.c:151-180 | a copy between two equal even readings, with no wrap of the counter in between, is one single update |
| TtnocNbw.NbwPort.ReceiveMsg | core/drivers/ttnoc/txrx.c:142-232 | no torn reads: in every interleaving a successful receive delivers all the words of one update, not older than the one in place at the call; a refusal means an update was under way |
| LogDevice.Enc32RoundTrip | core/include/logstream.h:31-38 | the device bytes of a word read back as the word |
| LogDevice.MemBlock.Seek | core/drivers/memblock.c:92-111 | the position is the target, held between the ends of the block |
| LogDevice.MemBlock.Read | core/drivers/memblock.c:33-61 | as many bytes as the block still has are read from the position |
| LogDevice.MemBlock.Write | core/drivers/memblock.c:63-90 | as many bytes as fit overwrite the block at the position, in one recorded store |
| LogStream.RecoversOnce | core/include/logstream.h:59-78 | a device tells one state only |
| LogStream.MatchesExactly | core/include/logstream.h:72-76 | a header is taken over exactly when the words at 0, 4, 8 and 52 are the first magic number, the element size, the capacity and the second magic number |
| LogStream.HeaderIs | core/include/logstream.h:27-39 | the lock is the word at 12, the committed block number the one at 16, the control blocks stand at 20 and 36 |
| LogStream.FreshIs | core/include/logstream.h:83-90 | a fresh header has those four words and zeros between them, and nothing behind it changes |
| LogStream.CommitSteps | core/include/logstream.h:47-57 | after any prefix of a commit's writes a restart finds the old or the new control block |
| LogStream.InsertSteps | core/include/logstream.h:93-122 | after any prefix of the writes of an insert into a log that is not full a restart finds the log before or after it |
| LogStream.FullInsertSteps | core/include/logstream.h:93-122 | an insert into a full log drops the oldest record for the new one; a stop after the first write, exactly, shows the new record in the oldest one's place |
| LogStream.FullInsertUntorn | core/include/logstream.h:93-122 | an insert into a full log is untorn if and only if the new record equals the oldest, or the cursor is on the oldest and all the others equal the new one |
| LogStream.TornInsert | core/include/logstream.h:93-122 | a log of two records that a third one tears |
| LogStream.StoredRecord | core/include/logstream.h:126-133 | the record the cursor names is the elemSize bytes at 56 + (d + head) % n * elemSize |
| LogStream.InsertStored | core/include/logstream.h:93-122 | an insert keeps the device holding the last min(N, count) accepted records in order, and is untorn if and only if the log was not full or the replacement goes unnoticed |
| LogStream.LogStream.Init | core/include/logstream.h:59-91 | stated on the words at 0, 4, 8 and 52 themselves: start-up takes over exactly the log a matching device holds, and makes an empty one of any other, with those words written and nothing behind the header changed; of a device with a matching header it takes the lock and the control block named there as they are, and that is a log if and only if the device holds one |
| LogStream.LogStream.Commit | core/include/logstream.h:47-57 | a commit writes the control block into the unused slot and then the slot number, and takes the other slot next; nothing at all without capacity |
| LogStream.LogStream.Insert | core/include/logstream.h:93-122 | the record joins the history, the cursor stays on its record unless that was overwritten, a full locked log refuses; untorn if and only if nothing was overwritten or the replacement goes unnoticed |
| LogStream.LogStream.Get | core/include/logstream.h:124-138 | the next record not yet read and not overwritten is returned, in order; untorn |
| LogStream.LogStream.Seek | core/include/logstream.h:145-168 | the cursor moves to the target held inside the log; untorn |
| LogStream.Restart | core/include/logstream.h:59-91 | whatever untorn operation stops after whatever prefix of its writes, start-up on what is on the device takes over the log before it or after it |
| DynList.List.InsertHead | core/include/list.h:43-66 | on a valid circular list, the element is put before all others, unless it is in the list already |
| DynList.List.InsertTail | core/include/list.h:68-90 | the element is put after all others, unless it is in the list already |
| DynList.List.RemoveHead | core/include/list.h:92-110 | the first element is taken out and freed, the rest keeps its order |
| DynList.List.RemoveTail | core/include/list.h:112-129 | the last element is taken out and freed, the rest keeps its order |
| DynList.List.RemoveElement | core/include/list.h:131-148 | any element is taken out and freed, the rest keeps its order |
| QueuingChannel.MoveOne | core/objects/commports.c:480-519 | moving a message between the lists keeps them a partition of the pool |
| QueuingChannel.Channel.constructor | core/objects/commports.c:1103-1116 | a new channel holds its whole pool in the free list |
| QueuingChannel.Channel.Send | core/objects/commports.c:440-523 | the payload joins what was sent unless the size is wrong or the channel full; the pool is conserved and the panic is never reached |
| QueuingChannel.Channel.Receive | core/objects/commports.c:525-620 | payloads come out in the order they were sent, cut to the receiver's size; the pool is conserved and the panic is never reached |
| Md5.NativeRoundTrip | core/klibc/md5.c:26-34 | the word byteReverse stores reads back as the word, on either kind of processor |
| Md5.NativeReversed | core/klibc/md5.c:132-133 | reversing a word of the state yields its bytes low-order first |
| Md5.BlocksAppend | core/klibc/md5.c:82-91 | digesting whole blocks one after the other is digesting their concatenation |
| Bits.BitsAre | core/klibc/md5.c:141-151 | each bit of an AND, OR, XOR or NOT is that of the bits in its place |
| Md5.TabledBit | core/klibc/md5.c:141-147 | each bit of F, G, H and I of section 3.4 of RFC 1321 is the entry of its truth table for the three bits in its place |
| Md5.AuxIs | core/klibc/md5.c:141-147 | the optimised auxiliary functions equal those of section 3.4 of RFC 1321 |
| Bits.RotateIs | core/klibc/md5.c:151 | shifting both ways and joining with OR gives (x * 2^s) % 2^n + x / 2^(n - s) |
| Md5.RotationIs | core/klibc/md5.c:151 | so the code's rotation is the circular shift to the left, as integers |
| Md5.InitBytes | core/klibc/md5.c:41-44 | the initial state is the byte string 01 23 45 67 89 ab cd ef fe dc ba 98 76 54 32 10 of section 3.3 |
| Md5Sines.SineTable | core/klibc/md5.c:166-232 | each constant of the 64 steps is the integer part of 2^32 * abs(sin(i + 1)), for any functions with the addition theorem and with sine and cosine of one radian between the partial sums of their series |
| Md5Sines.SinesExist | core/klibc/md5.c:166-232 | there are such functions |
| Md5.FourOps | core/klibc/md5.c:149-151 | four steps in the code's order of registers are four operations of the RFC |
| Md5.DigestCtx.MD5Transform | core/klibc/md5.c:158-238 | the unrolled 64 steps are the compression of section 3.4 |
| Md5.DigestCtx.ByteReverse | core/klibc/md5.c:26-34 | the words of the buffer become what their bytes spell, low-order byte first |
| Md5.CountMore | core/klibc/md5.c:58-63 | the two-word counter stays the number of bits modulo 2^64 |
| Md5.DigestCtx.DigestUpdate | core/klibc/md5.c:54-93 | the message grows by the data: the state covers its whole blocks, the buffer starts with the rest, the counter is its length |
| Md5.PaddedShortest | core/klibc/md5.c:99-128 | the padded message is the message, a one bit, zeros up to the shortest whole number of blocks, and eight bytes that spell the length in bits modulo 2^64, low-order byte first |
| Md5.PaddedOnce | core/klibc/md5.c:108-123 | the padding when the length fits the block |
| Md5.PaddedTwice | core/klibc/md5.c:112-119 | the padding when the length needs another block |
| Md5.DigestCtx.DigestFinal | core/klibc/md5.c:99-136 | the digest of everything digested, by sections 3.1 to 3.5 of RFC 1321; the state, the counter and the buffer are cleared |
| Md5.DigestPieces | core/klibc/md5.c:54-136 | a message digested in any pieces has the digest of the whole |
| Klibc.DigitStep | core/klibc/stdlib.c:46-51 | the 8 and 24 bit pieces are exact modulo 2^32 and the high piece tells the overflow |
| Klibc.ClassifyIs | core/klibc/stdlib.c:44-45 | the unsigned-char classification finds exactly the digits of the base |
| Klibc.ParsedIs | core/klibc/stdlib.c:16-63 | on the string itself: any blanks of the six kinds, a minus, a plus or no sign, a prefix 0x or 0X or none, digits and a rest that does not go on with a digit are read to the end of the digits, as their value, negated modulo 2^32 after a minus, or as the largest number; base 0 asks for 16 after the prefix, 8 after a zero and 10 otherwise |
| Klibc.ParsedNothing | core/klibc/stdlib.c:53-56 | where no digit follows the blanks and the sign, nothing is read and the end is the start |
| Klibc.StrToUl | core/klibc/stdlib.c:16-63 | the exact value of the longest numeral, ULONG_MAX precisely when it is bigger, negated modulo 2^32 after a minus; where it ends; no numeral; no base |
| Klibc.Convert | core/klibc/stdio.c:206-230 | the digits and the padding, written backwards into twenty bytes, are the numeral padded to the width; they fit exactly when the width is less than twenty |
| Klibc.ConvertSigned | core/klibc/stdio.c:175-202 | the same with a sign and the magnitude, for the least 32-bit number too |
| Klibc.NumeralOfText | core/klibc/stdio.c:206-217 | the printed numeral stands for the value |
| Klibc.PrintThenParse | core/klibc/stdlib.c:42-63 | every 32-bit value printed in base 10 or 16, padded or not, reads back as itself, to its end |
| Klibc.PrintSignedThenParse | core/klibc/stdlib.c:42-63 | a signed value reads back modulo 2^32 if and only if it is not negative, is padded with zeros, or needs no padding |

## Left out

- expr_extract_eq: modelled on values, as are expr_join_or, expr_join_and, expr_trans_compare and expr_calc_value, which return values in the source; node identity is not captured there.
- KconfigNodeDups.Optimiser.JoinOperands: the join rules and the extraction of common operands decide on the values of the operands; the nodes they copy are new, and freeing is not captured.
- E_LIST and E_RANGE nodes, E_NONE and the debug output of the expression passes.
- KconfigDeps.Checker.CheckDeps: choice groups are not modelled (the graph has none), and the error text is not.
- The rest of menu_finalize: menus with lists of their own, entries without a prompt text, choices, select properties and warnings.
- ConfString.ReadLine: other symbol types, the "is not set" lines, sym_lookup and file access.
- CONFIG_PLAN_EXTSYNC, the status exchange over the network at the end of a frame, audit events and the frame counter of the system status.
- CyclicSched.CyclicData.GetReadyKThread: the zero-length idle plan is reported, not run, since IdleTask does not return; the health monitor's call of MakePlanSwitch in mid-frame keeps the old cached decision and is outside the isolation statement.
- CyclicSched.CyclicData.MakePlanSwitch: on its own it does not keep the class invariant, which GetReadyKThread restores.
- KTimer.LocalTime.ArmKTimer: 64-bit wrap-around of a deadline is not modelled; actions do not touch the queues; the virtual timers of partitions are not part of this model.
- Spin locks: locked regions are atomic steps. Interrupts between the steps of one timer call are not modelled.
- KconfigMenu.SubMenuExactly: only for conditions whose lowered form is a conjunction that the duplicate passes leave alone; others are covered by SubMenuTest.
- TtnocRing.RingPort.SendMsg: message lengths are whole words and the register write of the host changes only its own fields; caches and the XM_SRC_PARTITION variant are not modelled.
- TtnocNbw.NbwPort.ReceiveMsg: a wrap of the counter during one copy is excluded, as the protocol must; a blocking receive that has not ended yet is Pending, as in TtnocRing.
- LogStream.LogStream.Insert: on a full log it is untorn only as FullInsertUntorn says, because the source overwrites the oldest record first; the lock flag is never written to the device by the source and so is lost at a restart.
- QueuingChannel.Channel.Send: permission checks, port bitmaps, notification of receivers and the unconnected port (which accepts and drops) are not modelled; SystemPanic is a result that is proved never to be returned.
- Klibc.Convert: 64-bit values, whose text may not fit twenty bytes, are excluded; what a store outside the buffer does is not modelled, only when there is one; %c, %s and the format scanner are not modelled.
- Klibc.StrToUl: strtol, strtoull and strtoll are not modelled; strtoull uses another mask for its low part.
- Hardware and boot code, user interfaces, generated parser tables and file I/O.
