# A verified model of the OR-tools CP-SAT integer layer and presolve rules

This project models two parts of the CP-SAT solver of OR-tools in Dafny and
proves properties of the model.

**The integer layer** (`ortools/sat/integer.cc`):

- `Encoder.IntegerEncoder`: the link between Boolean literals and integer
  literals `var >= bound` / `var == value`, with the implications between
  associated literals and the full encoding of a domain.
- `Trail.IntegerTrail`: the lower bounds of integer variables, kept as an
  append-only trail of bound changes. Each change links back to the previous
  entry of its variable and stores its reason. The class covers `Enqueue`
  (domains with holes, conflicts, associated literals, level zero),
  backtracking (`Untrail`), initial-domain updates, and the expansion of
  integer reasons into Boolean literals (`MergeReasonInto`, `Reason`,
  `RelaxLinearReason`). The value-level modules `TrailModel`,
  `TrailBacktrack`, `TrailEnqueue`, `TrailReasons` and `TrailMerge` state the
  invariants of the trail and prove that each operation keeps them.
- `Watcher.GenericLiteralWatcher`: the scheduler of the integer propagators.
  It keeps one FIFO queue per priority and an `in_queue` flag per propagator,
  wakes propagators through watch tables, runs propagation rounds, and
  backtracks. `WatcherQueues` states the queues as values.

**The presolve rules** (`ortools/sat/cp_model_presolve.cc`):

- `PresolveContext`: domains, the modified set, the infeasibility flag and
  the fixing of literals.
- `PresolveBool`: enforcement literals, `bool_or`, `bool_and` and
  `at_most_one`.
- `LinearCanonical`: the canonical form and the GCD division of
  `PresolveLinear`.
- `PresolveBooleans`: `PresolveLinearOnBooleans`.
- `CircuitPresolve`: the `circuit` rule.
- `PresolveFixPoint`: the worklist of `PresolveToFixPoint`.
- `VariableMapping`: `ApplyVariableMapping`.

`CpModel` gives each constraint its meaning under an assignment of values,
and the rules are proved to keep that meaning.

The classes follow the source's own form. Objects whose fields the source
updates in place are classes with `modifies` clauses: the trail, the
encoder, the watcher, the presolve context and the worklist. The hint
compaction of the mapping works in place on arrays. Pure computations are
functions and lemmas.

Integers are unbounded. The constants `kMinIntegerValue`,
`kMaxIntegerValue`, `kint32max` and `kint64max` bound the places where the
source relies on them.

The encoder keeps one ghost invariant beyond its data, `Linked()`. Every
stored equality literal is linked to a domain of its variable
(`EqualityLinkedIn`, the five cases of integer.cc:343-380). That domain is
recorded in `linkDomains` when the literal is stored, and it still holds the
variable's current domain (`LinksCover`). Domains only shrink, so the
trail's domain updates keep `LinksCover`, which is part of the trail's
`Valid()`. The keys of a literal being stored sit in `pending` until the
literal is linked. `pending` is empty between operations.
`EqualityMeaningIn` builds on this invariant: a literal means `v == value`
when it is the stored literal of that key, or is equivalent to it by two
clauses, and the stored literal is linked.

## Model

| member | source | states |
|---|---|---|
| PresolveContext.Context.DomainOf | ortools/sat/cp_model_presolve.cc:100-104 | the domain of a negative reference is the negated domain of its variable: `x` is in it exactly when the variable can take the value that gives the reference `x` |
| PresolveContext.Context.NegationSymmetry | ortools/sat/cp_model_presolve.cc:59-93 | a reference is true exactly when its negation is false (and the other way round), both are fixed together, and the minimum of the negation is minus the maximum of the reference |
| PresolveContext.Context.MinOfMaxOfAreExtreme | ortools/sat/cp_model_presolve.cc:82-93 | `MinOf`/`MaxOf` are values of the reference's domain and bound every value of it |
| PresolveContext.Context.LiteralIsTrueMeaning | ortools/sat/cp_model_presolve.cc:64-72 | a literal is true exactly when the only value left to its variable is the one that makes it hold |
| PresolveContext.Context.LiteralIsFalseMeaning | ortools/sat/cp_model_presolve.cc:73-81 | a literal is false exactly when the only value left to its variable is the one that makes it fail |
| PresolveContext.Context.FixedLiteralsDecide | ortools/sat/cp_model_presolve.cc:64-81 | under every assignment within the domains a true literal holds and a false one does not |
| PresolveContext.Restricted | ortools/sat/cp_model_presolve.cc:110-116 | the values of a domain that give the reference a value of the other domain, and only those |
| PresolveContext.OrientedDomain | ortools/sat/cp_model_presolve.cc:113-116 | the values of a variable for which a (possibly negative) reference falls in the given domain |
| PresolveContext.RestrictedShrinks | ortools/sat/cp_model_presolve.cc:106-122 | an intersection only removes values: every other domain is unchanged and the restricted one is within the old one |
| PresolveContext.ShrinksKeepsSatisfied | ortools/sat/cp_model_presolve.cc:106-122 | an assignment within the reduced domains is within the domains presolve started from |
| PresolveContext.Context.IntersectDomainWith | ortools/sat/cp_model_presolve.cc:106-122 | reports a change exactly when some value of the reference lies outside the domain; on a change the domain becomes the intersection, the variable is marked modified and the model becomes infeasible exactly when the result is empty; otherwise nothing changes |
| PresolveContext.Context.SetLiteralToFalse | ortools/sat/cp_model_presolve.cc:124-139 | a fixed variable is left as it is, the model becoming infeasible when it is fixed to the value making the literal true; otherwise the variable keeps only the value making the literal false and is marked modified; no other variable changes; afterwards the literal is false unless the model is infeasible |
| PresolveContext.Context.CheckFixedValue | ortools/sat/cp_model_presolve.cc:127-131 | the fixed case: only the infeasibility flag may change, and it is set exactly when the fixed value makes the literal true |
| PresolveContext.Context.RestrictToFalseValue | ortools/sat/cp_model_presolve.cc:132-134 | the unfixed case: the domain is cut to the value making the literal false, the variable is marked modified |
| PresolveContext.Context.SetLiteralToTrue | ortools/sat/cp_model_presolve.cc:141 | the mirror of `SetLiteralToFalse` on the negated literal: the literal ends true unless the model is infeasible |
| PresolveContext.RestrictToValue | ortools/sat/cp_model_presolve.cc:132-134 | cutting a domain of two or more values to one value is a change, leaves exactly that value if it was there, and keeps a 0/1 domain Boolean |
| PresolveBool.PresolveEnforcementLiteral | ortools/sat/cp_model_presolve.cc:381-407 | without enforcement nothing changes; when no enforcement literal is false or used only here, the true ones are dropped in order, the domains are untouched and the change is reported exactly when the list shrank; otherwise the constraint is cleared and some enforcement literal is false (or the model infeasible) |
| PresolveBool.WithoutTrueKeepsTheOthers | ortools/sat/cp_model_presolve.cc:386-405 | dropping the true literals keeps exactly the literals that are not true |
| PresolveBool.WithoutTrueMeaning | ortools/sat/cp_model_presolve.cc:386-405 | under every assignment within the domains, dropping the true literals does not change whether all of them hold |
| PresolveBool.EnforcementRewriteMeaning | ortools/sat/cp_model_presolve.cc:381-407 | dropping the true enforcement literals keeps the meaning of the constraint under every assignment within the domains |
| PresolveBool.FalseEnforcementHolds | ortools/sat/cp_model_presolve.cc:393-395 | a constraint with a false enforcement literal holds under every assignment within the domains, so removing it loses nothing |
| PresolveBool.PresolveBoolOr | ortools/sat/cp_model_presolve.cc:409-474 | the enforcement literals move inside as their negations; the clause is then presolved as `ClauseOutcome` states, and unless the model became infeasible the result means the same as the input under the new domains |
| PresolveBool.PresolveClause | ortools/sat/cp_model_presolve.cc:425-473 | the scan of a clause: a true literal clears the constraint, a literal used only here is set true and the constraint cleared, false literals are dropped in order; no literal left makes the model infeasible, one left is set true, two become the implication `not a => b`, more are kept |
| PresolveBool.StopClause | ortools/sat/cp_model_presolve.cc:432-443 | the scan stopped at a true literal or at one used only here: the constraint is cleared, after setting that literal true in the second case |
| PresolveBool.FinishClause | ortools/sat/cp_model_presolve.cc:447-473 | the end of a scan that ran through, by the number of literals not false: infeasible, one set true, an implication, or the shortened clause; a change is reported exactly when a literal was dropped |
| PresolveBool.EndClause | ortools/sat/cp_model_presolve.cc:427-473 | joins the two ends of the scan under one outcome |
| PresolveBool.MakeTrue | ortools/sat/cp_model_presolve.cc:441 | a Boolean literal that is not fixed becomes true without making the model infeasible; only its variable changes |
| PresolveBool.ClauseKeptMeaning | ortools/sat/cp_model_presolve.cc:457-473 | two or more literals that are not false say what the clause says, both as the shortened clause and, for two, as the implication |
| PresolveBool.ImplicationKept | ortools/sat/cp_model_presolve.cc:457-463 | the two remaining literals of a clause and the implication `not kept[0] => kept[1]` mean the same |
| PresolveBool.ImplicationMeaning | ortools/sat/cp_model_presolve.cc:457-463 | `a or b` holds exactly when the `bool_and([b])` enforced by `not a` holds |
| PresolveBool.ClauseOfMeaning | ortools/sat/cp_model_presolve.cc:412-418 | moving the enforcement literals inside a `bool_or` as their negations keeps its meaning |
| PresolveBool.BoolOrRewriteMeaning | ortools/sat/cp_model_presolve.cc:409-474 | an enforced `bool_or` holds exactly when one of its literals that are not false, after the enforcement moved inside, holds |
| PresolveBool.WithoutFalseMeaning | ortools/sat/cp_model_presolve.cc:427-445 | dropping the false literals changes neither whether one literal holds nor how many do |
| PresolveBool.WithoutFalseKeepsTheOthers | ortools/sat/cp_model_presolve.cc:427-445 | dropping the false literals keeps exactly the literals that are not false, in order, and drops nothing when none is false |
| PresolveBool.TrueLiteralSatisfiesClause | ortools/sat/cp_model_presolve.cc:432-435 | a clause with a true literal holds under every assignment within the domains |
| PresolveBool.MarkConstraintAsFalse | ortools/sat/cp_model_presolve.cc:476-490 | without enforcement the model becomes infeasible and the constraint is cleared; with enforcement the clause of their negations is presolved as a `bool_or`; the result says that the enforcement literals do not all hold |
| PresolveBool.PresolveBoolAnd | ortools/sat/cp_model_presolve.cc:492-533 | without enforcement every literal is set true and the constraint cleared; with enforcement a false literal turns the constraint into "the enforcement does not hold", otherwise true literals are dropped, literals used only here are set true and dropped, the change is reported exactly when a literal was dropped or none is left, and only such unique variables change; the meaning is kept in every case |
| PresolveBool.BoolAndNotEnforced | ortools/sat/cp_model_presolve.cc:493-499 | a `bool_and` without enforcement: every literal ends true (or the model infeasible) and the constraint is cleared without losing meaning |
| PresolveBool.SetAllTrue | ortools/sat/cp_model_presolve.cc:495-497 | every literal ends true unless the model is infeasible, and only their variables change |
| PresolveBool.ScanBoolAnd | ortools/sat/cp_model_presolve.cc:503-518 | the scan stops at the first false literal; otherwise it keeps the literals that are not true and not used only here, and only variables used only here change |
| PresolveBool.SetUniqueTrue | ortools/sat/cp_model_presolve.cc:512-516 | a literal used only here is set true and only its variable changes |
| PresolveBool.BoolAndIsFalse | ortools/sat/cp_model_presolve.cc:504-507 | an enforced `bool_and` with a false literal becomes a constraint with the same meaning |
| PresolveBool.FalseBodyMeaning | ortools/sat/cp_model_presolve.cc:504-507 | with a literal that cannot hold, an enforced `bool_and` means that its enforcement literals do not all hold |
| PresolveBool.FinishBoolAnd | ortools/sat/cp_model_presolve.cc:520-532 | no literal left clears the constraint, otherwise the kept literals replace the body when some were dropped; the meaning is kept |
| PresolveBool.AllTrueHold | ortools/sat/cp_model_presolve.cc:508-511 | literals fixed true all hold under every assignment within the domains |
| PresolveBool.PresolveAtMostOne | ortools/sat/cp_model_presolve.cc:535-565 | (the intended rule; see ## Findings) the first true literal (at position `t`) makes every other position false, or the model infeasible, and clears the constraint; without one the domains are untouched, the false literals are dropped, the constraint is cleared when none is left, and the change is reported exactly when a literal was dropped; the meaning is kept |
| PresolveBool.SetOthersFalse | ortools/sat/cp_model_presolve.cc:543-546 | every position but the true one becomes false (or the model infeasible), and only variables of the constraint change |
| PresolveBool.SetOtherFalse | ortools/sat/cp_model_presolve.cc:545 | one more position becomes false |
| PresolveBool.AtMostOneSatisfied | ortools/sat/cp_model_presolve.cc:541-547 | one true literal and all the others false: at most one literal holds under every assignment within the domains |
| PresolveBool.FinishAtMostOne | ortools/sat/cp_model_presolve.cc:555-564 | the literals that are not false replace the body when some were dropped, none left clears it; the meaning is kept |
| PresolveBool.WithoutFalseCount | ortools/sat/cp_model_presolve.cc:549-553 | dropping false literals does not change how many literals hold |
| PresolveBool.OthersByPosition | ortools/sat/cp_model_presolve.cc:543-546 | every position of the list but `t`, in order |
| PresolveBool.Without | ortools/sat/cp_model_presolve.cc:543-546 | the list without the copies of one literal: exactly the other literals |
| PresolveBool.DuplicateOfTrueLiteralIsSkipped | ortools/sat/cp_model_presolve.cc:543-546 | with `x` fixed true, `at_most_one(x, x)` holds under no assignment, yet skipping by reference sets nothing false and clears the constraint; skipping by position sets the copy false |
| PresolveBool.OthersAgreeWithoutCopies | ortools/sat/cp_model_presolve.cc:543-546 | when the true literal occurs once, skipping by reference and by position set the same literals false |
| LinearCanonical.AddTerm | ortools/sat/cp_model_presolve.cc:833-839 | the map stays ordered by variable with no zero coefficient |
| LinearCanonical.AddTermCoefficients | ortools/sat/cp_model_presolve.cc:833-839 | adding to an entry changes the coefficient of that variable by the amount added and no other coefficient, an entry reaching zero being erased |
| LinearCanonical.AddTermSum | ortools/sat/cp_model_presolve.cc:833-839 | adding `c` to the entry of `v` adds `c` times the value of `v` to the sum of the map |
| LinearCanonical.RegroupStep | ortools/sat/cp_model_presolve.cc:818-840 | one term joins the ordered map or the fixed sum, keeping the map ordered |
| LinearCanonical.Regroup | ortools/sat/cp_model_presolve.cc:813-841 | the first loop, over the terms in order, yields an ordered map without zero coefficients |
| LinearCanonical.RegroupTerms | ortools/sat/cp_model_presolve.cc:813-841 | the loop computes exactly the map and fixed sum of `Regroup` |
| LinearCanonical.RegroupOne | ortools/sat/cp_model_presolve.cc:818-840 | one turn of the loop computes exactly `RegroupStep` |
| LinearCanonical.RegroupKeepsSum | ortools/sat/cp_model_presolve.cc:813-841 | under every assignment within the domains that satisfies the affine relations, the map's sum plus the fixed sum equals the original weighted sum |
| LinearCanonical.RegroupVarsArePositive | ortools/sat/cp_model_presolve.cc:928 | every variable of the map is a positive reference, as the check before the rewrite demands |
| LinearCanonical.GcdIsGreatest | ortools/sat/cp_model_presolve.cc:901-905 | Euclid's loop yields a common divisor of both numbers that every positive common divisor divides |
| LinearCanonical.GcdOfIsGreatest | ortools/sat/cp_model_presolve.cc:888-907 | the gcd of the coefficients divides each of them, is a multiple of every common divisor, and is positive when there is a term |
| LinearCanonical.ComputeGcd | ortools/sat/cp_model_presolve.cc:888-907 | the loop, with its first-coefficient start and its early exit at 1, computes the gcd of the coefficients |
| LinearCanonical.DivideByGcd | ortools/sat/cp_model_presolve.cc:925-931 | the rewritten terms keep their variables in order and each coefficient times the gcd is the old one |
| LinearCanonical.DividedSum | ortools/sat/cp_model_presolve.cc:922-931 | dividing every coefficient by a common divisor divides the weighted sum by it |
| LinearCanonical.CanonicalizeLinear | ortools/sat/cp_model_presolve.cc:813-931 | the rewritten constraint has the regrouped variables, strictly increasing and positive, each coefficient divided by their gcd; the shrink is reported exactly when fewer variables remain than there were terms |
| LinearCanonical.CanonicalFormKeepsSum | ortools/sat/cp_model_presolve.cc:813-931 | under every assignment within the domains that satisfies the affine relations, the original sum equals the gcd times the new sum plus the fixed sum |
| LinearCanonical.DividedCoefficientsAreCoprime | ortools/sat/cp_model_presolve.cc:922-931 | after the division the coefficients have no common divisor above 1 |
| PresolveBooleans.TermLiterals | ortools/sat/cp_model_presolve.cc:1303-1307 | one literal per term: the variable for a positive coefficient, its negation for a negative one |
| PresolveBooleans.MaxCoeffAsWrittenIsZero | ortools/sat/cp_model_presolve.cc:1247-1270 | the loop as written leaves `max_coeff` at 0 whatever the coefficients, every other statistic being the intended one |
| PresolveBooleans.StatsBounds | ortools/sat/cp_model_presolve.cc:1247-1270 | with `std::max`, every absolute coefficient lies between `min_coeff` and `max_coeff`, and `min_sum <= 0 <= max_sum` |
| PresolveBooleans.ScanBooleanTerms | ortools/sat/cp_model_presolve.cc:1251-1270 | the loop reports Boolean terms exactly when every variable ranges over 0..1, and then gathers the statistics of the coefficients |
| PresolveBooleans.CountBounds | ortools/sat/cp_model_presolve.cc:1278-1346 | the number of literals that hold is at most their number, positive exactly when one holds, and full exactly when all hold |
| PresolveBooleans.WeightBounds | ortools/sat/cp_model_presolve.cc:1278-1346 | the weighted sum of the literals that hold lies between `min_coeff` and `max_coeff` times their number |
| PresolveBooleans.RewrittenBody | ortools/sat/cp_model_presolve.cc:1278-1346 | each branch puts in place a `bool_and`, `bool_or` or `at_most_one` of the term literals (negated for the negative branches) |
| PresolveBooleans.ClassifyByCount | ortools/sat/cp_model_presolve.cc:1278-1346 | for each branch but the expansion, the tests on the statistics make "the sum is in the domain" equivalent to the count of holding literals the branch expects |
| PresolveBooleans.BodyByCount | ortools/sat/cp_model_presolve.cc:1278-1346 | each rewritten body holds exactly when the number of term literals that hold is what its branch expects |
| PresolveBooleans.DomainByCount | ortools/sat/cp_model_presolve.cc:1278-1346 | under the corrected rule the linear constraint holds exactly when the number of term literals that hold is what the branch expects |
| PresolveBooleans.RewriteMeaning | ortools/sat/cp_model_presolve.cc:1278-1346 | every branch but the expansion puts in place a body that holds under exactly the 0/1 assignments under which the linear constraint holds |
| PresolveBooleans.MaxCoeffAsWrittenAdmitsTooLargeTerm | ortools/sat/cp_model_presolve.cc:1263-1268 | as written, `2*x0 + 5*x1 <= 3` becomes `at_most_one(x0, x1)`, which admits `x1 = 1` although `5 > 3`; the corrected rule expands it into clauses |
| PresolveBooleans.ReifiedAndAsWrittenDropsTheSum | ortools/sat/cp_model_presolve.cc:1278-1287 | as written, `2*x0 + 3*x1 == 1` becomes `bool_and(not x0, not x1)`, which `x0 = x1 = 0` satisfies though the sum 0 is not 1; the corrected rule marks it false |
| PresolveBooleans.MaskClause | ortools/sat/cp_model_presolve.cc:1371-1374 | the clause of a mask has the negated variable where the mask's bit is set and the variable elsewhere |
| PresolveBooleans.ClauseFailsOnlyUnderItsMask | ortools/sat/cp_model_presolve.cc:1365-1374 | the clause of a mask fails under a 0/1 assignment exactly when the mask is that assignment |
| PresolveBooleans.BadMasks | ortools/sat/cp_model_presolve.cc:1357-1364 | the masks whose value is outside the domain, increasing |
| PresolveBooleans.BadMasksComplete | ortools/sat/cp_model_presolve.cc:1357-1364 | every mask whose value is outside the domain is among them |
| PresolveBooleans.MaskConstraints | ortools/sat/cp_model_presolve.cc:1366-1374 | one enforced clause per bad mask, in order |
| PresolveBooleans.ExpansionMeaning | ortools/sat/cp_model_presolve.cc:1348-1377 | under a 0/1 assignment the added clauses all hold exactly when the constraint they replace holds |
| PresolveBooleans.ExpansionClauses | ortools/sat/cp_model_presolve.cc:1357-1375 | the clause of an assignment is added exactly when its weighted sum is outside the domain, and no clause is added twice |
| PresolveBooleans.ExpandSmall | ortools/sat/cp_model_presolve.cc:1357-1375 | the nested loops over the masks and the terms add exactly the clauses of `Expansion` |
| PresolveBooleans.ApplyBooleanRewrite | ortools/sat/cp_model_presolve.cc:1278-1319 | the reified-and and clause branches hand the rewritten constraint to the `bool_and`/`bool_or` presolve, and the result means what the rewritten constraint meant |
| PresolveBooleans.RewriteKeepsMeaning | ortools/sat/cp_model_presolve.cc:1278-1346 | a rewrite followed by a presolve that keeps meaning keeps the meaning of the linear constraint |
| PresolveBooleans.ExpansionKeepsMeaning | ortools/sat/cp_model_presolve.cc:1348-1377 | removing the constraint and adding the clauses keeps the meaning |
| PresolveBooleans.LinearOnBooleansMeaning | ortools/sat/cp_model_presolve.cc:1241-1378 | whichever branch ran, the result and the added clauses mean what the linear constraint meant |
| PresolveBooleans.PresolveLinearOnBooleans | ortools/sat/cp_model_presolve.cc:1241-1378 | (the intended rule; see ## Findings) an affine constraint, a non-Boolean variable or more than three variables left after the tests change nothing; the expansion clears the constraint and appends exactly the clauses of the bad masks; the at-most-one branches put the rewritten body in place without touching the domains; unless the model became infeasible the result and the added clauses mean what the constraint meant |
| PresolveBooleans.NegativeReifiedAndCase | ortools/sat/cp_model_presolve.cc:1278-1287 | when the smallest sum is in the domain and `min_sum + min_coeff` exceeds its maximum, the constraint holds exactly when no term literal holds |
| PresolveBooleans.PositiveReifiedAndCase | ortools/sat/cp_model_presolve.cc:1288-1297 | when the largest sum is in the domain and `max_sum - min_coeff` is below its minimum, the constraint holds exactly when every term literal holds |
| PresolveBooleans.NeverInDomainCase | ortools/sat/cp_model_presolve.cc:1278-1297 | when the extreme sum the branch relies on is outside the domain, no sum is in it |
| PresolveBooleans.PositiveClauseCase | ortools/sat/cp_model_presolve.cc:1298-1308 | over a domain `[min, +inf)` that misses the smallest sum, with `min_sum + min_coeff >= min`, the constraint holds exactly when some term literal holds |
| PresolveBooleans.NegativeClauseCase | ortools/sat/cp_model_presolve.cc:1309-1319 | over a domain `(-inf, max]` that misses the largest sum, with `max_sum - min_coeff <= max`, the constraint holds exactly when some term literal fails |
| PresolveBooleans.PositiveAtMostOneCase | ortools/sat/cp_model_presolve.cc:1320-1332 | with `max_coeff` a true maximum, the branch's tests make the constraint hold exactly when at most one term literal holds |
| PresolveBooleans.NegativeAtMostOneCase | ortools/sat/cp_model_presolve.cc:1333-1345 | with `max_coeff` a true maximum, the branch's tests make the constraint hold exactly when at most one term literal fails |
| PresolveBooleans.BadMaskFails | ortools/sat/cp_model_presolve.cc:1357-1375 | under an enforced assignment whose weighted sum is outside the domain, one added clause fails |
| PresolveBooleans.GoodMaskHolds | ortools/sat/cp_model_presolve.cc:1357-1375 | under an assignment whose weighted sum is in the domain, or whose enforcement fails, every added clause holds |
| CircuitPresolve.LiteralQueries | ortools/sat/cp_model_presolve.cc:1790-1801 | the context's true/false queries on a literal are the "fixed true" and "fixed false" readings of its domains |
| CircuitPresolve.FixedStays | ortools/sat/cp_model_presolve.cc:1786-1815 | a literal fixed before the domains shrink stays fixed the same way |
| CircuitPresolve.FixedLitsStay | ortools/sat/cp_model_presolve.cc:1786-1815 | the same for every literal of a list |
| CircuitPresolve.AllBooleanLits | ortools/sat/cp_model_presolve.cc:1763-1784 | the arc literals the context calls Boolean are 0/1 literals of its domains |
| CircuitPresolve.BooleanLitsKept | ortools/sat/cp_model_presolve.cc:1786-1815 | Boolean literals stay Boolean while no 0/1 domain stops being one |
| CircuitPresolve.NodeCount | ortools/sat/cp_model_presolve.cc:1772-1777 | the node count is above every tail and head and is reached by one of them |
| CircuitPresolve.ArcsAtMembers | ortools/sat/cp_model_presolve.cc:1773-1784 | a node's list holds exactly the literals of the arcs ending (or starting) at it |
| CircuitPresolve.ArcsAtAbsent | ortools/sat/cp_model_presolve.cc:1778-1781 | a node no arc reaches has an empty list |
| CircuitPresolve.PushArc | ortools/sat/cp_model_presolve.cc:1778-1783 | the list of the arc's end grows by its literal, and the lists are resized to the largest node seen |
| CircuitPresolve.AddArc | ortools/sat/cp_model_presolve.cc:1774-1783 | one turn of the graph loop keeps the incoming and outgoing lists and the node count right for one more arc |
| CircuitPresolve.BuildGraph | ortools/sat/cp_model_presolve.cc:1767-1784 | the graph loop builds, for every node below the node count, the literals of the arcs entering it and leaving it, in arc order |
| CircuitPresolve.ListIsBoolean | ortools/sat/cp_model_presolve.cc:1787-1788 | a node's list holds arc literals, so it is Boolean when they are |
| CircuitPresolve.SetFalseExcept | ortools/sat/cp_model_presolve.cc:1807-1813 | every literal of the list other than the kept one is fixed false, unless the model became infeasible |
| CircuitPresolve.FixArcList | ortools/sat/cp_model_presolve.cc:1789-1813 | a list of one arc gets it used; otherwise the first used arc, when there is one, makes every arc with another literal unused, and with none nothing changes |
| CircuitPresolve.FixArcLists | ortools/sat/cp_model_presolve.cc:1787-1815 | after the first loop over a family of lists every single arc is used |
| CircuitPresolve.Kept | ortools/sat/cp_model_presolve.cc:1827-1847 | the arcs whose literal is not fixed to false, in order, are no more than the arcs |
| CircuitPresolve.Next | ortools/sat/cp_model_presolve.cc:1824-1835 | `next` has one entry per node, each -1 or a node |
| CircuitPresolve.NextMeaning | ortools/sat/cp_model_presolve.cc:1830-1835 | when no two used arcs leave one node, `next` maps the tail of every used arc to its head, and only those |
| CircuitPresolve.CircuitStartMeaning | ortools/sat/cp_model_presolve.cc:1823-1838 | the start is -1 exactly when every used arc is a self-loop, and otherwise the tail of a used arc that is not |
| CircuitPresolve.NumTrueMeaning | ortools/sat/cp_model_presolve.cc:1839-1846 | the used arcs are at most the kept ones, and when they are as many every arc is fixed |
| CircuitPresolve.KeptMeaning | ortools/sat/cp_model_presolve.cc:1827-1847 | no kept arc is fixed to false, and all arcs are kept exactly when none is |
| CircuitPresolve.ConflictInPrefix | ortools/sat/cp_model_presolve.cc:1831-1834 | two used arcs leaving one node among the arcs seen so far are two such arcs of the whole list |
| CircuitPresolve.InitialScan | ortools/sat/cp_model_presolve.cc:1821-1826 | the loop's variables before the first arc describe the empty list of arcs |
| CircuitPresolve.ExtendArcs | ortools/sat/cp_model_presolve.cc:1827-1847 | the kept arcs, `next`, the used count and the start on one more arc, arc by arc as the loop updates them |
| CircuitPresolve.ExtendDistinct | ortools/sat/cp_model_presolve.cc:1830-1834 | a used arc from a node that already has one breaks the distinct tails, and any other arc keeps them |
| CircuitPresolve.ScanArc | ortools/sat/cp_model_presolve.cc:1828-1846 | one turn reports a conflict exactly when two used arcs now leave one node, and otherwise keeps the loop's variables right |
| CircuitPresolve.KeepArc | ortools/sat/cp_model_presolve.cc:1841-1846 | a kept arc is appended and the degrees stay the number of kept arcs entering and leaving each node |
| CircuitPresolve.CountsGrow | ortools/sat/cp_model_presolve.cc:1841-1842 | incrementing a node's degree counts the node once more |
| CircuitPresolve.RemoveFalseArcs | ortools/sat/cp_model_presolve.cc:1820-1847 | the arc loop stops on a conflict exactly when two used arcs leave one node, and otherwise ends with the kept arcs, `next`, the used count, the start and the degrees |
| CircuitPresolve.KeptNodes | ortools/sat/cp_model_presolve.cc:1841-1842 | the kept arcs enter (leave) a node exactly when an arc not fixed to false does |
| CircuitPresolve.ListEmpty | ortools/sat/cp_model_presolve.cc:1857 | a node's list is empty exactly when no arc ends at it |
| CircuitPresolve.CheckDegrees | ortools/sat/cp_model_presolve.cc:1855-1863 | the degree loop finds a node exactly when some node with arcs has lost all its kept arcs on one side |
| CircuitPresolve.DegreeLostMeaning | ortools/sat/cp_model_presolve.cc:1855-1863 | on the graph and the loop's degrees the test is: some node of an arc has every arc in, or every arc out, fixed to false |
| CircuitPresolve.Follow | ortools/sat/cp_model_presolve.cc:1868-1872 | a walk along `next` stays on the nodes or at -1 |
| CircuitPresolve.FollowCompose | ortools/sat/cp_model_presolve.cc:1868-1872 | walking `a + m` steps is walking `a`, then `m` |
| CircuitPresolve.FollowStaysOff | ortools/sat/cp_model_presolve.cc:1869 | a walk that has left the nodes never returns |
| CircuitPresolve.FollowInLoop | ortools/sat/cp_model_presolve.cc:1869-1872 | once the walk meets a node again, every later step is one it took before |
| CircuitPresolve.NotOnCycle | ortools/sat/cp_model_presolve.cc:1869-1873 | a walk that leaves the nodes, or meets a visited node other than the start, never returns to the start |
| CircuitPresolve.NoReturnAt | ortools/sat/cp_model_presolve.cc:1869-1873 | the same for one step count |
| CircuitPresolve.NoReturnAfterExit | ortools/sat/cp_model_presolve.cc:1869 | once off the nodes the walk stays off |
| CircuitPresolve.NoReturnInLoop | ortools/sat/cp_model_presolve.cc:1869-1872 | names the earlier step that a later one repeats |
| CircuitPresolve.FindSubCircuit | ortools/sat/cp_model_presolve.cc:1866-1873 | the walk marks exactly the nodes it visits, and comes back to the start exactly when the start lies on a cycle of `next` |
| CircuitPresolve.WalkOutcome | ortools/sat/cp_model_presolve.cc:1869-1873 | where the walk stops tells whether the start is on a cycle |
| CircuitPresolve.CycleIsClosed | ortools/sat/cp_model_presolve.cc:1873 | a closed walk has two nodes or more, each followed by the next one and the last by the start |
| CircuitPresolve.FixOutsideCircuit | ortools/sat/cp_model_presolve.cc:1876-1883 | every arc leaving a node outside the sub-circuit ends fixed: a self-loop to true, any other arc to false |
| CircuitPresolve.FixOutsideArc | ortools/sat/cp_model_presolve.cc:1877-1882 | one turn fixes one more arc that way |
| CircuitPresolve.UsedCycleOfWalk | ortools/sat/cp_model_presolve.cc:1866-1873 | a closed walk from the circuit start is a circuit of used arcs |
| CircuitPresolve.UsedCycleStays | ortools/sat/cp_model_presolve.cc:1876-1883 | used arcs stay used while the domains shrink |
| CircuitPresolve.CloseSubCircuit | ortools/sat/cp_model_presolve.cc:1865-1886 | when the walk closes, the used arcs hold a circuit through the visited nodes and every arc leaving another node is fixed; when it does not, nothing changes |
| CircuitPresolve.SinglesStay | ortools/sat/cp_model_presolve.cc:1786-1815 | used single arcs stay used while the domains shrink |
| CircuitPresolve.FixForcedArcs | ortools/sat/cp_model_presolve.cc:1767-1815 | builds the graph, and unless the model became infeasible every list of a single arc has it used |
| CircuitPresolve.NoneStranded | ortools/sat/cp_model_presolve.cc:1855-1863 | when the degree loop finds nothing, no node of an arc lost all its arcs on one side |
| CircuitPresolve.FinishCircuit | ortools/sat/cp_model_presolve.cc:1849-1925 | a stranded node makes the model infeasible; a used sub-circuit or only used self-loops remove the constraint; false arcs are dropped; otherwise nothing changes and no arc is false |
| CircuitPresolve.PresolveCircuit | ortools/sat/cp_model_presolve.cc:1763-1926 | an enforced circuit is left alone; two used arcs leaving one node, or a node of some arc with no arc left in or out, make the model infeasible; a used sub-circuit (with the arcs outside it fixed) or used self-loops only remove the constraint; else the false arcs are dropped and the lists shrink, or nothing changes |
| PresolveFixPoint.Insert | ortools/sat/cp_model_presolve.cc:2615 | putting a new element in its place keeps a list strictly increasing and adds exactly that element |
| PresolveFixPoint.SortedOf | ortools/sat/cp_model_presolve.cc:2597-2615 | the sorted newly queued part is strictly increasing and holds exactly the given constraints |
| PresolveFixPoint.Worklist.constructor | ortools/sat/cp_model_presolve.cc:2541-2546 | every constraint waits in the queue, in index order, and no (variable, constraint) pair has been recorded |
| PresolveFixPoint.Worklist.PopFront | ortools/sat/cp_model_presolve.cc:2549-2551 | the front constraint leaves the queue and is marked as no longer waiting, nothing else changes |
| PresolveFixPoint.Worklist.AddNewConstraints | ortools/sat/cp_model_presolve.cc:2556-2565 | the constraints a presolve call created join the back of the queue, in index order, marked as waiting |
| PresolveFixPoint.Worklist.Push | ortools/sat/cp_model_presolve.cc:2587-2590 | a constraint that does not wait joins the back of the queue; one that waits leaves the queue as it was |
| PresolveFixPoint.Worklist.RequeueUniqueVariables | ortools/sat/cp_model_presolve.cc:2574-2591 | every variable used by exactly one constraint has its pair recorded, and the constraints added to the queue are exactly those of a pair not recorded before that did not wait |
| PresolveFixPoint.Worklist.RequeueModified | ortools/sat/cp_model_presolve.cc:2593-2616 | the constraints added are ones touching a modified variable that did not wait, in increasing order, and all of them when the model stays feasible; the model becomes infeasible exactly when a modified domain is empty; the modified set is cleared |
| PresolveFixPoint.TouchedAdd | ortools/sat/cp_model_presolve.cc:2598-2611 | the constraints touching one more variable are the earlier ones and those using that variable |
| PresolveFixPoint.TheElement | ortools/sat/cp_model_presolve.cc:2579-2580 | the one element of a set of size one |
| VariableMapping.MapRef | ortools/sat/cp_model_presolve.cc:2951-2955 | the renamed reference names the variable's new index with the same polarity |
| VariableMapping.MapRefs | ortools/sat/cp_model_presolve.cc:2951-2966 | a list renamed entry by entry |
| VariableMapping.MapRefsAppend | ortools/sat/cp_model_presolve.cc:2956-2966 | renaming a concatenation renames each part |
| VariableMapping.ReferencesSplit | ortools/sat/cp_model_presolve.cc:2956-2959 | a constraint's references are its enforcement literals followed by those of its body |
| VariableMapping.MapConstraint | ortools/sat/cp_model_presolve.cc:2956-2959 | every reference of the constraint is renamed, and the kind of constraint, the circuit nodes, the coefficients and the domain stay |
| VariableMapping.MappedVariables | ortools/sat/cp_model_presolve.cc:2956-2959 | the variables a renamed constraint uses are the new indices of those it used |
| VariableMapping.LandsBelowSplit | ortools/sat/cp_model_presolve.cc:2956-2959 | the renamed references of a concatenation are in range when those of the whole are |
| VariableMapping.Pullback | ortools/sat/cp_model_presolve.cc:2947-3032 | the old variables read their values from their new indices |
| VariableMapping.MapRefValue | ortools/sat/cp_model_presolve.cc:2951-2955 | a reference reads, through the mapping, the value its renaming reads |
| VariableMapping.AllHoldMapped | ortools/sat/cp_model_presolve.cc:2956-2959 | all literals hold before renaming exactly when all renamed ones hold |
| VariableMapping.SomeHoldsMapped | ortools/sat/cp_model_presolve.cc:2956-2959 | some literal holds before renaming exactly when some renamed one holds |
| VariableMapping.CountHoldingMapped | ortools/sat/cp_model_presolve.cc:2956-2959 | renaming keeps the number of literals that hold |
| VariableMapping.WeightedSumMapped | ortools/sat/cp_model_presolve.cc:2956-2959 | renaming keeps the weighted sum of a linear constraint |
| VariableMapping.ConstraintMeaning | ortools/sat/cp_model_presolve.cc:2956-2959 | an assignment of the new variables satisfies the renamed constraint exactly when the old variables, read through the mapping, satisfy the original |
| VariableMapping.KeptRefsMembers | ortools/sat/cp_model_presolve.cc:2970-2978 | the kept references are exactly the renamings of the surviving ones, and all of them when every reference survives |
| VariableMapping.KeptTransformationsMembers | ortools/sat/cp_model_presolve.cc:2979-2988 | the kept transformations are exactly the surviving ones renamed, with their other fields |
| VariableMapping.RemapStrategy | ortools/sat/cp_model_presolve.cc:2970-2989 | a strategy keeps its other fields, with the surviving variables and transformations renamed in order |
| VariableMapping.KeptValues | ortools/sat/cp_model_presolve.cc:2995-3004 | one hinted value per kept reference |
| VariableMapping.KeptHintPairs | ortools/sat/cp_model_presolve.cc:2995-3004 | each kept pair is a surviving pair of the hint, renamed, with its own value |
| VariableMapping.CompactHint | ortools/sat/cp_model_presolve.cc:2993-3004 | the in-place loop leaves the kept references and values, in order, at the front of the two arrays |
| VariableMapping.CompactPair | ortools/sat/cp_model_presolve.cc:2996-3003 | one turn copies pair `i`, renamed, to the next free position exactly when its reference survives |
| VariableMapping.KeptStep | ortools/sat/cp_model_presolve.cc:2996-3003 | one more pair is kept, renamed, exactly when its reference survives |
| VariableMapping.RemapHint | ortools/sat/cp_model_presolve.cc:2991-3011 | the hint keeps its surviving pairs, renamed, and is removed when none survives |
| VariableMapping.ImageCount | ortools/sat/cp_model_presolve.cc:3015-3020 | the number of new slots is above every new index and reached by one |
| VariableMapping.LastPreimage | ortools/sat/cp_model_presolve.cc:3015-3022 | the last variable sent to a slot, or none |
| VariableMapping.MoveVariables | ortools/sat/cp_model_presolve.cc:3013-3026 | one slot per new index, each holding the definition of the last variable sent there, and an empty definition where none was |
| VariableMapping.DefinedMeansOnto | ortools/sat/cp_model_presolve.cc:3028-3031 | when surviving variables have non-empty domains, the final check passes exactly when every new index receives a variable |
| VariableMapping.InjectiveMovesDefinition | ortools/sat/cp_model_presolve.cc:3015-3022 | when no two variables share a new index, each surviving definition lands at its new index |
| VariableMapping.ApplyVariableMapping | ortools/sat/cp_model_presolve.cc:2947-3032 | the renumbered model exists exactly when every constraint and objective reference survives and every new slot is defined; it then has the moved definitions, every constraint and the objective renamed, each strategy and the hint cut to their surviving entries, renamed |
| Encoder.LowerBound | ortools/sat/integer.cc:182 | the first entry of the ordered map whose bound is at least `b`: every entry before it is below `b` |
| Encoder.UpperBound | ortools/sat/integer.cc:431 | the first entry whose bound is above `b`: every entry before it is at most `b` |
| Encoder.UpperBoundSplits | ortools/sat/integer.cc:431-434 | no entry is at most `b` exactly when the upper bound is the first entry; otherwise the entry before it has the largest bound at most `b` |
| Encoder.FindIsLookup | ortools/sat/integer.cc:411-423 | in an ordered map, looking up a bound finds the one entry with that bound, and nothing when there is none |
| Encoder.Insert | ortools/sat/integer.cc:206 | adding an entry adds exactly that entry |
| Encoder.InsertIsSorted | ortools/sat/integer.cc:206 | adding an entry keeps the bounds strictly increasing |
| Encoder.InsertFinds | ortools/sat/integer.cc:206 | after adding, the new bound finds its literal and every other bound finds what it found before |
| Encoder.InsertFindsAll | ortools/sat/integer.cc:206 | the same for every bound at once |
| Encoder.ClosestNeighbours | ortools/sat/integer.cc:182-200 | the entry at the lower bound is the closest above, the one before it the closest below, and no other entry is |
| Encoder.NeighbourClauses | ortools/sat/integer.cc:181-203 | the clauses are exactly "closest above implies new" and "new implies closest below", for the neighbours that exist |
| Encoder.ExtendsIsTransitive | ortools/sat/integer.cc:171-435 | the encoder only grows, over any number of calls |
| Encoder.AssociatedStays | ortools/sat/integer.cc:171-207 | an association, once made, stays as it was |
| Encoder.WithEntry | ortools/sat/integer.cc:173-206 | storing a literal for an integer literal changes only its variable's map, which gains exactly that entry, growing the table when the variable is new; every other lookup is unchanged |
| Encoder.EquivalenceClauses | ortools/sat/integer.cc:336-340 | the two clauses making two literals equivalent, none when they are the same |
| Encoder.NotFalsePairs | ortools/sat/integer.cc:115-127 | the candidates that have an equality literal not false, each with that literal |
| Encoder.NotFalsePairsOrdered | ortools/sat/integer.cc:115-127 | over non-decreasing (increasing) candidates the pairs come out non-decreasing (increasing) |
| Encoder.BoundsBetween | ortools/sat/integer.cc:144-149 | the bounds of the map strictly between the domain minimum and maximum |
| Encoder.BoundsBetweenAscending | ortools/sat/integer.cc:144-149 | over an ordered map they come out increasing |
| Encoder.FramedNonDecreasing | ortools/sat/integer.cc:141-151 | minimum, inner bounds, maximum form a non-decreasing list |
| Encoder.BoundsBetweenStopsAtHi | ortools/sat/integer.cc:145 | stopping at the first bound at or above the maximum loses nothing |
| Encoder.ChainClauses | ortools/sat/integer.cc:213-221 | one clause per pair of consecutive entries: the larger bound implies the smaller |
| Encoder.AllChainClausesLinkNeighbours | ortools/sat/integer.cc:212-222 | every pair of consecutive entries of every variable gets its implication |
| Encoder.StandsForKept | ortools/sat/integer.cc:243-264 | what a literal stands for stays so as the encoder grows |
| Encoder.TiedKept | ortools/sat/integer.cc:387-409 | a literal associated with an integer literal, or made equivalent to its associated literal, stays so as the encoder grows |
| Encoder.EqualityLinkedKept | ortools/sat/integer.cc:343-380 | an equality literal linked to the domain (false outside it, true on a singleton, the bound literal at the minimum or maximum, `(x == v) <=> (x >= v) and (x <= v)` in between) stays linked as the encoder grows |
| Encoder.EqualityMeaningKept | ortools/sat/integer.cc:308-381 | a literal that is the stored equality literal of `v == value`, or equivalent to it by two clauses, with the stored literal linked to a domain holding the current one, stays so as the encoder grows |
| Encoder.EqualityLinkedMirror | ortools/sat/integer.cc:343-344 | the literal stored under both `(v, value)` and `(NegationOf(v), -value)` is linked for the mirror key under the negated domain whenever it is linked for the first |
| Encoder.AllLinkedKept | ortools/sat/integer.cc:343-380 | every stored equality literal stays linked as the encoder grows, as long as every new key is still pending |
| Encoder.AllLinkedSettle | ortools/sat/integer.cc:343-380 | a pending key whose literal is now linked leaves the pending set, and every stored literal outside it is linked |
| Encoder.LinksCoverShrink | ortools/sat/integer.cc:574-575 | appending domains, or shrinking them in place, keeps every linked domain holding the current domain of its variable |
| Encoder.LinksCoverSettle | ortools/sat/integer.cc:343-344 | recording a link to a domain that holds the current one keeps every linked domain holding the current domain |
| Encoder.LinkBoth | ortools/sat/integer.cc:343-380 | a literal stored under both keys and linked to the domain of `v` settles both keys; the links stay within the domains |
| Encoder.LinkBothEnds | ortools/sat/integer.cc:343-380 | the literal linked to the domain of `v` is linked to it for `(v, value)` and to the negated domain for the mirror key |
| Encoder.MeaningOfStored | ortools/sat/integer.cc:336-341 | a literal equivalent by two clauses to the stored literal of a settled key means `v == value` (`EqualityMeaningIn`) |
| Encoder.MeaningsKept | ortools/sat/integer.cc:92-100 | what each literal chosen so far means stays as the encoder grows |
| Encoder.NegationInRange | ortools/sat/integer.cc:344 | the negation of a variable is a variable when variables come in pairs |
| Encoder.IntegerEncoder.GetAssociatedLiteral | ortools/sat/integer.cc:417-423 | a literal is returned exactly when the integer literal is associated |
| Encoder.IntegerEncoder.constructor | ortools/sat/integer.cc:36-435 | an empty encoder over the solver, with implications switched off and no true literal |
| Encoder.IntegerEncoder.GetTrueLiteral | ortools/sat/integer.cc:244-246 | the true literal, created once with a unit clause and then reused; nothing else changes |
| Encoder.IntegerEncoder.GetFalseLiteral | ortools/sat/integer.cc:247-249 | the negation of the true literal |
| Encoder.IntegerEncoder.AddImplications | ortools/sat/integer.cc:171-207 | the entry is stored in its variable's ordered map, after the clauses with its two neighbours when implications are on |
| Encoder.IntegerEncoder.HalfAssociateGivenLiteral | ortools/sat/integer.cc:387-409 | a new integer literal gets the given literal and records it in the reverse encoding; an associated one keeps its literal and gets the two equivalence clauses; either way the literal is tied to the integer literal (`TiedIn`); no other association changes |
| Encoder.IntegerEncoder.GetOrCreateAssociatedLiteral | ortools/sat/integer.cc:243-264 | the true literal at or below the minimum, the false literal above the maximum; otherwise the literal of the canonical `>=` key, else the negation of that of the canonical `<=` key, else a fresh literal attached to both |
| Encoder.IntegerEncoder.CreateAssociatedLiteral | ortools/sat/integer.cc:260-263 | a fresh literal becomes the literal of the canonical `>=` key and its negation that of the `<=` key |
| Encoder.IntegerEncoder.GetOrCreateLiteralAssociatedToEquality | ortools/sat/integer.cc:266-280 | the stored equality literal, or a fresh one that becomes it |
| Encoder.IntegerEncoder.AssociateToIntegerLiteral | ortools/sat/integer.cc:282-306 | outside the domain a unit clause fixes the literal; inside it, the canonical pair is associated, with the literal for each key that had none; for a bound strictly inside the domain the literal ends tied to the canonical `>=` key and its negation to the canonical `<=` key (`Encodes`) |
| Encoder.IntegerEncoder.AttachToCanonicalPair | ortools/sat/integer.cc:292-304 | both keys of the pair end associated, with the literal (its negation) where they had none, and the literal is tied to the `>=` key and its negation to the `<=` key |
| Encoder.IntegerEncoder.AssociateBothHalves | ortools/sat/integer.cc:293-294 | the two half-associations of the pair; the literal ends tied to the `>=` key and its negation to the `<=` key |
| Encoder.IntegerEncoder.AssociateExtremeValue | ortools/sat/integer.cc:299-304 | a pair reaching the maximum (minimum) gives that value an equality literal |
| Encoder.IntegerEncoder.AssociateToIntegerEqualValue | ortools/sat/integer.cc:308-381 | the value and its mirror get the literal when new; otherwise the literal is made equivalent to the stored one; a new literal is linked to the domain (`LinkedToDomain`): fixed false outside it, true on a singleton, equal to the bound literal at the minimum or maximum, and tied to both bounds in between; when the key is not pending (always, outside an insertion in progress) the literal means `v == value` (`EqualityMeaningIn`): it is the stored literal or equivalent to it by two clauses, and the stored literal is linked to a domain holding the current one; `Linked()` is kept |
| Encoder.IntegerEncoder.LinkedToDomainStays | ortools/sat/integer.cc:357-380 | the link just made, whose both-bounds case sits in the last three clauses, holds with those clauses anywhere in the clause list, the form that lasts |
| Encoder.IntegerEncoder.EquateWithRepresentative | ortools/sat/integer.cc:332-342 | exactly the two equivalence clauses with the stored literal are added |
| Encoder.IntegerEncoder.InsertEqualityLiteral | ortools/sat/integer.cc:343-381 | the literal is stored for the value and its mirror and linked to the domain (`LinkedToDomain`): fixed false outside it, true on a singleton, the `<= min` literal at the minimum, the `>= max` literal at the maximum, and tied to both bounds in between; both keys are linked in `Linked()` when it returns |
| Encoder.IntegerEncoder.LinkStoredEquality | ortools/sat/integer.cc:346-380 | the stored literal is fixed or tied to the bounds (`LinkedToDomain`), and both of its keys leave the pending set with `Linked()` kept |
| Encoder.IntegerEncoder.FixEqualityLiteral | ortools/sat/integer.cc:346-354 | outside the domain the unit clause `not literal` is added, on the singleton `{value}` the unit clause `literal`; nothing else changes and the literal is linked (`LinkedToDomain`) |
| Encoder.IntegerEncoder.SettleLink | ortools/sat/integer.cc:343-380 | a literal linked to the domain has both of its keys taken out of the pending set, with `Linked()` kept |
| Encoder.IntegerEncoder.MarkLinked | ortools/sat/integer.cc:343-380 | both keys are recorded as linked to the current domain of `v` and to its negation, and leave the pending set |
| Encoder.IntegerEncoder.RecordEquality | ortools/sat/integer.cc:343-344 | the value and its mirror map to the literal, and both leave the values still missing an equality literal |
| Encoder.IntegerEncoder.DetectLiteralView | ortools/sat/integer.cc:315-330 | a literal without a view becomes the view of a 0/1 variable at value 1, or of its negation at value -1; otherwise nothing changes |
| Encoder.IntegerEncoder.LinkEqualityToBounds | ortools/sat/integer.cc:357-380 | at the minimum the literal is tied to `var <= min` and its negation to the next key, at the maximum to `var >= max`, and in between it is linked to both bounds (`LinkedToDomain`); the encoder only grows |
| Encoder.IntegerEncoder.LinkToBothBounds | ortools/sat/integer.cc:374-380 | the last three clauses say the literal holds exactly when the literals standing for `v >= value` and `v <= value` both hold |
| Encoder.IntegerEncoder.BoundLiterals | ortools/sat/integer.cc:374-377 | the two literals stand for `v >= value` and `v <= value` |
| Encoder.IntegerEncoder.LiteralStandingFor | ortools/sat/integer.cc:243-264 | the literal returned stands for the integer literal asked for |
| Encoder.IntegerEncoder.CollectEqualities | ortools/sat/integer.cc:115-127 | the first candidate whose equality literal is true, alone, or else every candidate whose literal exists and is not false |
| Encoder.IntegerEncoder.FullDomainEncoding | ortools/sat/integer.cc:111-128 | values of the domain in increasing order with their equality literals, none false; when one is true only the smallest true one; otherwise every value not false is listed |
| Encoder.IntegerEncoder.FullReadBack | ortools/sat/integer.cc:115-127 | the collection over the sorted domain values means what `FullDomainEncoding` promises |
| Encoder.IntegerEncoder.FirstTrueValue | ortools/sat/integer.cc:120-121 | when some equality holds, the smallest such value is the one returned |
| Encoder.IntegerEncoder.PartialDomainEncoding | ortools/sat/integer.cc:130-166 | nothing for an unseen variable; otherwise the collection over minimum, inner bounds of the map and maximum, in non-decreasing order |
| Encoder.IntegerEncoder.AddAllImplicationsBetweenAssociatedLiterals | ortools/sat/integer.cc:209-223 | implications are switched on and the chain clauses of every map are added |
| Encoder.IntegerEncoder.AddAllChainClauses | ortools/sat/integer.cc:212-222 | the chain clauses of every variable, variable after variable |
| Encoder.IntegerEncoder.AddChainClauses | ortools/sat/integer.cc:213-221 | the chain clauses of one map, in order |
| Encoder.IntegerEncoder.SearchForLiteralAtOrBefore | ortools/sat/integer.cc:425-435 | nothing when every bound is above; otherwise the literal of the largest bound at or below |
| Encoder.IntegerEncoder.FullyEncodeVariable | ortools/sat/integer.cc:36-109 | every value of the domain and its mirror get an equality literal, and the variable and its negation are marked fully encoded; the values are the domain in increasing order, and each chosen literal means `v == value` (`EqualityMeaningIn`): it is the stored literal of its value, or is made equivalent to it, and the stored literal is linked to a domain holding the current one, with `(x == v) <=> (x >= v) and (x <= v)` for an inner value |
| Encoder.IntegerEncoder.EncodeValues | ortools/sat/integer.cc:49-100 | every value gets an equality literal, and the literal returned for it is the stored literal of `v == value`, or equivalent to it, with the stored literal linked (`MeaningsIn`) |
| Encoder.IntegerEncoder.ChooseEqualityLiterals | ortools/sat/integer.cc:49-65 | the true literal for one value, a literal and its negation for two, else the stored equality literal or a fresh one per value |
| Encoder.IntegerEncoder.AssociateConsecutiveBounds | ortools/sat/integer.cc:71-91 | every pair `v <= values[k]` / `v >= values[k + 1]` ends associated |
| Encoder.IntegerEncoder.AssociateBoundsAt | ortools/sat/integer.cc:72-90 | one pair of consecutive values ends associated |
| Encoder.IntegerEncoder.AssociatePairOfBounds | ortools/sat/integer.cc:85-89 | both bounds end associated |
| Encoder.IntegerEncoder.AssociateAllEqualities | ortools/sat/integer.cc:92-100 | every value and its mirror have an equality literal, and each `literals[k]` is the stored literal of `v == values[k]`, or equivalent to it, with the stored literal linked to a domain holding the current one (`MeaningsIn`); what one step establishes survives the later ones |
| Encoder.IntegerEncoder.AssociateNext | ortools/sat/integer.cc:97-99 | one more literal is associated with its value and means it, and the earlier ones keep their meaning |
| Encoder.IntegerEncoder.MarkFullyEncoded | ortools/sat/integer.cc:102-108 | the variable and its negation are added to the fully encoded set |
| Domains.Canonicalize | ortools/sat/integer.cc:225-241 | the pair `(after, before)` returned is the canonical one: `x >= bound` holds on the domain exactly when `x >= after` does, and `x < bound` exactly when `x <= before` |
| Domains.CanonicalPairIsUnique | ortools/sat/integer.cc:225-241 | the canonical pair of a threshold is unique |
| Domains.CanonicalizeIsIdempotent | ortools/sat/integer.cc:251-258 | every threshold between `before` and `after` has the same canonical pair, so canonicalizing again changes nothing |
| Domains.EnumerateValues | ortools/sat/integer.cc:41-47 | the values of the domain, in increasing order |
| Domains.IntersectionWith | ortools/sat/cp_model_presolve.cc:111-116 | the values common to both domains, as a valid domain |
| Domains.IsIncludedIn | ortools/sat/cp_model_presolve.cc:111-116 | true exactly when every value of the first domain is a value of the second |
| Domains.IntersectionShrinks | ortools/sat/cp_model_presolve.cc:111-116 | intersecting only removes values, and a change removes at least one |
| Domains.NegationValues | ortools/sat/integer.cc:574-575 | the negated domain holds `-x` exactly when the domain holds `x` |
| Domains.NegationIsInvolution | ortools/sat/integer.cc:574-575 | negating twice gives the domain back |
| Refs.NegatedRefIsInvolution | ortools/sat/cp_model_presolve.cc:2951-2955 | negating a reference flips its polarity, keeps its variable and undoes itself |
| Refs.RefFromVariableAndPolarity | ortools/sat/cp_model_presolve.cc:2951-2955 | a reference is determined by its variable and polarity |
| IntegerTypes.NegationOfPairs | ortools/sat/integer.cc:529-544 | variables come in pairs: the negation of a variable is the other member of its pair, and negating twice gives it back |
| IntegerTypes.CapProd | ortools/sat/integer.cc:701-702 | the product saturated to the 64-bit range |
| Trail.IntegerTrail.AddIntegerVariable | ortools/sat/integer.cc:520-550 | only at level zero: the new variable `i` is even, its negation `i + 1`; both get a `VarInfo` at their bounds `lb` / `-ub`, a level-zero entry at their own index, and the initial domains `[lb, ub]` / `[-ub, -lb]`; every invariant of the trail is kept |
| Trail.IntegerTrail.AddIntegerVariableWithDomain | ortools/sat/integer.cc:552-558 | a new pair created with the bounds of `domain`, then cut to it: on success every value left in the initial domain of `i` is in `domain` |
| Trail.IntegerTrail.GetOrCreateConstantIntegerVariable | ortools/sat/integer.cc:616-629 | a constant already recorded returns its variable and changes nothing; otherwise a new pair with domains `{value}` / `{-value}` is created and recorded for `value` and, when `value != 0`, its negation for `-value`; the result always has domain `{value}` |
| Trail.IntegerTrail.RecordConstant | ortools/sat/integer.cc:618-626 | the constant map gains `value -> v` and, for a nonzero value, `-value -> NegationOf(v)`, keeping every constant's domain a single value |
| Trail.IntegerTrail.AppendTrailPair | ortools/sat/integer.cc:534-548 | appends `VarInfo(lb, i)`, `VarInfo(-ub, i + 1)`, their level-zero entries with no previous entry and their cache slots; the trail invariants and the interval cursor still hold |
| Trail.IntegerTrail.AppendDomainPair | ortools/sat/integer.cc:544-546 | the initial domains of the pair are `[lb, ub]` and `[-ub, -lb]`, appended after the existing ones, and the encoder stays valid |
| Trail.IntegerTrail.FindLowestTrailIndexThatExplainBound | ortools/sat/integer.cc:637-672 | `-1` exactly when the bound held at level zero; otherwise the first entry of the variable's chain whose bound reaches it, past the level-zero entries, whose previous entry is below it; the cache of that variable is set to the result |
| Trail.IntegerTrail.ExplainingEntries | ortools/sat/integer.cc:1086-1094 | every returned index is a bound change past level zero, and every literal not true at level zero has its lowest explaining entry among them |
| Trail.IntegerTrail.MergeReasonInto | ortools/sat/integer.cc:1083-1097 | the output is `output` followed by the merged explanation of the queued entries, processed in strictly decreasing trail order; for every literal not true at level zero a processed entry of its variable has a bound at least as large |
| Trail.IntegerTrail.ReasonFor | ortools/sat/integer.cc:1075-1081 | the reason of one literal is the merged explanation starting from an empty output, and a processed entry implies the literal when it is not true at level zero |
| Trail.IntegerTrail.Reason | ortools/sat/integer.cc:1208-1223 | the reason of a Boolean literal propagated by this trail is the fresh literals of the literal reason of its entry, then the expansion of the entries its integer reason depends on (`ExplainsEntry`) |
| Trail.IntegerTrail.Untrail | ortools/sat/integer.cc:485-518 | the propagation index becomes the minimum of itself and `literalTrailIndex`; when the trail holds no level past the current one nothing else changes; otherwise the trail is cut to the size saved when that level was entered, the levels to the current one, the reason starts and buffers to the sizes saved with them, and the interval cursor is restored |
| Trail.IntegerTrail.BacktrackTo | ortools/sat/integer.cc:494-517 | every current bound becomes the bound of the variable's last entry in the cut trail, and the stored reasons, levels and cursor are cut and restored, keeping every invariant |
| Trail.IntegerTrail.CutTrail | ortools/sat/integer.cc:495-507 | the variables take the restored values, the trail and the levels are cut to `target` and `level`, the saved cursor is put back |
| Trail.IntegerTrail.CutReasons | ortools/sat/integer.cc:510-517 | the reason levels are cut to `level`, the reason starts to the first `n` and both buffers to the given sizes |
| Trail.IntegerTrail.BoundIsCurrent | ortools/sat/integer.cc:503-505 | the current bound of every variable is the bound of its last entry on the trail, and its negation is a variable |
| Trail.IntegerTrail.ReportConflict | ortools/sat/integer.cc:901-902 | fails, and the conflict of the Boolean solver is `literalReason` followed by the explanation of `integerReason` |
| Trail.IntegerTrail.UpperBoundConflict | ortools/sat/integer.cc:913-941 | fails with the conflict made of `literalReason` and the explanation of `integerReason` plus `v <= bound - 1` |
| Trail.IntegerTrail.EnqueueAssociatedLiteral | ortools/sat/integer.cc:727-775 | an unassigned literal becomes true and is appended to the Boolean trail, recorded at a positive level as having the reason of the entry about to be pushed; a true literal changes nothing; a false one fails, with the conflict `literalReason`, the literal and the explanation of `integerReason` |
| Trail.IntegerTrail.SearchedLiteralExists | ortools/sat/integer.cc:971-973 | the literal associated with the strongest bound at most `i` is a variable of the Boolean solver |
| Trail.IntegerTrail.StoreReason | ortools/sat/integer.cc:995-1010 | the reason starts gain the old buffer sizes and the buffers gain `literalReason` and `integerReason`; the new reason holds for the entry about to be pushed |
| Trail.IntegerTrail.AppendEntry | ortools/sat/integer.cc:1015-1022 | the trail gains the entry `v >= bound` linked to the old current entry of `v`, which becomes the new entry; every other variable keeps its bound |
| Trail.IntegerTrail.PushBound | ortools/sat/integer.cc:995-1023 | at a positive level, one entry is pushed: with the reason index of `sameReason` when that is an entry (the buffers unchanged), else with a newly stored reason; only the bound of `v` changes |
| Trail.IntegerTrail.SetLevelZeroBound | ortools/sat/integer.cc:982-984 | at level zero, the bound of `v` is written in its `VarInfo` and in its level-zero entry; every other bound is kept |
| Trail.IntegerTrail.Enqueue | ortools/sat/integer.cc:871-1024 | an ignored variable or a bound not above the current one returns true and changes nothing; on a domain with holes and no interval reaching the bound, a conflict; otherwise the bound raised to the next value of the domain goes on (`RaisedOutcome`); on success the bound holds; the trail grows by at most one entry |
| Trail.IntegerTrail.EnqueueWithHoles | ortools/sat/integer.cc:894-907 | the cursor skips to the first interval reaching the bound: a conflict when none does, otherwise the start of that interval (`RaisedBoundIsNextValue`) is enqueued |
| Trail.IntegerTrail.EnqueueRaised | ortools/sat/integer.cc:913-961 | above the upper bound, a conflict with the weakest upper bound that still conflicts; otherwise `v` is marked modified and the bound is placed (`RaisedOutcome`) |
| Trail.IntegerTrail.EnqueueMarked | ortools/sat/integer.cc:959-961 | `v` is in the modified variables and the bound is placed (`Placed`) |
| Trail.IntegerTrail.EnqueueImplied | ortools/sat/integer.cc:971-979 | the literal of the strongest bound at most `v >= bound` is enqueued, then the bound is placed (`Placed`) |
| Trail.IntegerTrail.EnqueueStrongestLiteral | ortools/sat/integer.cc:971-979 | the Boolean solver and the trail stay valid and the reason stays valid |
| Trail.IntegerTrail.PlaceBound | ortools/sat/integer.cc:982-1023 | the bound of `v` is at least `bound`; at a positive level the entry is pushed and the call succeeds; at level zero a success leaves every remaining value of the domain at least `bound` |
| Trail.IntegerTrail.EnqueueAtLevelZero | ortools/sat/integer.cc:982-991 | at level zero, the bound is written in place and, on success, the initial domain is cut so that every remaining value is at least `bound` |
| Trail.IntegerTrail.WriteLevelZeroBound | ortools/sat/integer.cc:983-988 | the bound of `v` is exactly `bound` and the conflict is cleared |
| Trail.IntegerTrail.UpdateInitialDomain | ortools/sat/integer.cc:564-614 | a domain containing every current value changes nothing and succeeds; a disjoint one fails and changes nothing; on success the new domain lies within both the old domain and `domain` |
| Trail.IntegerTrail.PropagateNewDomain | ortools/sat/integer.cc:577-607 | after the domain became `d`, on success the domain of `v` lies within `d` |
| Trail.IntegerTrail.EnqueueDomainBounds | ortools/sat/integer.cc:586-589 | the bounds of `v` are moved to the minimum and maximum of `d` with no reason, keeping every invariant |
| Trail.IntegerTrail.EnqueueWithNewReason | ortools/sat/integer.cc:816-820 | `Enqueue` with a reason of its own; on success the bound holds unless the variable is ignored |
| Trail.IntegerTrail.StillRemaining | ortools/sat/integer.cc:564-575 | a value still in the domain of `v` was a remaining value at any earlier time: domains only shrink |
| Trail.IntegerTrail.SetDomainPair | ortools/sat/integer.cc:574-580 | `v` gets `d`, its negation the mirrored domain, the cursors are reset for domains with holes, and the set of remaining values strictly shrinks |
| Trail.IntegerTrail.FalsifyLiteral | ortools/sat/integer.cc:602-605 | succeeds exactly when the literal was not true; then it is false and only its variable changed; on failure the assignment is unchanged |
| Trail.IntegerTrail.FixExcludedLiterals | ortools/sat/integer.cc:594-607 | only literals of values outside `d` are falsified; on success every such literal is false; a failure names one that is true |
| TrailModel.LastIndexOf | ortools/sat/integer.cc:1018-1022 | the index of the last entry of a variable, or -1: no later entry is of that variable |
| TrailModel.LastIndexOfIsUnique | ortools/sat/integer.cc:1018-1022 | the last entry of a variable is the only index with those two properties |
| TrailModel.ChainBoundsIncrease | ortools/sat/integer.cc:1015-1022 | along the entries of one variable the bounds strictly increase |
| TrailModel.ChainLinkedPrefix | ortools/sat/integer.cc:500-507 | a prefix of a linked trail is linked, so cutting the trail keeps the chains |
| TrailModel.WalkToLowest | ortools/sat/integer.cc:658-671 | walking back the chain from an entry reaching `b` ends at the first entry reaching `b`, whose previous entry is below `b` |
| TrailModel.DomainPairKeepsEncoder | ortools/sat/integer.cc:544-546 | the domains of a new pair keep the domains valid, mirrored, and covered by their keys |
| TrailModel.NewPairKeepsState | ortools/sat/integer.cc:520-550 | at level zero a new pair of variables keeps the whole state of the trail consistent |
| TrailBacktrack.RestoreVars | ortools/sat/integer.cc:500-506 | walking back from the end of the trail to `target` gives each variable the bound and index of its last entry before `target` |
| TrailBacktrack.TruncateKeepsLevels | ortools/sat/integer.cc:494-517 | cutting the trail, the levels and the reasons at a level keeps the levels and reason starts in order |
| TrailBacktrack.TruncateKeepsReasons | ortools/sat/integer.cc:507-517 | every kept entry still has a stored reason and that reason held before it |
| TrailBacktrack.TruncateKeepsCursors | ortools/sat/integer.cc:488 | the cursor saved when a level was entered fits the trail cut there |
| TrailBacktrack.BacktrackKeepsState | ortools/sat/integer.cc:485-518 | backtracking to a level restores every bound to its last entry and keeps every invariant of the trail |
| TrailEnqueue.FirstIntervalReaching | ortools/sat/integer.cc:898-900 | the first interval of the domain that ends at or after the bound: all earlier ones end below it |
| TrailEnqueue.RaisedBoundIsNextValue | ortools/sat/integer.cc:904-905 | on a domain with holes the raised bound is the smallest value of the domain at or above the bound |
| TrailEnqueue.NoIntervalReaches | ortools/sat/integer.cc:901-902 | when no interval reaches the bound no value of the domain is at or above it, so the conflict is justified |
| TrailEnqueue.SkipHoles | ortools/sat/integer.cc:896-900 | the cursor only moves forward past intervals ending below the bound; from a fitting cursor it lands on the first interval reaching it |
| TrailEnqueue.LastIndexOfPushed | ortools/sat/integer.cc:1015-1022 | a pushed entry becomes the last entry of its variable and leaves the others' |
| TrailEnqueue.CursorFitsRaised | ortools/sat/integer.cc:904 | after a bound change the cursor still fits once the cursor of `v` moves to the found interval |
| TrailEnqueue.AppendReasonKeepsState | ortools/sat/integer.cc:995-1010 | storing a new reason not yet referenced keeps every invariant |
| TrailEnqueue.NewReasonHeld | ortools/sat/integer.cc:995-1010 | an integer reason made of current bounds held before the entry pushed with it |
| TrailEnqueue.ReusedReasonHeld | ortools/sat/integer.cc:1011-1012 | the reason of an earlier entry also held before a new entry that shares it |
| TrailEnqueue.PushKeepsCurrent | ortools/sat/integer.cc:1015-1022 | the pushed entry becomes the current entry of `v`; other variables keep theirs |
| TrailEnqueue.PushKeepsLinks | ortools/sat/integer.cc:1018 | the pushed entry links to the previous entry of `v`, of smaller bound, and earlier links stay |
| TrailEnqueue.PushKeepsState | ortools/sat/integer.cc:995-1023 | at a positive level, pushing `v >= bound` with a held reason keeps every invariant and changes only the bound of `v` |
| TrailEnqueue.LevelZeroKeepsState | ortools/sat/integer.cc:982-984 | writing a larger bound in place at level zero keeps every invariant |
| TrailEnqueue.DomainPairStaysMirrored | ortools/sat/integer.cc:574-575 | giving `v` a smaller domain and its negation the mirror keeps every domain mirrored |
| TrailEnqueue.DomainPairKeepsLinks | ortools/sat/integer.cc:574-575 | giving `v` a smaller domain and its negation the mirror keeps every linked equality domain holding the current one |
| TrailEnqueue.AppendKeepsLinks | ortools/sat/integer.cc:544-546 | appending the domains of a new pair keeps every linked equality domain holding the current one |
| TrailEnqueue.DomainPairShrinks | ortools/sat/integer.cc:567-575 | a strictly smaller domain strictly shrinks the remaining values |
| TrailEnqueue.IntersectionCases | ortools/sat/integer.cc:567-573 | the intersection equals the old domain when `domain` holds all of it, and is empty when they are disjoint |
| TrailEnqueue.WithConstantOk | ortools/sat/integer.cc:618-626 | recording a new one-value pair as a constant keeps constants paired with their one-value domains |
| TrailEnqueue.ExcludedFalsifiedStep | ortools/sat/integer.cc:594-607 | one step of the walk over the value literals keeps "only excluded values were falsified" |
| TrailReasons.WithoutLevelZeroMembers | ortools/sat/integer.cc:717-725 | exactly the literals of the reason not true at level zero are kept, and none is added |
| TrailReasons.WithoutLevelZeroAppend | ortools/sat/integer.cc:717-725 | the filter keeps the order of the reason: filtering a concatenation filters each part |
| TrailReasons.WithoutLevelZeroIsIdempotent | ortools/sat/integer.cc:717-725 | filtering twice is filtering once |
| TrailReasons.RemoveLevelZeroBounds | ortools/sat/integer.cc:717-725 | the compacted reason is exactly the literals not true at level zero, in order |
| TrailReasons.NewBoundsListEachVariableOnce | ortools/sat/integer.cc:1256-1266 | the new bounds list every variable with an entry past level zero, each once |
| TrailReasons.NewBoundsAreFirstEntries | ortools/sat/integer.cc:1256-1266 | each new bound is the first entry of its variable past the level-zero entries |
| TrailReasons.AppendNewBounds | ortools/sat/integer.cc:1256-1266 | appends to `output` the first new bound of every variable, in trail order |
| TrailReasons.LowestIsFirstReaching | ortools/sat/integer.cc:637-672 | the lowest explaining entry is the first entry of the variable reaching the bound |
| TrailReasons.FindLowestIndex | ortools/sat/integer.cc:637-672 | the explaining index of a current literal: -1 at level zero, otherwise its lowest explaining entry |
| TrailReasons.ExplainedBefore | ortools/sat/integer.cc:1044-1050 | a literal that held before entry `t` still holds and its explaining entry precedes `t` |
| TrailReasons.Dependencies | ortools/sat/integer.cc:1027-1057 | the explaining entries past level zero of the integer reason of entry `t`, in order, all before `t` |
| TrailReasons.FreshLiteralsAreNew | ortools/sat/integer.cc:1059-1073 | the literals added have distinct variables, none already added, and together they cover every variable of the reason |
| TrailReasons.AppendLiteralsReason | ortools/sat/integer.cc:1059-1073 | appends exactly the literals of the entry's reason whose variable is not yet added, and adds their variables |
| TrailReasons.PickCandidate | ortools/sat/integer.cc:690-713 | -1 exactly when no literal can be lowered within the slack; otherwise one that fits with the latest entry |
| TrailReasons.LowerOne | ortools/sat/integer.cc:700-712 | lowering one literal to the previous entry of its variable keeps it on the chain, decreases the measure and consumes at most the slack left |
| TrailReasons.RelaxLinearReason | ortools/sat/integer.cc:678-715 | unchanged at slack 0; each literal keeps its variable with a bound no larger, lowered along its chain; the consumed total is at most the slack; it stops only when no literal fits in what is left |
| TrailMerge.MergeReasonIntoInternal | ortools/sat/integer.cc:1099-1206 | entries are processed from the latest down, each once; the output is the merged explanation; every queued entry and dependency is implied by a processed entry of its variable at least as late; the per-variable scratch is zero again |
| TrailMerge.MergeQueued | ortools/sat/integer.cc:1083-1097 | expanding the queue of explaining entries implies each literal not true at level zero by a processed entry |
| TrailMerge.ReasonOfEntry | ortools/sat/integer.cc:1208-1223 | the reason of an entry is its fresh literal reason followed by the expansion of its integer reason |
| TrailMerge.ClearSettled | ortools/sat/integer.cc:1202-1205 | the scratch vector is all zero again |
| Watcher.GenericLiteralWatcher.Register | ortools/sat/integer.cc:1436-1457 | the new id is the number of propagators so far; it gets priority 1, is idempotent, has no watch indices and levels 0, its flag is set and it is queued exactly once, at the back of queue 1; nothing else changes |
| Watcher.GenericLiteralWatcher.AddSlot | ortools/sat/integer.cc:1439-1445 | every per-propagator table gains the default slot of a new propagator |
| Watcher.GenericLiteralWatcher.SetPropagatorPriority | ortools/sat/integer.cc:1459-1464 | the priority of `id` is set; queues are added, empty, only when the priority is beyond the last one, and the existing queues are untouched |
| Watcher.GenericLiteralWatcher.NotifyThatPropagatorMayNotReachFixedPointInOnePass | ortools/sat/integer.cc:1466-1469 | only the idempotence flag of `id` changes, to false |
| Watcher.GenericLiteralWatcher.WatchLiteral | ortools/sat/integer.cc:1286-1287 | the slot of literal `l` gains the entry `(id, watchIndex)` at its back, the table growing with empty slots when needed; every other slot is unchanged |
| Watcher.GenericLiteralWatcher.WatchLowerBound | ortools/sat/integer.cc:1300-1301 | the slot of variable `v` gains the entry `(id, watchIndex)` at its back; every other slot is unchanged |
| Watcher.AddWatch | ortools/sat/integer.cc:1286-1287 | the table grows to hold slot `i`, which gains `e` at its back; the other slots are kept or empty |
| Watcher.GenericLiteralWatcher.UpdateCallingNeeds | ortools/sat/integer.cc:1282-1312 | the queues, flags and watch indices become `WakeAll` of the entries of the new literals then of the modified variables; the propagation index reaches the trail size; the modified variables are forgotten; each propagator stays queued exactly when its flag is set |
| Watcher.GenericLiteralWatcher.WakeForLiterals | ortools/sat/integer.cc:1284-1296 | waking for the literals pushed since the last round is `WakeAll` of their table entries, literal after literal |
| Watcher.GenericLiteralWatcher.WakeForVariables | ortools/sat/integer.cc:1299-1310 | waking for the modified variables is `WakeAll` of their table entries, variable after variable |
| Watcher.GenericLiteralWatcher.WakeEntries | ortools/sat/integer.cc:1287-1295 | waking the entries in order is `WakeAll` of them |
| WatcherQueues.WakeKeeps | ortools/sat/integer.cc:1288-1294 | one wake-up sets the flag of its propagator, pushes it on the queue of its priority only when the flag was clear, and keeps every propagator queued exactly when its flag is set |
| WatcherQueues.WakeAllKeeps | ortools/sat/integer.cc:1282-1312 | a wake-up round keeps every propagator queued at most once, exactly when its flag is set |
| WatcherQueues.WakeAllFlags | ortools/sat/integer.cc:1282-1312 | after a round a flag is set exactly when it was set before or an entry names the propagator, and every queue only grew at its back |
| WatcherQueues.NeverRequeued | ortools/sat/integer.cc:1288 | a propagator whose flag is already set is never queued a second time |
| WatcherQueues.WakeAllIndices | ortools/sat/integer.cc:1292-1294 | each propagator gains exactly the non-negative watch indices its entries carry, in order |
| WatcherQueues.WakeAllAppend | ortools/sat/integer.cc:1284-1310 | waking the literal entries then the variable entries is waking their concatenation |
| WatcherQueues.PopKeeps | ortools/sat/integer.cc:1323-1324 | the front of a queue has its flag set, and once taken off it is the running propagator, in no queue |
| WatcherQueues.FinishKeeps | ortools/sat/integer.cc:1355-1374 | clearing the flag of the running propagator restores "queued exactly when flagged" |
| Watcher.GenericLiteralWatcher.Propagate | ortools/sat/integer.cc:1314-1405 | the trail grows by the literals of the calls made; all but the last call succeeded; the round fails exactly when the last call failed; a success leaves no modified variable and either stops after a call that pushed a literal, runs out of calls, or empties every queue; the calls follow the schedule (`Scheduled`), and the queues, flags and watch indices are replayed call by call (`Replayed`) from the first wake-up of the pending literals and variables to the state the round leaves |
| Watcher.ScheduledStep | ortools/sat/integer.cc:1320-1376 | a call to the front of the lowest non-empty queue, or of the same queue after a call that enqueued a bound, which leaves the schedule its outcome gives (`AfterCall`), extends both the schedule and the replay of the round |
| Watcher.ReplayedCalls | ortools/sat/integer.cc:1320-1376 | in a replayed round the first call sees the schedule after the first wake-up, each later call sees the schedule its predecessor left (its front popped, then woken for its literals and variables, or only finished when it failed), and the round ends in the schedule the last call left |
| Watcher.SucceededStep | ortools/sat/integer.cc:1345-1358 | a successful call extends the trail by its literals and keeps the round successful |
| Watcher.GenericLiteralWatcher.DrainQueue | ortools/sat/integer.cc:1322-1402 | calls the fronts of queue `p` in order; a stop comes from a failed call, a pushed literal or the calls running out; otherwise queue `p` and all lower ones are empty unless a bound was enqueued, which forces a restart from priority 0; the replay of the round is extended by every call made |
| Watcher.GenericLiteralWatcher.CallNext | ortools/sat/integer.cc:1322-1376 | calls the front of queue `p` with the outcome of the next call and extends the schedule and the replay of the round by it |
| Watcher.GenericLiteralWatcher.CallFront | ortools/sat/integer.cc:1323-1376 | the called propagator is the front of queue `p`; the result is the call's; the new queues, flags and watch indices are those of `AfterCall`: the front popped, then the run of the call; a call that pushed and enqueued nothing leaves the queues with that front removed |
| Watcher.GenericLiteralWatcher.RunCall | ortools/sat/integer.cc:1345-1376 | the result is the call's; on success the watcher has caught up with the trail; the new queues, flags and watch indices are `AfterRun`: a failure only clears the flag and watch indices of `id`; a success wakes the watchers of the pushed literals and modified variables, with the flag of an idempotent `id` still set, then clears it; a call that changed nothing leaves the queues as they were |
| Watcher.GenericLiteralWatcher.Requeue | ortools/sat/integer.cc:1365-1374 | after a call, the queues, flags and watch indices are `WakeAll` of the entries of the literals it pushed and of the variables it modified; the watcher has caught up with the trail |
| Watcher.CallEntries | ortools/sat/integer.cc:1284-1310 | when the watch tables fit the propagators, every entry a call wakes (those of its pushed literals, then of its modified variables) names a registered propagator |
| Watcher.GenericLiteralWatcher.PopFront | ortools/sat/integer.cc:1323-1324 | the id is the old front of queue `p`, which loses exactly that element |
| Watcher.GenericLiteralWatcher.Finish | ortools/sat/integer.cc:1367-1374 | the running propagator's watch indices are dropped and its flag cleared |
| Watcher.GenericLiteralWatcher.SyncLevels | ortools/sat/integer.cc:1328-1342 | both levels of `id` become `level` unless they and `level` are all equal (or equal with `level` below them), and are unchanged otherwise |
| Watcher.GenericLiteralWatcher.Untrail | ortools/sat/integer.cc:1407-1433 | nothing changes when the watcher did not propagate past `trailIndex`; otherwise every queue is emptied, every watch index dropped, every flag cleared, the modified variables forgotten, the propagation index set back and every greatest common level capped at `level` |
| Watcher.GenericLiteralWatcher.ClearQueues | ortools/sat/integer.cc:1415-1420 | every queue is empty and every watch index dropped, the number of queues unchanged |
| Watcher.CapAt | ortools/sat/integer.cc:1430-1432 | each level becomes the minimum of itself and `level` |
| Watcher.Done | ortools/sat/integer.cc:1354-1373 | finishing a propagator keeps every queue and the sizes of the flag and watch-index tables |
| Watcher.GenericLiteralWatcher.constructor | ortools/sat/integer.cc:1268-1280 | no propagator, no watch entry, nothing propagated, and the two empty queues the default priority 1 needs |
| WatcherQueues.WakeAll | ortools/sat/integer.cc:1287-1295 | waking a list of entries keeps the number of queues and every table fitting the registered propagators |

## Left out

- integer.h is not part of this model. The constructors of `IntegerEncoder` and `IntegerTrail` and the inline queries they declare (`LowerBound`, `UpperBound`, `IsCurrentlyIgnored`, `GetTrueLiteral`, `GetFalseLiteral`, `WatchLiteral`, `WatchLowerBound`) are modelled from their uses in integer.cc.
- The Boolean solver (sat_solver, its trail and clause database) is not part of this model. `Sat.SatSolver` only records what the integer layer does to it: new variables, added clauses, enqueued literals and the conflict. Propagation of clauses is not modelled.
- Enqueue: the optional-variable branch (integer.cc:917-955) is not modelled. When the bound of an optional variable whose ignored literal is not false crosses its upper bound, the source enqueues the ignored literal. The model reports a conflict instead. The ignored-variable no-op (integer.cc:878) is modelled.
- EnqueueStrongestLiteral: states only that the state stays valid. Which literal ends up true, and the conflict when it is false, are stated on EnqueueAssociatedLiteral, which it calls.
- UpdateInitialDomain: on success, the new domain is stated to lie within both the old domain and `domain`, not to equal their intersection. AddIntegerVariableWithDomain and PropagateNewDomain carry the same gap.
- AddIntegerVariableWithDomain: the initial domain is stated to lie within `domain`, not to equal it, as for UpdateInitialDomain, which it calls.
- PropagateNewDomain: the domain of `v` is stated to lie within `d`, not to equal it; UpdateInitialDomain, which calls it, inherits the gap.
- EnqueueAssociatedLiteral: the choice of `ReferenceVarWithSameReason` for the Boolean reason (integer.cc:757-770) is not modelled. The reason is always that of the entry about to be pushed.
- EnqueueLiteral (integer.cc:1225-1254) and EnqueueWithSameReasonAs are not modelled. The first pushes a Boolean literal with an integer reason; its only use in the core is the optional-variable branch left out above.
- IntegerTrail::Propagate (integer.cc:437-483), which turns newly assigned Boolean literals into bounds, is not modelled.
- Dependencies: the source caches the dependency indices by overwriting the reason buffer with negated indices (integer.cc:1033-1051). The model recomputes them each time, which gives the same result.
- `ReversibleInterface::SetLevel`, `RevMap`, the reversible classes and ints of the watcher, and `SaveState` are not modelled. `SyncLevels` keeps only the two level tables.
- Propagate: the propagators are described by the sequence `calls`, one outcome per call. When `calls` runs out, the round stops with `ok == true`; the source has no such exit.
- The propagators themselves, `NegationOf` on a vector (integer.cc:27-34), debug strings, statistics, `VLOG` and `UpdateRuleStats` are left out.
- `DCHECK`/`CHECK` failures are preconditions where callers must meet them, and `None` results where the mapping code checks its input.
- PresolveLinearOnBooleans: `isAffine` is a parameter standing for the lookup in the set of affine constraints.
- PresolveLinear: only the regrouping of terms, the fixed-variable sum and the GCD division are modelled. The arithmetic on the right-hand-side domain and the rules for one or two variables are left out.
- PresolveCircuit: the part that turns a node of degree two into an equality of literals (cp_model_presolve.cc:1895-1915) is left out.
- FinishCircuit: the same degree-two rewrite (cp_model_presolve.cc:1895-1915) lies inside the lines it models and is left out. Between the self-loop test and the truncation, the model adds no Boolean equality.
- RequeueUniqueVariables: the order in which the source's hash set yields the variables is not modelled. The queued constraints are stated as a set of (variable, constraint) pairs.
- PresolveToFixPoint: the driving loop, which dispatches each constraint to every presolve rule, and `ExploitFixedDomain` are left out. The worklist operations it uses are modelled.
- `MarkIntegerVariableAsOptional` and the code that sets the ignored literals are not modelled. The ignored literals are a field that the model only reads.
- Floating point, time limits, the model's I/O and the solution hint's values beyond the compaction are left out.

## Findings

| source | as written | input that shows it | evidently intended | confidence | as-written member | corrected member |
|---|---|---|---|---|---|---|
| ortools/sat/cp_model_presolve.cc:1263 | `max_coeff = std::min(max_coeff, coeff)` (also at line 1268), starting from 0, so `max_coeff` stays 0 for every constraint | `2*x0 + 5*x1 <= 3` on 0/1 variables: `max_coeff` is 0, so the test at line 1321 rewrites it to `at_most_one(x0, x1)`, which `x0 = 0, x1 = 1` satisfies although `5 > 3` | `std::max`, so that `max_coeff` is the largest absolute coefficient | high, not executed | PresolveBooleans.MaxCoeffAsWrittenIsZero, PresolveBooleans.MaxCoeffAsWrittenAdmitsTooLargeTerm | PresolveBooleans.StatsBounds, PresolveBooleans.PresolveLinearOnBooleans |
| ortools/sat/cp_model_presolve.cc:1278-1287 | when `min_sum + min_coeff > domain.Max()`, the constraint becomes `bool_and` of all literals at their minimum, with no check that `min_sum` is in the domain | `2*x0 + 3*x1 == 1` on 0/1 variables: it becomes `bool_and(not x0, not x1)`, which `x0 = x1 = 0` satisfies, although the original has no solution | the rewrite also requires `min_sum` to lie in the domain, or the infeasible case is reported | medium, not executed | PresolveBooleans.ReifiedAndAsWrittenDropsTheSum | PresolveBooleans.RewriteMeaning |
| ortools/sat/cp_model_presolve.cc:543-546 | the other literals of a satisfied `at_most_one` are skipped by reference (`other == literal`), so a duplicate of the true literal is never set false | `at_most_one(x, x)` with `x` fixed true: nothing is set false and the constraint is removed, although it cannot hold | skip by position, so that a duplicate is set false and infeasibility is detected | medium, not executed | PresolveBool.DuplicateOfTrueLiteralIsSkipped | PresolveBool.OthersByPosition, PresolveBool.PresolveAtMostOne |
