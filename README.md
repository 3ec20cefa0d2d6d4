# Array-bounds analysis: abstract domains and program-point numbering

This project is a Dafny model of the core of an intraprocedural abstract
interpreter for Java methods, built on Soot's Jimple. The analysis decides
whether every array access is in bounds and non-null. The model covers
three parts:

- **The integer interval domain** (`pav/IntervalElement.java`), in `Intervals`:
  - each tracked integer local maps to `[lower, upper]`, and either endpoint
    may be infinite;
  - an element is either such a map or bottom (an unreachable point);
  - the constructor rounds the bounds inward to integers, and widens a lower
    bound below `lowerBound` to -inf and an upper bound above `upperBound`
    to +inf (an analysis-wide window);
  - the module also covers join, interval arithmetic for `+ - * /`,
    comparison narrowing, and the transfer function for assignments,
    identity statements and conditional guards.
- **The allocation-site points-to domain** (`pav/IntegerArrayPointer.java`),
  in `PointsTo`:
  - each tracked array local maps to a non-empty set of targets;
  - a target is `null` or the position of a `newarray` statement;
  - the module covers construction with validation, join with its
    incompatibility error, and the transfer function for assignments and
    `==`/`!=` guards.
- **The program-point numbering of `doAnalysis`** (`Analysis.java`), in
  `ProgramPoints`:
  - it selects the integer locals and the statements that use them;
  - it numbers the statements so that the entry is point 0;
  - it records, for every edge, its enclosing statement and whether it is a
    conditional's true branch.

Supporting modules:
- `ExtNum` holds integer-or-infinite bounds (`Bound`) and the
  extended reals that the interval arithmetic computes in (`XReal`,
  including NaN). It also holds ceiling, floor and truncation.
- `Jimple` holds the statement and value shapes the transfer functions
  inspect. It also holds Java's truncating integer division.
- `IntervalProps`, `ArithSound` and `IntervalSound` prove the lattice laws
  and the soundness of the interval domain. `ArithSound` also proves that
  the `+ - *` bounds are tight.
- `NarrowingExact` proves the converse of narrowing's soundness for
  `< <= == > >=`: nothing is kept that no satisfying pair needs.
- `PointsToProps` does the same for the points-to domain.

Soundness is stated with concrete environments:
- An environment is a map from locals to integers (intervals) or to
  targets (points-to).
- `Admits(e, env)` says that the element `e` describes `env`.
- Each transfer lemma says that a state satisfying the statement's
  semantics is still admitted after the transfer.

Two helpers of the interval domain do not do what their code evidently
intends (findings 1 and 2 below):
- The `/` case of `getIntervalFromBinOp` keeps exact real quotients, which
  the constructor then rounds inward, so an interval can lose the quotient
  Java computes.
- The `!=` branch of `getIntervalsAfterComparison` is written to narrow an
  interval by one at an endpoint equal to a single-valued operand, and to
  report the edge unreachable when both operands are the same single value.
  Its tests compare boxed `Float` endpoints with `==`, that is by identity,
  and so never succeed: as written, `!=` never narrows.

The interval transfer function is therefore modelled in both versions,
selected by `Intervals.Reading`:
- `AsWritten` uses `BinOpAsWritten` and `CompareAsWritten`. The methods
  `TfAssignment`, `AssignLocal` and `NarrowOnGuard`, which follow the code
  step by step, compute this version.
- `Intended` uses `BinOp` (quotient bounds truncated toward zero) and
  `Compare` (endpoints compared by value). The soundness lemmas for
  assignments are stated for this version. The ones for guards hold for
  both.

## Model

| member | source | states |
|---|---|---|
| Intervals.Normalize | pav/IntervalElement.java:40-82 | the constructor always yields a valid element: every interval non-empty, integer or infinite, inside the window; it keeps exactly the given locals and is bottom whenever the window is inverted |
| Intervals.NewIntervalElement | pav/IntervalElement.java:40-82 | the constructor's three loops (emptiness check, inward rounding, widening of bounds outside the window to infinity) compute exactly `Normalize` |
| Intervals.Equal | pav/IntervalElement.java:490-502 | `equals` holds exactly when both elements are bottom or map the same locals to the same intervals |
| Intervals.Join | pav/IntervalElement.java:95-115 | bottom is the identity on both sides; the join of two maps is a valid element |
| Intervals.JoinElements | pav/IntervalElement.java:95-115 | the join loop computes exactly `Join` |
| Intervals.BinOpAsWritten | pav/IntervalElement.java:117-187 | interval arithmetic as written raises division by zero exactly when the divisor is [0,0] and rejects exactly the unknown operators |
| Intervals.BinOp | pav/IntervalElement.java:117-187 | the corrected arithmetic has the same error cases and agrees with the code on every operator except division |
| Intervals.CompareAsWritten | pav/IntervalElement.java:229-248 | the comparison as written: `!=` never narrows and never reports an unreachable edge, because its identity tests on boxed endpoints never hold; every other operator behaves as `Compare`. What this costs is stated in `IntervalSound.CompareNeAsWrittenKeepsEndpoint` and `IntervalSound.NeGuardAsWrittenKeeps` |
| Intervals.Transfer | pav/IntervalElement.java:265-484 | `tf_assignment`, in both versions, always yields a valid element and keeps bottom at bottom |
| Intervals.AssignLocal | pav/IntervalElement.java:269-372 | the assignment branch computes exactly the as-written `AssignTracked` (new interval for the lhs, sanity check, constructor) |
| Intervals.CheckAndBuild | pav/IntervalElement.java:462-470 | the post-guard check (any inverted interval gives bottom, else the constructor) computes exactly `Finish` |
| Intervals.NarrowOnGuard | pav/IntervalElement.java:373-470 | the guard branch computes exactly the as-written `Guard`, whose `!=` never narrows |
| Intervals.TfAssignment | pav/IntervalElement.java:265-484 | the transfer method computes exactly the as-written `Transfer` |
| IntervalProps.RestIntervalFixed | pav/IntervalElement.java:55-81 | an integer interval inside the window passes unchanged through rounding and widening |
| IntervalProps.NormalizeRestMap | pav/IntervalElement.java:40-82 | rebuilding a valid element through the constructor gives it back |
| IntervalProps.CloneIsIdentity | pav/IntervalElement.java:508-513 | cloning a valid element yields an equal element |
| IntervalProps.IntervalKeepsIntegers | pav/IntervalElement.java:55-81 | rounding inward and widening never lose an integer the raw interval held |
| IntervalProps.NormalizeSound | pav/IntervalElement.java:40-82 | every integer environment inside the raw intervals is admitted by the constructed element |
| IntervalProps.NormalizeExact | pav/IntervalElement.java:40-82 | inside the window the constructor is exact: an integer of the window lies in a built interval exactly when it lies in the raw one, so rounding inward drops only non-integers |
| IntervalProps.NormalizeBotOnlyIfEmpty | pav/IntervalElement.java:40-82 | with a proper window, the constructor yields bottom only if some raw interval holds no integer |
| IntervalProps.NormalizeEmptyIsBot | pav/IntervalElement.java:54-65 | a finite raw interval holding no integer makes the constructed element bottom |
| IntervalProps.HullMapValid | pav/IntervalElement.java:95-115 | the per-local hull of two valid maps is itself valid |
| IntervalProps.JoinIsHull | pav/IntervalElement.java:95-115 | the join of two valid maps is exactly the per-local hull (min of lowers, max of uppers); the constructor changes nothing |
| IntervalProps.JoinIdempotent | pav/IntervalElement.java:95-115 | joining a valid element with itself gives it back |
| IntervalProps.JoinCommutative | pav/IntervalElement.java:95-115 | join is commutative on valid elements over the same locals |
| IntervalProps.JoinAssociative | pav/IntervalElement.java:95-115 | join is associative on valid non-bottom elements over the same locals |
| IntervalProps.JoinUpperBound | pav/IntervalElement.java:95-115 | an environment admitted by either operand is admitted by the join |
| ArithSound.JavaDivIsTrunc | pav/IntervalElement.java:138-182 | Java integer division equals the exact quotient truncated toward zero, the value a division interval must contain |
| ArithSound.AddSound | pav/IntervalElement.java:122-125 | the `+` interval contains the sum of any two contained integers |
| ArithSound.SubSound | pav/IntervalElement.java:126-129 | the `-` interval contains the difference of any two contained integers |
| ArithSound.MulSound | pav/IntervalElement.java:130-137 | the `*` interval contains every product of contained integers |
| ArithSound.AddTight | pav/IntervalElement.java:122-125 | on non-empty operands each finite bound of the `+` interval is the sum of two contained integers, so [l1+l2, u1+u2] is the tightest such interval (the same for the as-written version, which `BinOp` equals on `+`) |
| ArithSound.SubTight | pav/IntervalElement.java:126-129 | on non-empty operands each finite bound of the `-` interval is the difference of two contained integers: [l1-u2, u1-l2] is tight |
| ArithSound.MulTight | pav/IntervalElement.java:130-137 | on non-empty operands each finite bound of the `*` interval is the product of two contained integers: the min and max of the corner products are tight |
| ArithSound.DivHullHoldsQuotient | pav/IntervalElement.java:138-182 | the corner quotients (with the ±1 substitutes at a zero endpoint and the split around zero) bound the exact quotient of any contained dividend and non-zero contained divisor |
| ArithSound.DivSound | pav/IntervalElement.java:138-182 | the corrected `/` interval contains Java's truncated quotient of any contained dividend and non-zero contained divisor |
| ArithSound.DivAsWrittenHoldsExactQuotient | pav/IntervalElement.java:138-182 | the `/` interval as written contains the exact real quotient |
| IntervalSound.BranchOpMeaning | pav/IntervalElement.java:383-395 | the operator chosen for an edge holds exactly when the guard's outcome matches the edge |
| IntervalSound.CompareSound | pav/IntervalElement.java:189-252 | comparison narrowing never drops a pair of contained values that satisfies the operator, so it does not report an unreachable edge while such a pair exists |
| Intervals.Compare | pav/IntervalElement.java:189-252 | `getIntervalsAfterComparison` as intended: when the edge is reachable, each narrowed interval lies inside its operand interval |
| NarrowingExact.UnreachableExact | pav/IntervalElement.java:193-228 | for `<`, `<=`, `==`, `>` and `>=` on non-empty intervals, the edge is reported unreachable exactly when no pair of contained values satisfies the operator |
| NarrowingExact.NarrowFirstExact | pav/IntervalElement.java:193-228 | for those five operators the narrowed first interval holds exactly the values of the first operand that some value of the second satisfies the operator with |
| NarrowingExact.NarrowSecondExact | pav/IntervalElement.java:193-228 | likewise the narrowed second interval holds exactly the values of the second operand that some value of the first satisfies the operator with |
| NarrowingExact.LessThanFiveNarrows | pav/IntervalElement.java:383-423 | `if (x < 5)` with x in [0, 10], under any window holding [0, 10] and in both versions: the true edge gives x [0, 4] and the false edge [5, 10] |
| IntervalSound.CompareNeExcludesPoint | pav/IntervalElement.java:229-248 | the corrected `!=` removes the constant from the other interval when it sits at an endpoint |
| IntervalSound.CompareNeAsWrittenKeepsEndpoint | pav/IntervalElement.java:229-248 | for every constant c and interval with c at an endpoint, the as-written `!=` keeps c in the interval, while the corrected one removes it or reports the edge unreachable |
| IntervalSound.CompareAsWrittenSound | pav/IntervalElement.java:189-252 | the as-written comparison is sound as well: it never drops a pair of contained values that satisfies the operator |
| IntervalSound.CompareAsWrittenKeepsEqualPoint | pav/IntervalElement.java:229-248 | as written, `x != 5` with x in [5,5] stays reachable and [5,9] stays [5,9]; the corrected `!=` gives unreachable and [6,9] |
| IntervalSound.FinishSound | pav/IntervalElement.java:462-470 | the post-guard check and constructor keep every admitted environment |
| IntervalSound.GuardSound | pav/IntervalElement.java:396-470 | in both versions, narrowing a map on a guard keeps every environment in which the guard's operator holds |
| IntervalSound.TransferGuardSound | pav/IntervalElement.java:373-470 | in both versions, the transfer on each edge of a conditional keeps every admitted environment whose guard outcome matches that edge |
| IntervalSound.NeGuardAsWrittenKeeps | pav/IntervalElement.java:398-420 | as written, the true edge of `x != c` leaves every valid element unchanged, even when x is [c, c] or has c as an endpoint |
| IntervalSound.NeGuardIntendedExcludes | pav/IntervalElement.java:398-420 | the corrected true edge of `x != c` is bottom when x is [c, c], and otherwise removes c from x's interval when c is an endpoint, keeping every other local |
| IntervalSound.BinOpSound | pav/IntervalElement.java:306-367 | for a known operator, the interval computed for a binary expression contains its Java value; as written this holds for every operator but `/` |
| IntervalSound.TransferAssignSound | pav/IntervalElement.java:269-372 | after `x = rhs` with rhs a constant, local, negation or binary expression, the new element admits the old environment updated with the value rhs produces; as written this holds except for `/` |
| IntervalSound.TransferAssignPut | pav/IntervalElement.java:276-372 | when the right-hand side yields a raw interval, the result is bottom exactly when that interval is empty before or after rounding inward; otherwise the target gets it rounded, with any bound outside the window widened to infinity, and every other local keeps its interval |
| IntervalSound.TransferAssignFrame | pav/IntervalElement.java:276-372 | an assignment to a tracked local keeps the tracked locals and changes no interval but the target's |
| IntervalSound.TransferAssignConst | pav/IntervalElement.java:280-283 | `x = c` sets x to [c, c] when c lies inside the window; a bound outside the window becomes infinite, so c above it gives [c, +inf]; every other local keeps its interval |
| IntervalSound.TransferAssignCopy | pav/IntervalElement.java:284-293 | `x = y` gives x exactly y's interval, or [-inf, +inf] when y is not tracked, and keeps every other local |
| IntervalSound.TransferAssignNeg | pav/IntervalElement.java:294-305 | `x = -y` with y in [l, u] gives x [-u, -l], with a bound outside the window widened to infinity (exactly [-u, -l] inside it), or [-inf, +inf] when y is not tracked |
| IntervalSound.TransferAssignLocals | pav/IntervalElement.java:310-328 | `x = a op b` over tracked locals: a division by [0, 0] gives bottom, an unknown operator gives x [-inf, +inf], and any other result is rounded and widened outside the window, bottom exactly when it holds no integer |
| IntervalSound.TransferIdentitySound | pav/IntervalElement.java:471-479 | an identity statement sets its local to [-inf, +inf] and keeps every other interval |
| IntervalSound.TransferKeepsOtherStatements | pav/IntervalElement.java:483 | other statements, and assignments to anything but a tracked local, leave the element unchanged |
| IntervalSound.DivAsWrittenLosesQuotient | pav/IntervalElement.java:138-182 | with x in [7,7] and y in [1,1], the as-written `x = y / 2` makes the element bottom although the environment x = 7, y = 1 is admitted and Java gives x = 0; the corrected version gives x in [0,0] and keeps y |
| PointsTo.Make | pav/IntegerArrayPointer.java:28-49 | a successfully built element holds exactly the given map and sites and is valid |
| PointsTo.NewPointsTo | pav/IntegerArrayPointer.java:28-49 | the constructor's checks compute exactly `Make`: it fails exactly when some set is empty or holds a site outside the allocation units |
| PointsTo.Equal | pav/IntegerArrayPointer.java:275-287 | `equals` holds exactly when both elements are bottom or have the same map and sites |
| PointsTo.Join | pav/IntegerArrayPointer.java:63-94 | bottom is the identity on both sides of the join |
| PointsTo.JoinElements | pav/IntegerArrayPointer.java:63-94 | the join loop computes exactly `Join` |
| PointsTo.MustAlias | pav/IntegerArrayPointer.java:147-199 | the equal-references edge only shrinks sets; afterwards a local compared with `null` is exactly {null}, and two compared locals have the same set |
| PointsTo.MayDiffer | pav/IntegerArrayPointer.java:200-264 | the unequal-references edge only shrinks sets; afterwards a local compared with `null` cannot be null |
| PointsTo.MayDifferAsWritten | pav/IntegerArrayPointer.java:237-263 | the element the code returns on the unequal edge is the intended `MayDiffer`, and the receiver afterwards is either unchanged or that same element |
| PointsTo.MustAliasValid | pav/IntegerArrayPointer.java:147-199 | the equal-references edge only shrinks sets and yields a valid element |
| PointsTo.MayDifferValid | pav/IntegerArrayPointer.java:200-264 | the unequal-references edge only shrinks sets and yields a valid element |
| PointsTo.Transfer | pav/IntegerArrayPointer.java:98-269 | `tf_assignment` always yields a valid element, keeps bottom at bottom, and keeps the sites and the tracked locals |
| PointsTo.TfAssignment | pav/IntegerArrayPointer.java:98-269 | the transfer method computes exactly `Transfer` |
| PointsToProps.JoinOfValid | pav/IntegerArrayPointer.java:63-94 | on valid elements, join fails exactly when the sites or tracked locals differ; otherwise it is valid and unions each local's set |
| PointsToProps.JoinUpperBound | pav/IntegerArrayPointer.java:63-94 | join is above both operands |
| PointsToProps.JoinLeast | pav/IntegerArrayPointer.java:63-94 | join is below every common upper bound |
| PointsToProps.JoinSound | pav/IntegerArrayPointer.java:63-94 | an environment admitted by either operand is admitted by the join |
| PointsToProps.JoinIdempotent | pav/IntegerArrayPointer.java:63-94 | joining a valid element with itself gives it back |
| PointsToProps.JoinCommutative | pav/IntegerArrayPointer.java:63-94 | join is commutative, including its error result |
| PointsToProps.JoinAssociative | pav/IntegerArrayPointer.java:63-94 | join is associative on pairwise compatible valid elements |
| PointsToProps.TransferUnhandled | pav/IntegerArrayPointer.java:268 | identity and other statements, assignments to untracked locals, and guards over anything but tracked locals and null leave the element unchanged |
| PointsToProps.TransferAssignFrame | pav/IntegerArrayPointer.java:102-137 | an assignment changes no set but the assigned local's |
| PointsToProps.TransferAssignExact | pav/IntegerArrayPointer.java:102-137 | the exact result of `x = rhs` for a tracked x: x gets the tracked source local's set, {null}, or {this site} when the statement is an allocation unit; otherwise the element is unchanged; every other local keeps its set |
| PointsToProps.TransferAssignSound | pav/IntegerArrayPointer.java:102-137 | after copying a local, assigning null or allocating at this statement, the new element admits the old environment updated with the stored reference |
| PointsToProps.TransferGuardNarrows | pav/IntegerArrayPointer.java:139-265 | a guard only shrinks sets |
| PointsToProps.TransferGuardSound | pav/IntegerArrayPointer.java:139-265 | each edge of a reference guard keeps every admitted environment whose comparison outcome matches that edge |
| PointsToProps.MustAliasLocalsExact | pav/IntegerArrayPointer.java:181-198 | on the equal edge of two tracked locals the result is bottom exactly when their sets share no target; otherwise both get the shared targets and every other local keeps its set |
| PointsToProps.MayDifferLocalsExact | pav/IntegerArrayPointer.java:237-263 | on the unequal edge of two tracked locals: if exactly one is {null}, null is removed from the other's set; if both are {null}, bottom; otherwise the element unchanged |
| PointsToProps.GuardAgainstNullExact | pav/IntegerArrayPointer.java:147-235 | against `null`, an edge admits an environment exactly when the element did and the local's nullness matches the edge |
| PointsToProps.MayDifferAsWrittenMutatesReceiver | pav/IntegerArrayPointer.java:244-256 | the unequal edge as written changes the receiver; the changed receiver makes the false edge bottom although a == b == null is possible |
| ProgramPoints.CollectIntegerLocals | Analysis.java:77-87 | the loop keeps exactly the locals of integer type, in order |
| ProgramPoints.IntegerLocalsMembers | Analysis.java:77-87 | a local is selected exactly when some declared local of that name has integer type |
| ProgramPoints.CollectIntStatements | Analysis.java:89-98 | the loop keeps exactly the statements with a use or definition box holding an integer local, once each |
| ProgramPoints.IntStatementsMembers | Analysis.java:89-98 | the selected positions are strictly increasing and are exactly the statements that touch an integer local |
| ProgramPoints.BuildFlow | Analysis.java:100-110 | the flow map has one entry per statement, holding exactly its successors |
| ProgramPoints.NumberPoints | Analysis.java:122-131 | the entry gets point 0 and the others consecutive points in body order |
| ProgramPoints.PointsAreBijective | Analysis.java:122-131 | the numbering is a bijection between statements and points 0..n-1 |
| ProgramPoints.ConnectUnit | Analysis.java:136-150 | one statement's edges are added to the point flow, its enclosing statement recorded, and its true branch marked |
| ProgramPoints.ConnectPoints | Analysis.java:133-152 | every control-flow edge becomes a point edge with its enclosing statement; a point edge is a true branch exactly when the statement is a conditional whose target is the successor |
| ProgramPoints.DoAnalysis | Analysis.java:73-153 | the whole preparation: the integer locals and statements, a numbering of all statements by 0..n-1 with the entry at 0, and the point flow, enclosing statements and true branches of every edge |

## Left out

- Floating point: bounds are exact integers or infinities at rest. Raw
  results are exact reals, infinities or NaN, so float rounding of large
  magnitudes and signed zero are not modelled.
- Java's 32-bit wrap-around of `int` is not modelled: `ArithSound` states
  soundness for unbounded integers.
- Float constants: only integer constants are operands.
- The window `[lowerBound, upperBound]` is integer or infinite and is a
  parameter, not a static field.
- Intervals.NewIntervalElement: the constructor updates the caller's map in
  place. The model returns a new value, so aliasing of that map is not
  captured.
- Null maps passed to the constructors, and the `instanceof` test in both
  joins: Dafny values are never null, and each domain joins only with itself.
- Intervals.Join requires the first map's locals to be among the second's.
  Otherwise the source would dereference a missing interval.
- IntervalProps.JoinCommutative and IntervalProps.JoinAssociative: stated
  only for elements over the same locals (and, for associativity, non-bottom).
- IntervalSound.TransferAssignSound and IntervalSound.BinOpSound: for the
  as-written version they exclude division, because the as-written `/`
  is not sound (finding 1, `IntervalSound.DivAsWrittenLosesQuotient`).
- IntervalSound.TransferAssignSound: covers constant, local, negation and
  binary right-hand sides. Any other right-hand side (an array read, a
  call, a constant-by-constant expression) keeps the old interval, as the
  code does, so soundness is not claimed for it.
- Intervals.TfAssignment and Intervals.Transfer require `!Intervals.Throws`:
  no guard, and no binary expression assigned to a tracked local, may pair
  a local with a `null`, `long`, `double`, string or class constant
  (`Jimple.OtherConst`). `getValueFromConstant` converts only `int` and
  `float` constants and throws on the rest outside any `try`; the model
  states no result for those inputs. Since `long` locals are tracked, this
  includes `x = y + 1L` and `if (y < 1L)` on them.
- Float constants are not part of the model. In well-typed Jimple they only
  meet `float` locals, which are never tracked.
- PointsTo.Transfer and PointsTo.TfAssignment require a guard `null ==
  null`/`null != null` not to occur, since the code fails on a cast there.
  They also require a valid element, as every element is built by the
  validating constructor.
- PointsTo.MayDifferAsWritten: the in-place change of the receiver's set is
  modelled as a second returned value, not as shared mutable state.
- The worklist fixpoint driver, the array-safety checker, `LatticeElement`,
  `Pair`, `Printer`, `main`, `toString` and all printing are not part of this
  model. So the downstream effect of finding 3 is stated only for one further
  transfer.
- Soot is not modelled. A method body is a sequence of nodes with successor
  positions. Statements and values are reduced to the shapes the transfer
  functions test. Locals are identified by name and carry their declared
  type. The entry statement is a parameter.
- `HashMap` iteration order is arbitrary. The loops over map keys pick any
  remaining key; the contracts of those loops do not depend on the choice.
- `isBot` and `getBot` are the bottom constructor and its test. `clone` is
  the identity on valid elements (`IntervalProps.CloneIsIdentity`; for
  points-to it is the element itself).

## Findings

| source | as written | input that shows it | evidently intended | confidence | as-written member | corrected member |
|---|---|---|---|---|---|---|
| pav/IntervalElement.java:138-182 | division bounds are exact float quotients, which the constructor then rounds inward (ceiling of the lower, floor of the upper) | `x = y / 2` with y in [1,1]: the quotient interval [0.5, 0.5] rounds to the empty [1, 0], so the element becomes bottom and the following code is treated as unreachable, although Java gives x == 0 | bounds truncated toward zero, like Java's integer `/` | high; not executed | Intervals.BinOpAsWritten, IntervalSound.DivAsWrittenLosesQuotient | Intervals.BinOp, ArithSound.DivSound, IntervalSound.TransferAssignSound |
| pav/IntervalElement.java:230-246 | the `!=` case compares `Float` endpoints with `==`, which tests object identity; every endpoint is boxed separately, so the tests never succeed | `if (x != 5)` with x in [5,5]: the true edge keeps [5,5] instead of being unreachable; with x in [5,9] it keeps [5,9] instead of [6,9] | compare endpoint values | high; not executed | Intervals.CompareAsWritten, IntervalSound.CompareNeAsWrittenKeepsEndpoint, IntervalSound.NeGuardAsWrittenKeeps | Intervals.Compare, IntervalSound.CompareNeExcludesPoint, IntervalSound.NeGuardIntendedExcludes |
| pav/IntegerArrayPointer.java:244-256 | the map is copied shallowly before `null` is removed from one local's set, so the receiver's own set loses `null` | receiver {a: {null}, b: {null, site 7}}, true edge of `a != b`: afterwards the receiver maps b to {site 7}. The false edge computed from it is bottom, although a == b == null is possible | remove `null` from a fresh copy of the set, as the one-sided `null` case does | high that the receiver changes; the effect on the final facts depends on the fixpoint driver; not executed | PointsTo.MayDifferAsWritten, PointsToProps.MayDifferAsWrittenMutatesReceiver | PointsTo.MayDiffer, PointsToProps.TransferGuardSound |
