# Exact-arithmetic finance kernels

A Dafny model of the exact-arithmetic kernels of a finance platform and of its
evidence chain, with proofs of what their design claims: exact sums with no plug and
no tolerance, structural detection of singular systems, and a chain whose last hash
fixes its history. `dafny verify dfyconfig.toml` checks the project.

## What is modelled

**Exact rationals and the solver** (`ExactRational`, `LinearAlgebra`,
`LinearSolver`). A rational is the pair the code keeps, with a `real` view for proofs.
Gauss-Jordan elimination runs on an array whose rows are swapped and overwritten in
place and is proved against a pure elimination on real matrices, which in turn decides
the system: unique solution, or a kernel vector read off the column without a pivot.

**Reciprocal allocation** (`Graphs`, `StrongComponents`, `Circulation`,
`ReciprocalModel`, `SelfExclusion`, `Reciprocal`, `ReciprocalResults`,
`ReciprocalRefusals`, `ReciprocalRepeats`). Tarjan's
algorithm is a class over the same mutable maps, stack and component list. The graph
side and the algebra side meet in one equivalence: a system of shares is singular
exactly when some non-empty set of centres passes everything on within itself, and with
positive shares exactly when some strongly connected component does. Each refusal is
tied to the graph of the centres as they are given.

**Integrated ownership, equity pickup, translation** (`Colouring`, `OwnershipModel`,
`Ownership`, `SelfHolding`, `EquityPickup`, `Cta`). The depth-first colouring decides acyclicity; on
acyclic graphs the memoised path sum is the one solution of the system the cyclic
branch hands to the solver, and that system is singular exactly when a group of
entities is held wholly by itself. The memoised equity pickup equals a fold from the lowest
tier upward. The two sides of the CTA proof differ by at most one minor unit.

**Apportionment, written twice** (`Apportionment`, `Quotas`, `Distribution`,
`BudgetAllocation`). Both kernels are proved against one order-free definition of the
largest-remainder split, which is exact and closest to the exact shares.

**Rounding, text and schedules** (`Rounding`, `DecimalText`, `Money`, `Schedules`,
`Epochs`, `Tiers`, `Numbering`). The seven rounding modes have a definition of their
own; everything that rounds is proved against it.

**State over runs** (`Commitments`, `Availability`, `CanonicalJson`, `JsonText`, `AuditChain`).
Commitments are followed over every run of liquidations, releases and carry-forwards,
and with them what is available. The evidence
chain is followed from the canonical text of one record to the history of a store.

`Refs` (references, their order, sorting), `Sums` and `Options` serve the others.
A thrown error is a result value where the code returns one, and a precondition where
the code throws on input that its type or its caller rules out. Automatic induction is
switched off where Dafny would use it, so every inductive step is the one written.

## Where the code and its own account differ

- `solveReciprocal` keeps a refusal for a system that is singular although every
  component leaks. With positive shares it never happens. On shares that are never
  negative and total at most 1 it happens exactly when some component of the graph of
  positive shares passes everything on within itself and no component of the drawn
  graph does (`ReciprocalRefusals.RefusalsExactly`), which takes a share of zero: three
  centres with one are refused this way at every ceiling
  (`ReciprocalRefusals.ZeroShareRefused`).
- `integrateOwnership` refuses a singular system for want of an external holder. When no
  interest is negative and nobody is held more than whole, it refuses exactly when some
  group without the root is held wholly by itself
  (`SelfHolding.RefusedExactlyWhenSelfContained`). Otherwise it can refuse although the
  root itself holds half of an entity and no such group exists
  (`SelfHolding.HeldTwiceIsRefused`: the root and B hold half of A each, A holds 2 of B).
- Production is meant to receive exactly the primary pools. The matrix keeps the last
  entry of a consumer that is listed twice, where every other step adds the entries up.
  With positive shares that total one and positive pools, the cost is conserved exactly
  when no centre lists a service centre, itself included, twice
  (`ReciprocalRepeats.ConservedExactly`); in general the difference is what each total
  leaves unassigned (`ReciprocalRepeats.CostAccountedFor`).
- `phase` is described as summing to the annual amount. Even phasing does whenever it
  phases. Seasonal phasing shows every entry of a period with its last amount, and sums
  exactly when the whole parts of the last shares make up those of the own ones
  (`BudgetAllocation.PhasingSumsExactly`): always when the entries of a period weigh the
  same, so on distinct periods; four units over weights 1 and 3 of one period come out as
  3 and 3 (`BudgetAllocation.RepeatedPeriod`).
- `canonical` sorts keys so that one record has one hash. Keys that the host's collation
  takes for the same text, such as an e with an acute accent written as one character
  and as two, keep the order in which they are listed. The order of keys never shows
  exactly when no two kept keys of an object tie, indices apart, which an object always
  lists in one order (`CanonicalJson.OrderNeverShows`, `CanonicalJson.TwoSpellings`).
- `exactMoneySchema` is described as the canonical form. It also accepts a negative zero
  and leading zeros (`Money.SchemaIsNotCanonical`); the round trip through minor units
  holds exactly for canonical amounts (`Money.MoneyRoundTrip`).
- `applyLiquidation` is described as neutral for availability. It is, exactly when the
  invoice does not exceed what is outstanding (`Availability.LiquidationIsNeutral`).
- `equityPickup` reports an unrecognised loss also where distributions exceed the
  carrying amount and there is no loss (`EquityPickup.UnrecognisedIsLoss`).
- `translateAndProveCta` can refuse correct inputs by one minor unit in either
  direction (`Cta.ProofCanFail`); the exact condition is in its contract.
- `integrateOwnership` answers zero everywhere for a root that no interest mentions when
  the graph is acyclic, and refuses it when the graph is cyclic
  (`Ownership.StrangerAnswered`).
- The graduated walk bills nothing beyond a bounded table (`Tiers.BeyondTheTable`),
  where volume rating uses the last tier.
- `attestGapless` does not look at positions outside the mark
  (`Numbering.GaplessAccountsForAll`), and `verify` cannot see a store cut short
  (`AuditChain.CutShortStillVerifies`).
- Declining balance charges nothing when the cost is below the residual, so its exact
  sum holds exactly from a cost at or above it (`Schedules.ChargesSumExactly`).
- `distributeLargestRemainder` and `allocateExact` key the bonus units by reference.
  With repeated references they fail to reconcile exactly when one reference stands on
  both sides of the cut (`Quotas.BuiltRows`).

## Model

| member | source | states |
|---|---|---|
| `ExactRational.GcdLoop` | packages/contracts/src/exactRational.ts:19-28 | the loop on x and y computes Euclid's gcd of the absolute values, and one when both are zero |
| `ExactRational.EuclidDivides` | packages/contracts/src/exactRational.ts:19-28 | that gcd divides both arguments |
| `ExactRational.EuclidBezout` | packages/contracts/src/exactRational.ts:19-28 | and is an integer combination of them, so every common divisor divides it |
| `ExactRational.Make` | packages/contracts/src/exactRational.ts:30-35 | `rational` has the value num/den for every non-zero den, with a positive denominator |
| `ExactRational.MakeLowestTerms` | packages/contracts/src/exactRational.ts:30-35 | the pair it returns is in lowest terms |
| `ExactRational.CanonicalFormUnique` | packages/contracts/src/exactRational.ts:30-35 | two rationals in lowest terms with one value are the same pair |
| `ExactRational.RAdd` | packages/contracts/src/exactRational.ts:59-60 | addition of values, exactly |
| `ExactRational.RSub` | packages/contracts/src/exactRational.ts:61-62 | subtraction of values, exactly |
| `ExactRational.RMul` | packages/contracts/src/exactRational.ts:63-64 | multiplication of values, exactly |
| `ExactRational.RDiv` | packages/contracts/src/exactRational.ts:65-68 | division of values, exactly, for every non-zero divisor of either sign |
| `ExactRational.CompareValues` | packages/contracts/src/exactRational.ts:69-71 | `rEquals`, `rIsZero` and the engines' cross-product comparisons compare values |
| `LinearSolver.Build` | packages/contracts/src/exactRational.ts:99-108 | the augmented rows are (I - A) transposed beside b |
| `LinearSolver.FindPivot` | packages/contracts/src/exactRational.ts:110-116 | the pivot is the first row at or below the column whose entry is not zero, -1 if none |
| `LinearSolver.NormaliseRow` | packages/contracts/src/exactRational.ts:123-125 | the pivot row is divided by its pivot in place, every other row untouched |
| `LinearSolver.ClearRow` | packages/contracts/src/exactRational.ts:127-135 | one other row loses its multiple of the pivot row, every other row untouched |
| `LinearSolver.EliminateColumn` | packages/contracts/src/exactRational.ts:118-136 | swap, normalise and clear take the array to the next elimination step |
| `LinearAlgebra.StepAnnihilates` | packages/contracts/src/exactRational.ts:118-136 | no elimination step gains or loses a solution or a kernel vector |
| `LinearAlgebra.FailedColumnAnnihilates` | packages/contracts/src/exactRational.ts:117 | the column without a pivot yields an explicit vector that every row annihilates |
| `LinearAlgebra.EliminateDecides` | packages/contracts/src/exactRational.ts:109-138 | for every size and matrix: a result is the only solution and there is no kernel; no result means a kernel vector exists |
| `LinearAlgebra.SystemMeaning` | packages/contracts/src/exactRational.ts:90-108 | solutions and kernel vectors of the built rows are those of x = b + xA and z = zA |
| `LinearSolver.SolveLinearSystem` | packages/contracts/src/exactRational.ts:95-139 | a returned vector is the unique exact solution of x(I - A) = b; undefined is returned exactly when a non-zero z with z = zA exists |
| `StrongComponents.Tarjan.StrongConnect` | packages/allocationiq/src/kernel.ts:297-323 | one recursive call keeps the whole invariant, extends the state, and terminates on every finite graph |
| `StrongComponents.Tarjan.PopTo` | packages/allocationiq/src/kernel.ts:312-322 | the pop loop removes the stack down to the root and records exactly that segment, sorted |
| `StrongComponents.SegmentIsScc` | packages/allocationiq/src/kernel.ts:312-322 | when lowlink equals index, the popped segment is exactly one maximal strongly connected set |
| `StrongComponents.PushKeepsInv` | packages/allocationiq/src/kernel.ts:298-302 | opening a vertex keeps the invariant |
| `StrongComponents.ScanVisited` | packages/allocationiq/src/kernel.ts:307-309 | an edge to a visited vertex lowers the link exactly when the vertex is on the stack |
| `StrongComponents.ScanAfterCall` | packages/allocationiq/src/kernel.ts:304-306 | after the recursive call the caller's scan covers one more edge |
| `StrongComponents.PopKeepsInv` | packages/allocationiq/src/kernel.ts:312-322 | closing a component keeps the invariant |
| `StrongComponents.FindComponents` | packages/allocationiq/src/kernel.ts:290-326 | the components are exactly the strongly connected components, disjoint, covering every node, each sorted |
| `StrongComponents.SccUnique` | packages/allocationiq/src/kernel.ts:290-326 | strongly connected components that share a vertex are the same, so the answer does not depend on the order of nodes or edges |
| `Circulation.SingularExactlyWhenClosed` | packages/allocationiq/src/kernel.ts:200-253 | for non-negative shares of at most 1 in total: a kernel vector exists exactly when some non-empty set passes everything on within itself |
| `Circulation.KernelLeakFree` | packages/allocationiq/src/kernel.ts:200-253 | the vertices a kernel vector occupies form such a set |
| `Circulation.TotalsCoverPrimary` | packages/allocationiq/src/kernel.ts:231-276 | without such a set, every total is at least its own non-negative primary cost |
| `ReciprocalModel.SingularExactlyWhenComponentClosed` | packages/allocationiq/src/kernel.ts:200-253 | with positive shares, the system is singular exactly when some strongly connected component leaks nothing: testing components misses nothing |
| `SelfExclusion.NormaliseKeeps` | packages/allocationiq/src/kernel.ts:178-198 | renormalising keeps references and distinctness, fair shares fair, and totals of exactly 1 |
| `SelfExclusion.SelfExclusionPreserves` | packages/allocationiq/src/kernel.ts:177-198 | the renormalised system is solved by the net totals exactly when the full system, self-service included, is solved by the gross ones |
| `SelfExclusion.SelfExclusionPreservesCharges` | packages/allocationiq/src/kernel.ts:188-194 | what any other recipient pays is the same before and after renormalising |
| `SelfExclusion.InvalidIsWhole` | packages/allocationiq/src/kernel.ts:178-187 | the self-share test is: the first entry by which the centre lists itself has a value of one or more |
| `SelfExclusion.OwnShareInside` | packages/allocationiq/src/kernel.ts:178-187 | on distinct consumers it is the centre's whole share to itself that is one or more |
| `Reciprocal.NormaliseCentres` | packages/allocationiq/src/kernel.ts:178-198 | refused exactly when some centre's first own share is one or more, naming the first such centre; otherwise every centre is renormalised |
| `Reciprocal.BuildGraph` | packages/allocationiq/src/kernel.ts:202-208 | the adjacency has an edge from each centre to each service centre among its consumers, and no other |
| `Reciprocal.Leakage` | packages/allocationiq/src/kernel.ts:211-221 | the loop computes the members' total leakage exactly |
| `Reciprocal.ZeroLeakage` | packages/allocationiq/src/kernel.ts:211-222 | that leakage is zero exactly when every member passes all of its output on inside the component |
| `Reciprocal.FindClosed` | packages/allocationiq/src/kernel.ts:210-229 | the loop finds a component without leakage if there is one |
| `Reciprocal.ClosedIsSingular` | packages/allocationiq/src/kernel.ts:209-229 | a component found closed makes the system singular; with positive shares a singular system has one |
| `Reciprocal.BuildMatrix` | packages/allocationiq/src/kernel.ts:231-241 | the matrix holds each centre's last share to each other centre, in reference order |
| `ReciprocalModel.LastEachIs` | packages/allocationiq/src/kernel.ts:234-241 | where no consumer is listed twice, the centres of the last entries are the centres themselves |
| `Reciprocal.Distribute` | packages/allocationiq/src/kernel.ts:281-285 | one centre's production consumers receive its total times their shares, and the map grows by exactly that |
| `Reciprocal.DistributeAll` | packages/allocationiq/src/kernel.ts:278-286 | every production recipient receives the sum over all centres, and the values add up to what was handed on |
| `Reciprocal.SolveReciprocal` | packages/allocationiq/src/kernel.ts:167-288 | on distinct centres, consumers listed twice or not: refused for self-service exactly when some centre's first own share is one or more, naming the first such centre; an answer is the unique solution of the last entries' system with its ratio, review flag and distribution; refused as closed only when some component's leakage is zero, as singular despite leakage only when that system is singular and no component's is, and never so on positive shares; with consumers listed once and shares never negative and at most 1 in total, refused either way exactly when singular |
| `ReciprocalResults.TotalsCover` | packages/allocationiq/src/kernel.ts:255-276 | on non-negative pools every total covers its primary cost and the circulation ratio is at least 1 |
| `ReciprocalResults.CostIsConserved` | packages/allocationiq/src/kernel.ts:277-287 | when each centre's shares total 1, production receives exactly the primary pools |
| `ReciprocalRepeats.CostAccountedFor` | packages/allocationiq/src/kernel.ts:231-287 | on every accepted run production receives the primary pools less what each total leaves unassigned between the sums and the last entries |
| `ReciprocalRepeats.ConservedExactly` | packages/allocationiq/src/kernel.ts:231-287 | positive shares that total one and positive pools: production receives exactly the pools if and only if no centre lists a service centre, itself included, twice |
| `ReciprocalResults.RefusalWithholdsNothing` | packages/allocationiq/src/kernel.ts:222-228 | a closed component with positive primary cost admits no non-negative solution at all |
| `ReciprocalResults.ZeroShareHidesClosure` | packages/allocationiq/src/kernel.ts:216-222 | a share of zero can hide a closed set from the leakage test: three centres, on every drawing of whose graph no component is closed, with a singular system |
| `ReciprocalRefusals.RefusalsExactly` | packages/allocationiq/src/kernel.ts:200-253 | on shares never negative and totalling at most 1: refused as closed exactly when a component of the given graph passes everything on; refused as singular despite leakage exactly when some set of centres does and no component does, that is, when a component of the positive-share graph does |
| `ReciprocalRefusals.LeakFreeIsPositivelyClosed` | packages/allocationiq/src/kernel.ts:209-229 | some set of centres passes everything on exactly when a component of the graph without zero shares does |
| `ReciprocalRefusals.SingularExactlyWhenSomeLeakFree` | packages/allocationiq/src/kernel.ts:246-253 | the system is singular exactly when some non-empty set of centres passes everything on within itself, shares of zero included |
| `ReciprocalRefusals.ClosedComponentNormalised` | packages/allocationiq/src/kernel.ts:178-229 | renormalising self-shares neither opens nor closes a component |
| `ReciprocalRefusals.AnyGraphTells` | packages/allocationiq/src/kernel.ts:200-229 | which components are closed does not depend on how the adjacency is listed |
| `ReciprocalRefusals.ZeroShareRefused` | packages/allocationiq/src/kernel.ts:209-253 | every run on the centres with the share of zero is refused as singular despite leakage |
| `Apportionment.AwardsAreExact` | packages/allocationiq/src/kernel.ts:111-137 | distinct references: floors and bonus units add up to the pool, and the residual never exceeds the number of rows |
| `Apportionment.WholeShareUntouched` | packages/allocationiq/src/kernel.ts:100-135 | a share that is already whole never gets a bonus unit |
| `Apportionment.LargestRemainderIsClosest` | packages/allocationiq/src/kernel.ts:100-135 | no other split into whole units with the same total is closer to the exact shares |
| `Apportionment.AwardsIgnoreOrder` | packages/allocationiq/src/kernel.ts:113-135 | an award depends on which rows there are, not on their order |
| `Apportionment.BonusByRemainder` | packages/allocationiq/src/kernel.ts:113-131 | whoever has a larger remainder, or an equal one and the smaller reference, than a row with a bonus unit has one too |
| `Refs.NameLessIs` | packages/allocationiq/src/kernel.ts:116 | references compare by their first difference, a proper prefix coming first |
| `Quotas.SplitIsExact` | packages/allocationiq/src/kernel.ts:104-145 | the split adds up to the pool for every pool, negative ones included |
| `Quotas.SplitBounds` | packages/allocationiq/src/kernel.ts:100-135 | each amount is its share's floor or one more, and a whole share exactly |
| `Quotas.SplitIsClosest` | packages/allocationiq/src/kernel.ts:100-135 | among all whole-unit vectors summing to the pool, the split minimises the total absolute deviation |
| `Quotas.SplitIgnoresOrder` | packages/allocationiq/src/kernel.ts:113-135 | reordering the drivers reorders the rows and changes no amount |
| `Quotas.OddUnitsByFraction` | packages/allocationiq/src/kernel.ts:113-135 | odd units go to the largest fractions of a share, on a tie to the smaller reference |
| `Quotas.KeyedCount` | packages/allocationiq/src/kernel.ts:126-135 | a bonus set keyed by reference hands out the residual exactly when no reference stands on both sides of the cut |
| `Quotas.BuiltRows` | packages/allocationiq/src/kernel.ts:126-145 | rows built with such a set add up to the pool exactly when no reference stands on both sides of the cut |
| `Quotas.KeyedIsSplit` | packages/allocationiq/src/kernel.ts:126-145 | on distinct references they are the order-free split |
| `Distribution.FloorIsFloor` | packages/allocationiq/src/kernel.ts:106-107 | truncation with the negative step is the floor toward minus infinity |
| `Distribution.PrecedesIsBeats` | packages/allocationiq/src/kernel.ts:113-117 | the cross-product comparator is remainder descending, reference ascending |
| `Distribution.TieBreaks` | packages/allocationiq/src/kernel.ts:118-125 | the recorded ties are exactly the ranked neighbours with equal remainders |
| `Distribution.SpendResidual` | packages/allocationiq/src/kernel.ts:126-131 | the bonus loop takes exactly the first `residual` references of the ranked list |
| `Distribution.LeadShares` | packages/allocationiq/src/kernel.ts:126-131 | and those are the keys of the order-free rule's bonus set |
| `Distribution.DistributeLargestRemainder` | packages/allocationiq/src/kernel.ts:88-146 | refuses exactly when the drivers sum to zero; fails to reconcile exactly when a reference stands on both sides of the cut; otherwise returns the exact split |
| `BudgetAllocation.CommonDivides` | packages/budgetiq/src/kernel.ts:376 | the product of the scales is a multiple of each one, so scaling truncates nothing |
| `BudgetAllocation.CutPartIsQuota` | packages/budgetiq/src/kernel.ts:386-390 | floor and remainder in scaled integers are those of the exact share |
| `BudgetAllocation.AllocateExact` | packages/budgetiq/src/kernel.ts:362-413 | refuses exactly negative drivers and a zero basis; trips exactly when a reference stands on both sides of the cut; otherwise returns the keyed rows, which add up |
| `BudgetAllocation.KernelsAgree` | packages/budgetiq/src/kernel.ts:356-413 | on non-negative decimal drivers both apportionment kernels return the same rows and fail together, repeated references included |
| `BudgetAllocation.AmountByRef` | packages/budgetiq/src/kernel.ts:445 | the map from period to amount returns the last row of each period |
| `BudgetAllocation.Phase` | packages/budgetiq/src/kernel.ts:417-456 | each refusal exactly on its cause, the causes inside the allocation included; otherwise every period with the last amount allocated to it; even phasing sums to the annual amount, seasonal phasing exactly when nothing drifts between repeated entries, so always on distinct periods |
| `BudgetAllocation.PhasingIsExact` | packages/budgetiq/src/kernel.ts:431-446 | distinct periods are phased exactly when no index entry is negative and they do not sum to zero, and then get the exact split, which sums to the annual amount |
| `BudgetAllocation.PhasedTotal` | packages/budgetiq/src/kernel.ts:439-446 | phased rows miss the annual amount by the drift: the whole parts of the last shares of their periods less those of the own ones |
| `BudgetAllocation.PhasingSumsExactly` | packages/budgetiq/src/kernel.ts:439-455 | so they sum to it exactly when the drift is zero, and always when the entries of each period weigh the same |
| `BudgetAllocation.RepeatedPeriod` | packages/budgetiq/src/kernel.ts:445-447 | the index texts "1" and "3" on one period give 3 and 3 of an annual 4, and nothing else |
| `Colouring.Painter.Visit` | packages/consolidationiq/src/kernel.ts:121-129 | one colouring call finishes its vertex, keeps what was coloured, and raises the flag only on a cycle |
| `Colouring.HasCycle` | packages/consolidationiq/src/kernel.ts:119-130 | the flag is set exactly when the graph has a cycle |
| `Colouring.TopologicalIsAcyclic` | packages/consolidationiq/src/kernel.ts:119-130 | a complete colouring without the flag rules cycles out |
| `OwnershipModel.HolderShrinks` | packages/consolidationiq/src/kernel.ts:135-146 | on an acyclic graph every recursive call of `share` has fewer ancestors: the recursion terminates |
| `OwnershipModel.PathsSolve` | packages/consolidationiq/src/kernel.ts:132-176 | the path sums solve the linear system that the cyclic branch would build |
| `OwnershipModel.AcyclicIsRegular` | packages/consolidationiq/src/kernel.ts:132-176 | on an acyclic graph that system has no kernel vector |
| `OwnershipModel.PathsSettle` | packages/consolidationiq/src/kernel.ts:132-176 | so the path sums are its one exact solution |
| `Ownership.Entities` | packages/consolidationiq/src/kernel.ts:106 | the entities are the mentioned references, each once, in order |
| `Ownership.BuildAdjacency` | packages/consolidationiq/src/kernel.ts:113-118 | the loop builds the holding graph: an edge for each interest and no other |
| `Ownership.PathSummer.Share` | packages/consolidationiq/src/kernel.ts:135-146 | the memoised recursion returns the path sum and keeps the memo right |
| `Ownership.SumPaths` | packages/consolidationiq/src/kernel.ts:132-152 | every entity but the root gets its path sum |
| `Ownership.BuildHoldings` | packages/consolidationiq/src/kernel.ts:157-165 | each matrix entry is the total weight of the interests between two entities |
| `Ownership.SystemHanded` | packages/consolidationiq/src/kernel.ts:170-175 | what is handed to the solver is the root's row and the matrix without the root's row and column |
| `Ownership.SolveHoldings` | packages/consolidationiq/src/kernel.ts:155-189 | the linear branch: the unique solution, or refused exactly for an unknown root or a singular system of the root |
| `Ownership.IntegrateOwnership` | packages/consolidationiq/src/kernel.ts:100-190 | every weight is the reading of the economic interest in the economic dimension and of the voting interest in the voting one; path sums on every acyclic graph; on every cyclic one the unique solution, or refused exactly for an unknown root or a singular system |
| `Ownership.EconomicAlone` | packages/consolidationiq/src/kernel.ts:109-110 | structures that agree in references and economic interests have the same economic weights, whatever the votes |
| `Ownership.VotesAlone` | packages/consolidationiq/src/kernel.ts:109-110 | and with the same votes the same voting weights, whatever the economic interests |
| `Ownership.BranchesAgree` | packages/consolidationiq/src/kernel.ts:97-190 | whichever branch answered, the shares are the one exact solution of the root's system |
| `Ownership.SharesUnique` | packages/consolidationiq/src/kernel.ts:97-190 | one structure has one integrated ownership |
| `Ownership.StrangerHoldsNothing` | packages/consolidationiq/src/kernel.ts:166-169 | an unmentioned root has the path sum zero everywhere |
| `Ownership.StrangerAnswered` | packages/consolidationiq/src/kernel.ts:132-169 | an unmentioned root is refused as unknown exactly on a cyclic graph, and gets zero everywhere on an acyclic one |
| `Ownership.ShareIsProportion` | packages/consolidationiq/src/kernel.ts:132-152 | when nobody is held more than whole and no weight is negative, every path sum lies between 0 and 1 |
| `SelfHolding.TransposesTogether` | packages/consolidationiq/src/kernel.ts:155-183 | a holding matrix has a kernel vector from the left exactly when it has one from the right |
| `SelfHolding.GroupHolds` | packages/consolidationiq/src/kernel.ts:170-175 | a row of the root's system against a group adds up to what the group without the root holds in that entity |
| `SelfHolding.SelfContainedSingular` | packages/consolidationiq/src/kernel.ts:170-183 | a group without the root that is held wholly by itself makes the root's system singular, whatever the other weights |
| `SelfHolding.SelfContainedIsRefused` | packages/consolidationiq/src/kernel.ts:170-183 | so it is refused on every structure that has such a group |
| `SelfHolding.SingularSelfContained` | packages/consolidationiq/src/kernel.ts:170-183 | with no negative interest and nobody held more than whole, the root apart, only such a group does |
| `SelfHolding.RefusedExactlyWhenSingular` | packages/consolidationiq/src/kernel.ts:132-183 | for a known root the refusal is exactly the singular system's, on every structure |
| `SelfHolding.RefusedExactlyWhenSelfContained` | packages/consolidationiq/src/kernel.ts:176-183 | with no negative interest and nobody held more than whole, the root apart: refused exactly when some group without the root is held wholly by itself, the case the refusal names |
| `SelfHolding.HeldTwiceIsRefused` | packages/consolidationiq/src/kernel.ts:176-183 | with an entity held more than whole the refusal can be given although the root holds half of an entity and no group holds itself |
| `SelfHolding.SharesAreProportions` | packages/consolidationiq/src/kernel.ts:132-189 | whichever branch answered: with no negative interest and nobody but the root held more than whole, every integrated share lies between 0 and 1 |
| `EquityPickup.MeasureKeeps` | packages/consolidationiq/src/kernel.ts:557-573 | carrying + pickup - distributions = new carrying, never negative; pickup - unrecognised = the rounded share |
| `EquityPickup.UnrecognisedIsLoss` | packages/consolidationiq/src/kernel.ts:562-570 | the unrecognised amount is a loss share for every result exactly when distributions do not exceed the carrying amount |
| `EquityPickup.LowerTier` | packages/consolidationiq/src/kernel.ts:549-551 | each recursive call goes to a strictly lower tier: the recursion terminates on every forest |
| `EquityPickup.LastOfIs` | packages/consolidationiq/src/kernel.ts:539 | the entry that counts is the last one listed under the reference |
| `EquityPickup.PickupRun.Compute` | packages/consolidationiq/src/kernel.ts:544-574 | one memoised call finishes its investee, changes nothing finished or open elsewhere, and keeps every finished measurement right |
| `EquityPickup.PickupRun.constructor` | packages/consolidationiq/src/kernel.ts:539-543 | the maps start as the investees by reference, their own results, and nothing computed |
| `EquityPickup.EquityPickup` | packages/consolidationiq/src/kernel.ts:535-577 | every investee is measured on its last entry: its own result and the pickups of all it holds, one for each entry |
| `EquityPickup.ConsistentUnique` | packages/consolidationiq/src/kernel.ts:525-577 | on a forest these equations have one solution |
| `EquityPickup.OrderIrrelevant` | packages/consolidationiq/src/kernel.ts:535-577 | the list order does not matter beyond which entry of a reference comes last |
| `EquityPickup.OrderIrrelevantOnce` | packages/consolidationiq/src/kernel.ts:535-577 | with each reference listed once it does not matter at all |
| `EquityPickup.PickupIsFold` | packages/consolidationiq/src/kernel.ts:525-577 | the recursion over the list in any order equals the plain fold over the references from the lowest tier upward |
| `EquityPickup.PickupFoldsUp` | packages/consolidationiq/src/kernel.ts:525-577 | every forest has an order from the lowest tier upward, so every pickup is that fold |
| `Cta.AdditiveWithinOne` | packages/consolidationiq/src/kernel.ts:289-292 | rounding a sum and summing the roundings differ by at most one minor unit, for all amounts and rates |
| `Cta.EquityTerm` | packages/consolidationiq/src/kernel.ts:324-339 | the tranche loop yields zero and refuses the first unregistered tranche |
| `Cta.TranslateAndProveCta` | packages/consolidationiq/src/kernel.ts:294-365 | answers exactly when half-even rounding is additive on the opening and result terms at the closing rate; the result is translated at the average rate, or at the mean of opening and closing rate under that convention; components sum to the CTA; a failed proof is exactly one unit off |
| `Cta.WholeRateIsAdditive` | packages/consolidationiq/src/kernel.ts:346-359 | at a whole closing rate the proof never fails |
| `Cta.ApplyRateNear` | packages/consolidationiq/src/kernel.ts:289-292 | a translated amount is within half a unit of the exact one |
| `Cta.ApplyRateRounds` | packages/consolidationiq/src/kernel.ts:289-292 | it is the exact one rounded half to even |
| `Cta.CtaIsNear` | packages/consolidationiq/src/kernel.ts:341-352 | the CTA is within one and a half units of the exact sum of its causes |
| `Cta.OpenCloseMeanIsMean` | packages/consolidationiq/src/kernel.ts:307-309 | the open-close convention is the mean of the two rates |
| `Cta.ProofCanFail` | packages/consolidationiq/src/kernel.ts:346-359 | the proof fails on correct inputs in both directions: the bound of one unit is tight |
| `Rounding.DivideAndRoundMeets` | packages/contracts/src/financePrimitives.ts:137-172 | the division meets the mathematical definition of each of its seven modes |
| `Rounding.RoundsToMonotone` | packages/contracts/src/financePrimitives.ts:137-172 | each definition is monotone in the numerator, and so leaves no choice |
| `Rounding.DivideAndRoundMonotone` | packages/contracts/src/financePrimitives.ts:137-172 | the division is monotone in the numerator in every mode |
| `Rounding.WholeQuotient` | packages/contracts/src/financePrimitives.ts:142 | a whole quotient is not rounded, in any mode |
| `Rounding.HalfEvenSymmetric` | packages/contracts/src/financePrimitives.ts:165-167 | half-even is symmetric about zero |
| `Rounding.CommonFactorIrrelevant` | packages/contracts/src/financePrimitives.ts:137-172 | only the ratio matters, in every mode |
| `Rounding.BillingRoundsTheSame` | packages/billingiq/src/kernel.ts:75-84 | billing's half-even returns the same integer as the primitive for every rational |
| `Rounding.PrinterRoundsTheSame` | packages/contracts/src/exactRational.ts:74-82 | the decimal printer's rounding returns the same integer for every input |
| `DecimalText.PrintReads` | packages/contracts/src/financePrimitives.ts:117-131 | minor units printed at any scale read back as the same units at that scale |
| `DecimalText.PrintInjective` | packages/contracts/src/financePrimitives.ts:117-131 | so printing is injective at every scale |
| `DecimalText.RationalTextReads` | packages/contracts/src/exactRational.ts:41-88 | printing a rational to p places and reparsing gives the half-even nearest multiple of 10^-p, written with exactly p digits after the point |
| `DecimalText.FractionReads` | packages/contracts/src/exactRational.ts:41-45 | for all whole n and d, "n/d" reads as n over d, and as nothing when d is zero |
| `DecimalText.FractionIs` | packages/contracts/src/exactRational.ts:41-45 | a text with a slash reads as the quotient of the whole numbers before and behind it, as nothing over zero or where one is none; a further slash does not count |
| `DecimalText.ReadWholeIs` | packages/contracts/src/exactRational.ts:42-44 | the whole numbers are the empty text, which is zero, and an optional minus with one digit or more |
| `DecimalText.ReadWholePrinted` | packages/contracts/src/exactRational.ts:42-44 | a printed whole number reads as itself |
| `DecimalText.TrailingZeros` | packages/contracts/src/financePrimitives.ts:192-200 | k trailing zeros multiply the digits by 10^k |
| `Money.DecimalIs` | packages/contracts/src/financePrimitives.ts:61 | a decimal string is an optional minus, one digit or more, and after a point one digit or more |
| `Money.RawUnitsRead` | packages/contracts/src/financePrimitives.ts:109-114 | the signed digits over a power of ten are the value that the shared decimal reader gives the text |
| `Money.UnitsRoundTrip` | packages/contracts/src/financePrimitives.ts:109-131 | building from minor units succeeds exactly for scales up to six, and reads back as the same units |
| `Money.PrintedIsCanonical` | packages/contracts/src/financePrimitives.ts:117-131 | what is built from minor units is canonical |
| `Money.CanonicalUnique` | packages/contracts/src/financePrimitives.ts:63-91 | canonical amounts of one scale are equal as strings exactly when they are equal as money |
| `Money.MoneyRoundTrip` | packages/contracts/src/financePrimitives.ts:63-131 | rebuilding an amount from its units gives it back exactly when it was canonical |
| `Money.SchemaIsNotCanonical` | packages/contracts/src/financePrimitives.ts:61-91 | at every scale the schema accepts three encodings of zero |
| `Money.RescaledOnce` | packages/contracts/src/financePrimitives.ts:280-289 | bringing a value to another scale rounds the exact value once |
| `Money.DecimalStringValue` | packages/contracts/src/financePrimitives.ts:174-212 | parsing gives the text's exact value in units of the scale, rounded once and only in a mode that was given; without one no digit is dropped; each refusal has its one cause |
| `Money.ConversionRoundsOnce` | packages/contracts/src/financePrimitives.ts:263-290 | a currency conversion rounds the exact product once, in the stated mode, and refuses exactly a text that is no decimal, a negative rate or a scale beyond the schema |
| `Money.SumMoney` | packages/contracts/src/financePrimitives.ts:244-261 | a sum of one denomination is exact and canonical; any other value is refused |
| `Schedules.ScheduleFromCumulative` | packages/assetfinanceiq/src/kernel.ts:161-175 | every prefix of the charges sums to the rounded cumulative value |
| `Schedules.ScheduleIsExact` | packages/assetfinanceiq/src/kernel.ts:157-175 | for a cumulative function that rises to the base: charges are non-negative and sum exactly to it, in every mode |
| `Schedules.StraightLineRuns` | packages/assetfinanceiq/src/kernel.ts:96-101 | the straight-line function is one |
| `Schedules.StraightLineSteps` | packages/assetfinanceiq/src/kernel.ts:96-101 | it takes the base in equal steps |
| `Schedules.DigitsLoop` | packages/assetfinanceiq/src/kernel.ts:107-108 | the loop sums the digits of the years |
| `Schedules.DigitsOfAllYears` | packages/assetfinanceiq/src/kernel.ts:104 | all the digits make up exactly the denominator |
| `Schedules.SumOfYearsDigitsRuns` | packages/assetfinanceiq/src/kernel.ts:103-111 | the sum-of-years-digits function is one |
| `Schedules.DigitSteps` | packages/assetfinanceiq/src/kernel.ts:103-111 | year by year it takes the base by the digits of the years, the life first and one last, over their sum |
| `Schedules.DecliningBalanceSchedule` | packages/assetfinanceiq/src/kernel.ts:120-155 | in every period the charge is, before the switch, the carrying amount times the factor over the life, and from the switch on the rest over the remaining periods, each rounded once in the stated mode and stopped at the residual and at zero; the switch is the first period in which straight line charges more |
| `Schedules.TermsTell` | packages/assetfinanceiq/src/kernel.ts:120-155 | these terms leave exactly one schedule: all its charges and its switch |
| `Schedules.NeverBelowResidual` | packages/assetfinanceiq/src/kernel.ts:148-152 | no charge is negative and the carrying amount never falls below the residual |
| `Schedules.ChargesSumExactly` | packages/assetfinanceiq/src/kernel.ts:120-155 | in all seven modes the charges sum to cost less residual if and only if the cost is not below it |
| `Schedules.LevelAfterSwitch` | packages/assetfinanceiq/src/kernel.ts:138-147 | from the switch on every charge is q or q + 1 for one fixed q |
| `Epochs.ChargeAt` | packages/assetfinanceiq/src/kernel.ts:347-353 | the loop returns the charge of the first epoch that governs the period |
| `Epochs.OpensExactly` | packages/assetfinanceiq/src/kernel.ts:323-344 | an opening is refused exactly for a change without authorization or a start in a period an epoch has reached; otherwise the epoch is appended |
| `Epochs.RunInOrder` | packages/assetfinanceiq/src/kernel.ts:324-344 | in every run of openings each epoch lies wholly after those before it |
| `Epochs.HistoryNeverRecomputes` | packages/assetfinanceiq/src/kernel.ts:323-353 | a charge once read stays what it was, whatever is opened later |
| `Epochs.OneEpochGoverns` | packages/assetfinanceiq/src/kernel.ts:323-353 | no two epochs of a run govern one period |
| `Commitments.LiquidationSplits` | packages/budgetiq/src/kernel.ts:227-251 | an accepted invoice is liquidated as far as money is outstanding, the rest stands beside it, flagged, and the state is liquidated exactly when nothing is left, partially liquidated otherwise; nothing else changes; refused exactly when not open or not positive |
| `Commitments.WholeInvoiceTaken` | packages/budgetiq/src/kernel.ts:241-243 | what is outstanding falls by the whole invoice exactly when the invoice does not exceed it |
| `Commitments.ReleaseKeeps` | packages/budgetiq/src/kernel.ts:255-265 | a release of an open commitment gives back exactly the outstanding amount and changes nothing else but the state |
| `Commitments.CarryForwardReports` | packages/budgetiq/src/kernel.ts:291-347 | what lapses was outstanding, what is carried is outstanding again, no run does both; the whole appropriation is carried under its own policy only; refused exactly without a policy |
| `Commitments.SuccessorsPoint` | packages/budgetiq/src/kernel.ts:303-336 | every open commitment of the period closes as lapsed or carried forward, and each successor is newly committed in the coming period for the amount that was open, named after and pointing back to it |
| `Commitments.BookTakesSuccessors` | packages/budgetiq/src/kernel.ts:323-335 | the successors entering the book are those that `carryForward` returns |
| `Commitments.BookTakesClosings` | packages/budgetiq/src/kernel.ts:310-336 | and the closing states are those it returns |
| `Commitments.StepSound` | packages/budgetiq/src/kernel.ts:212-347 | every operation keeps every commitment valid |
| `Commitments.OutstandingNeverNegative` | packages/budgetiq/src/kernel.ts:210-217 | in every reachable book nothing outstanding is negative |
| `Commitments.OriginalAccountedFor` | packages/budgetiq/src/kernel.ts:212-347 | along every chain of carry-forwards the root original is all that was liquidated, released, lapsed or is still outstanding |
| `Commitments.InvoicesAccountedFor` | packages/budgetiq/src/kernel.ts:219-251 | over every run accepted invoices equal liquidated plus unencumbered |
| `Commitments.PeriodEnd` | packages/budgetiq/src/kernel.ts:291-347 | lapse-all removes exactly `lapsedMinor` from what is outstanding; the other policies leave the total as it was |
| `Availability.AvailableIsCertain` | packages/budgetiq/src/kernel.ts:112-162 | a figure is given as available exactly when it is the only one the channels allow |
| `Availability.BoundIsLeast` | packages/budgetiq/src/kernel.ts:164-181 | an upper bound is given exactly when nothing is certain and a bound exists, and then it is the least |
| `Availability.BookAvailable` | packages/budgetiq/src/kernel.ts:153-162 | with every channel observed, what is available is the released amount less what is invoiced and outstanding on the book, plus transfers and carry-forward |
| `Availability.LiquidationIsNeutral` | packages/budgetiq/src/kernel.ts:220-252 | an accepted liquidation leaves that figure as it was exactly when the invoice does not exceed what is outstanding, and never raises it |
| `Availability.AvailabilityAccountedFor` | packages/budgetiq/src/kernel.ts:212-347 | over every run it moves by exactly the excess invoices, the releases and the lapses |
| `Tiers.WalkBands` | packages/billingiq/src/kernel.ts:253-268 | on every ascending table the band walk equals each unit at its own band's price plus one flat amount per band entered |
| `Tiers.RateTiered` | packages/billingiq/src/kernel.ts:225-269 | each refusal has its one cause; no quantity bills nothing or the first tier's flat amount; a volume is billed at the unit price and flat amount of the tier it lands in; a graduated quantity unit by unit |
| `Tiers.LandsOnce` | packages/billingiq/src/kernel.ts:249-252 | a quantity lands in one tier: the first that is unbounded or reaches it, the last one beyond a bounded table |
| `Tiers.GraduatedIsMonotone` | packages/billingiq/src/kernel.ts:253-268 | more is never cheaper when no price is negative |
| `Tiers.EveryUnitPriced` | packages/billingiq/src/kernel.ts:258-267 | every unit has a price exactly when the table is unbounded or reaches the quantity |
| `Tiers.BeyondTheTable` | packages/billingiq/src/kernel.ts:258-267 | what lies beyond a bounded table is not billed |
| `Numbering.AttestGapless` | packages/billingiq/src/kernel.ts:400-408 | the holes are exactly the values up to the mark not held by exactly one position, in order |
| `Numbering.RunNumbers` | packages/billingiq/src/kernel.ts:372-395 | after any run the n-th attempt holds number n, with its document, issued or void with its failure as it went |
| `Numbering.NumberTold` | packages/billingiq/src/kernel.ts:372-395 | an attempt is told its number exactly when it commits, and is refused exactly without a series |
| `Numbering.RunsAttest` | packages/billingiq/src/kernel.ts:372-408 | every run attests gapless |
| `Numbering.GaplessAccountsForAll` | packages/billingiq/src/kernel.ts:397-408 | a gapless attestation accounts for every position exactly when there are as many as the mark says |
| `CanonicalJson.Readable` | packages/auditiq/src/audit.ts:167-174 | in every collation, no canonical text is the text of two values or the start of the text of another |
| `CanonicalJson.SameText` | packages/auditiq/src/audit.ts:166-174 | where no keys but indices tie in the collation, neither the order of keys nor an absent field shows in the text |
| `CanonicalJson.CanonicalTellsMeaning` | packages/auditiq/src/audit.ts:166-174 | records of one text mean the same value; where no keys but indices tie, exactly those have one text |
| `CanonicalJson.OrderNeverShows` | packages/auditiq/src/audit.ts:166-174 | over all listings that an object can have, every record of one meaning has one text exactly when no two kept keys other than indices tie in the host's collation |
| `CanonicalJson.TwoSpellings` | packages/auditiq/src/audit.ts:172 | where the two spellings of an accented e tie, two records of one meaning have two texts |
| `Sorting.SortStable` | packages/auditiq/src/audit.ts:170-172 | the sort keeps tied entries in the order they are listed |
| `CanonicalJson.CanonicalHasNoSeparator` | packages/auditiq/src/audit.ts:186-188 | the separator never occurs in a canonical text |
| `JsonText.CanonicalIsJson` | packages/auditiq/src/audit.ts:166-174 | every canonical text is a JSON text of what the record means: read by the grammar of RFC 8259, each kept field is there once under its own name |
| `JsonText.MembersAscend` | packages/auditiq/src/audit.ts:170-173 | an object is printed with each kept field once, in the order of the host's collation |
| `JsonText.EscapeAllReads` | packages/auditiq/src/audit.ts:168 | by that grammar an escaped text reads as the text it came from |
| `JsonText.PlainStays` | packages/auditiq/src/audit.ts:168 | and nothing is escaped that need not be |
| `JsonText.ControlEscapes` | packages/auditiq/src/audit.ts:168 | line feed, tab, return, backspace and form feed have their short escapes, the unit separator its four lower-case digits |
| `CanonicalJson.IndexKeyIs` | packages/auditiq/src/audit.ts:169-172 | the keys that an object lists first are the printed whole numbers up to 4294967294 |
| `AuditChain.PreimageTells` | packages/auditiq/src/audit.ts:176-194 | equal hashed texts mean equal sequence, instance, previous hash and content; without ties the converse holds |
| `AuditChain.PreimageParts` | packages/auditiq/src/audit.ts:176-194 | the hashed text is the same exactly when sequence, instance, previous hash and canonical text are |
| `AuditChain.PreimagePieces` | packages/auditiq/src/audit.ts:176-194 | cut at the separator, the hashed text is the sequence in digits, the instance, the previous hash and the canonical text, in this order |
| `AuditChain.AuditLog.constructor` | packages/auditiq/src/audit.ts:120-121 | a new store holds no entries |
| `AuditChain.AuditLog.Record` | packages/auditiq/src/audit.ts:209-245 | a refused input changes nothing; an accepted one appends one entry that holds exactly the record and the instance submitted, counted, linked (to "genesis" in an empty store) and hashed over its own text, and keeps an intact store intact |
| `AuditChain.AuditLog.Verify` | packages/auditiq/src/audit.ts:266-321 | intact exactly for a chain; `recordsChecked` is the length of the longest prefix that is a chain; the reason is the first check that fails there |
| `AuditChain.RunsStayIntact` | packages/auditiq/src/audit.ts:209-245 | from an intact store every run of calls stays intact, only appends, and keeps one entry per accepted call |
| `AuditChain.RunKeepsSubmissions` | packages/auditiq/src/audit.ts:209-245 | what a run appends are exactly the accepted submissions, each once, in order, with the instance that made it |
| `AuditChain.LastHashFixesHistory` | packages/auditiq/src/audit.ts:40-46 | two stores that verify and end in the same hash hold the same evidence, entry by entry, unless two of their entries collide |
| `AuditChain.FieldOrderKeepsChain` | packages/auditiq/src/audit.ts:166-174 | a store that gives its records back with their fields in another order still verifies, as long as no keys tie |
| `AuditChain.CutShortStillVerifies` | packages/auditiq/src/audit.ts:43-45 | a store cut short still verifies: only a hash or count kept elsewhere shows the missing tail |

## Left out

- Reciprocal.SolveReciprocal: requires distinct centre references. With a repeated one the comparator at packages/allocationiq/src/kernel.ts:244 puts each of the two after the other, so the language leaves the order of the primary costs, and with it the answer, to the runtime. Consumer shares are taken as parsed rationals.
- EquityPickup.EquityPickup: requires a forest of holdings; on a cycle the code recurses forever.
- Ownership.IntegrateOwnership: requires a readable text for every interest in the chosen dimension, as the parser throws otherwise.
- Cta.TranslateAndProveCta: takes the rates as parsed rationals; entity, currency and scale fields play no part in the arithmetic.
- Tiers.RateTiered: requires a tier to land in for volume rating, as the code's own non-null assertion does; the graduated amount is stated for tables whose bounds never fall.
- BudgetAllocation.AllocateExact: names the failed exact-sum tripwire apart, where the code reuses its no-basis refusal.
- AuditChain.LastHashFixesHistory: SHA-256 is any function from text to text without the separator character; collisions between the two stores' own entries are excluded by assumption, none elsewhere.
- AuditChain.AuditLog.Record: the record arrives already validated or refused; ids, clocks and the rejection callback are not modelled.
- CanonicalJson.Canonical: `localeCompare` is the comparison of sort keys that an arbitrary collation assigns, so canonically equivalent keys such as U+00E9 and e with U+0301 may tie, as they do in the code; which collation a host uses is not part of the model. Objects list integer keys first and ascending. Lone surrogates cannot be written in the model's characters, and a number is its printed text.
- Refs.Less: references are ordered by code point, where the runtime compares UTF-16 code units; they agree on every reference without characters above the basic plane.
- DecimalText.RatioFromDecimal: `BigInt` also reads hexadecimal, surrounding blanks and a plus sign; such texts have no value here.
- Money.FromMinorUnits: the three-letter pattern of a currency code is not checked; the other arithmetic of exact money (add, subtract, compare) goes through minor units in one line each.
- Sorting: the runtime's sort is given as a stable insertion sort; its algorithm is not modelled.
- Native numbers: sequence numbers, periods, scales and array lengths are whole numbers without the limits of a double.
- The audit store's query, durability flag and freezing of copies, and the durable adapter behind the store's port.
- Step-down ordering, NCI allocation and measurement, method determination, impairment, disposal, MACRS and mid-quarter tables, proration, dunning, permission and authorization guards: one-branch choices and constant tables.
- Intercompany matching: it looks only from the declaration with the smaller id, so an ambiguity seen only from the other side is not refused; nothing is claimed about it.
- Availability.Assess: the reasons, channel states and pending consumption that are reported beside the figures are left out, a partial channel is taken to understate (packages/budgetiq/src/kernel.ts:165-171), and an unavailable one to allow any amount.
- Transfers and version derivation in the budget engine.
- Schemas that only describe shapes, the close engine, workflow and event stores, user interface, tracing and adapters.
