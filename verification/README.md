# Verified reference models for NeoEngine

Dafny models of the algorithms NeoEngine judges itself by, and of the engine code they judge, with
proofs for every input rather than for the seeds the fuzzers happen to draw.  Random draws are
ordinary parameters here, so a statement about a fuzz run covers all of its runs.

Check the whole project with `dafny verify dfyconfig.toml`.

## What is modelled

* **Contact graphs.** `ContactGraph` defines components by walks; `UnionFind` proves the three
  root searches, the dense labels, the spill count and the forest generator against it.
  `Closure` has the flood fill and island discovery, `Topology` the classifier, `Colouring` the
  colour check, the greedy colouring and the averaging kernel, `DirtyIslands` the merge scenario.
* **Isotonic projection.** `Isotonic` is pool-adjacent-violators as a specification, `RealFit`
  proves that it computes the unique least-squares fit, `WideInteger` the rounding.
  `WeightedProjection` (in place, masses, rounded means) and `ChainSolver` (floored means, warm
  start) are the two implementations, `ChainChecks` the gates of the chain fuzzer over whole runs.
  `BlockEnds`, `CountedTwice` and `WarmChain` follow the block ends the chain solver carries from
  frame to frame: when they are harmless, what they do otherwise, and warm runs against cold ones.
* **Exact oracles.** `ExactOracle` is the odometer search, `WeightedOracle` the two recursive
  enumerations; all three are exact over all integer vectors and agree with the solver.
* **Histories.** `FrameRing` is the ring against the sliding window, `DeltaLog` the meaning of
  checkpoints and deltas, `SnapshotStore` and `PersistentCheckpoint` two stores over it, `Rollback`
  and `TemporalEngine` the two rollback engines against a clean run.
* **Decisions.** `Policy` is the threshold search, `Selection` the index arithmetic of the
  benchmarks, `OfflineOracle` the dynamic program over encodings.

`Ordering` holds sorting and duplicate removal, `Wrappers` the optional value.

Code that changes state is modelled by methods and classes over arrays and fields; each is proved
against a specification function, and the properties are proved about that function.  Exceptions
are result values.  Masses, positions and velocities are mathematical integers; where a width
matters it is written out (the unsigned block count of the chain solver, the 16-bit back pointers
and wrapping additions of the offline oracle, the 64-bit frame counter of the ring).

## Promises that do not hold

* **Warm start** (`src/chain_solver.cpp:96-109`).  A partition that is rejected after some blocks
  were kept leaves them in the list the singletons are appended to, so values are counted twice.
  `ChainSolver.StartTilesIffClean` gives the exact condition on the start,
  `ChainSolver.CleanStartProjects` the guarantee under it and `ChainSolver.RejectedWarmStartDiverges`
  a failing input.  Over whole runs the fuzzer's promise that warm and cold engines agree
  (`apps/v09_fuzz.cpp:113-131`) fails on `WarmChain.UnsafeRunDiverges`.  It holds from every first
  frame that meets the condition `WarmChain.SafeStart` (`WarmChain.WarmRunIsColdRun`), which the
  fuzzer's own chains do (`WarmChain.FuzzerGateHolds`), and exactly then as far as pooling goes
  (`WarmChain.PoolingIsIdleIffSafe`) and, on chains whose bodies stay close, as far as the answers go
  (`WarmChain.CloseRunsAgreeIffSafe`).
* **Violation count** (`apps/v10_fuzz.cpp:199-202`).  Averaging passes can raise the number of
  violated contacts: `Colouring.ViolationsMayGrow`.  The contact lists on which they never do, whatever
  the data, the schedule and the number of iterations, are exactly the light ones:
  `Colouring.GateHoldsIffLight`, with two families in `Colouring.LightFamilies`.
* **Saturating cost** (`src/offline_oracle.cpp:18-20`).  The subtraction wraps when the right operand
  exceeds the saturation value: `OfflineOracle.AddSaturatedIsCappedIff` is exact,
  `OfflineOracle.HugeCostWrapsToZero` a failing trace.  A trace whose legal sequences all reach the
  saturation value is reported as having no feasible sequence, which `OfflineOracle.Solve` states.
* **Back pointers** (`src/offline_oracle.cpp:22-27`).  A delta run beyond 16 bits is stored truncated:
  `OfflineOracle.TruncatedPointerMisleads`; `OfflineOracle.RunsFitIff` says when none is.
* **Restoring forward** (`src/paged_atomic_temporal_physics.cpp:101-105`).  A frame after the present
  can still hold a snapshot of an abandoned run: `TemporalEngine.RestoreAbandoned`, and the exact
  condition in `TemporalEngine.Engine.Restore`.
* **Clearing the ring** (`include/neoeng/core/indexed_ring.hpp:57-60`).  With the last representable
  frame as the latest one the loop has no end: `FrameRing.ClearingEndsIff`.
* **Epsilon ties** (`apps/v12_policy_benchmark.cpp:164-172`).  The lexicographic clause never decides
  anything under the ascending scan, so ties drift: `Policy.ScanRises`, `Policy.TiesDrift` (and
  `Policy.SavingsAreKept` beyond the epsilon).  The choice
  is within one epsilon of the best exactly when `Policy.Settled` holds of the candidates' costs.
* **Touched pages** (`apps/adaptive_benchmark.cpp:152-154`).  The number reported for a scattered
  selection is too large on some uneven pages: `Selection.UnevenPagesAreOverstated`, with the exact
  condition in `Selection.ScatteredFormulaIff`.
* **Distinct trace indices** (`apps/v04_benchmark.cpp:297`).  In the dispersed ten-percent phase a
  body count that 97 divides names fewer bodies than it asks for: `Selection.TraceMarksAllIff`.

## Model

| member | source | states |
|---|---|---|
| ContactGraph.KeyIsLeastReachable | apps/v22_fuzz.cpp:30-48 | a body's key is reached from it by a walk and no reached body is smaller |
| ContactGraph.SameKeyIffReaches | apps/v22_fuzz.cpp:30-48 | two bodies carry one key exactly when a walk of contacts joins them |
| ContactGraph.KeysAreUnique | apps/v22_fuzz.cpp:30-48 | any labelling that agrees across contacts, never exceeds its body and is reached from it is the key labelling |
| ContactGraph.KeysDependOnReachOnly | apps/v22_fuzz.cpp:30-48 | two contact lists with the same reachability have the same keys: order, repeats and orientation do not matter |
| ContactGraph.KeysPermutationInvariant | apps/v22_fuzz.cpp:87-88 | shuffling the contacts changes no key |
| ContactGraph.KeysAgreeAcrossContacts | apps/v22_fuzz.cpp:38-44 | every contact ends up with one key at both of its bodies |
| ContactGraph.ComponentsAtLeast | apps/v22_fuzz.cpp:38-44 | m contacts leave at least bodies minus m components |
| ContactGraph.ForestIffCounts | apps/v22_fuzz.cpp:76-86 | a contact list is a forest exactly when components are bodies minus contacts |
| ContactGraph.RedundantContact | apps/v22_fuzz.cpp:82 | a contact whose bodies stay joined without it changes no key |
| UnionFind.FindRoot | apps/v22_fuzz.cpp:34-37 | the plain search terminates at the root, because parents never exceed children |
| UnionFind.FindCompressing | src/island_runtime.cpp:73-82 | the two-pass search returns the root, hangs the body below it and keeps every body's root |
| UnionFind.FindHalving | src/island_pair_cache.cpp:28-34 | the halving search returns the root and keeps every body's root |
| UnionFind.Unite | src/island_runtime.cpp:84-92 | uniting two bodies merges their labels under the smaller root, and nothing else moves |
| UnionFind.Link | apps/v22_fuzz.cpp:38-44 | one contact of the reference model merges the labels of its bodies and says whether it did |
| UnionFind.ShortcutKeepsRoots | src/island_runtime.cpp:76-80 | rehanging a body on an ancestor keeps every root |
| UnionFind.BuildParents | apps/v22_fuzz.cpp:30-48 | after all contacts the parent array stands for the keys of the contact list |
| UnionFind.ModelKeys | apps/v22_fuzz.cpp:30-48 | the returned array is exactly the key labelling of the contact list |
| UnionFind.LabelRoots | apps/v21_fuzz.cpp:30-32 | labels handed out in scan order are the dense labels of the keys |
| UnionFind.ModelIslands | apps/v21_fuzz.cpp:26-33 | the returned labels are the dense labels of the contact list's keys |
| UnionFind.DenseLabelsFollowKeys | apps/v21_fuzz.cpp:30-31 | labels agree exactly when keys agree and order bodies as their component minima do |
| UnionFind.DenseLabelsAreGapless | apps/v21_fuzz.cpp:30-31 | the labels in use are exactly 0 to components minus 1 |
| UnionFind.CountSpill | apps/v21_fuzz.cpp:64 | the count is the number of pairs whose bodies lie in different islands |
| UnionFind.SpillAndInsidePartition | apps/v21_fuzz.cpp:64 | spill pairs and same-island pairs together are all pairs, with multiplicity |
| UnionFind.SpillByLabelsIsSpillByKeys | apps/v21_fuzz.cpp:59-70 | a pair spills by labels exactly when no walk joins its bodies, so labels and keys spill the same pairs |
| UnionFind.MakeTopology | apps/v22_fuzz.cpp:67-89 | the generator emits a forest that spans the draws it looked at, with components equal to bodies minus contacts |
| UnionFind.ShuffledForest | apps/v22_fuzz.cpp:87 | any permutation of the emitted contacts has the same keys, component count and is a forest |
| Closure.BuildAdjacency | apps/v06_fuzz.cpp:37-41 | each body's list holds exactly its neighbours, both directions of every pair |
| Closure.Flood | apps/v06_fuzz.cpp:48-57 | the queue runs dry with the marking closed under contacts, every mark justified by an initial one and no body taken twice |
| Closure.BruteClosure | apps/v06_fuzz.cpp:33-63 | the result is strictly increasing and holds exactly the bodies some seed reaches |
| Closure.ClosureIsUnionOfClasses | apps/v06_fuzz.cpp:33-63 | the closure is the union of the seeds' key classes |
| Closure.ClosureIsLeast | apps/v06_fuzz.cpp:33-63 | it is the least set that contains the seeds and is closed under the pairs |
| Closure.ClosureKeepsWholePairs | apps/v06_fuzz.cpp:99-104 | filtering by both ends keeps exactly the pairs with one end in the closure |
| Closure.DiscoverIslands | apps/v10_fuzz.cpp:121-157 | discovery lists each non-trivial component once, at its least body, with the sorted bodies and the unique contacts inside it |
| Closure.SeedIsLeast | apps/v10_fuzz.cpp:133-138 | the seed that opens an island is its least body |
| Closure.FloodTakesComponent | apps/v10_fuzz.cpp:136-149 | from a fresh seed the queue takes exactly the seed's component |
| Closure.IslandsAreDisjoint | apps/v10_fuzz.cpp:132-157 | two islands that share a body are the same island |
| Closure.IslandsCoverInvolvedBodies | apps/v10_fuzz.cpp:132-157 | the islands cover exactly the bodies that touch something |
| Closure.ContactHasOneIsland | apps/v10_fuzz.cpp:151-155 | every contact lies in exactly one island, together with both of its bodies |
| Closure.EdgeCountsAddUp | apps/v10_fuzz.cpp:151-155 | the islands' contact counts sum to the number of contacts |
| Closure.FrontsAreKeys | apps/v10_fuzz.cpp:158-160 | first bodies ascend and are the islands' keys, so the later sort by front changes nothing |
| Topology.CountDegrees | apps/v10_fuzz.cpp:22-28 | each counter is the number of contacts that touch its body |
| Topology.ReferenceTopology | apps/v10_fuzz.cpp:18-39 | the answer is the shape decided by body count, contact count and degrees |
| Topology.Handshake | apps/v10_fuzz.cpp:22-28 | degrees sum to twice the number of contacts |
| Topology.TreeIffOneFewer | apps/v10_fuzz.cpp:34-36 | a connected island has at least bodies minus 1 contacts and is acyclic exactly at that number |
| Topology.SpanningPath | apps/v10_fuzz.cpp:35 | a connected island with degrees at most two has a simple path through all of its bodies |
| Topology.PathIffCounts | apps/v10_fuzz.cpp:34-36 | an island is a simple path exactly when it has one contact fewer than bodies and no degree above two |
| Topology.CycleIffCounts | apps/v10_fuzz.cpp:37 | an island is one simple cycle exactly when it has as many contacts as bodies and every degree is two |
| Topology.ClassifierIsExact | apps/v10_fuzz.cpp:18-39 | on every connected simple island matching, chain, tree, cycle and general each mean what they say, in both directions |
| Topology.DiscoveredIslandsAreConnected | apps/v10_fuzz.cpp:164-172 | every discovered island is connected and simple, so the classification is exact there |
| Colouring.ColourIsProper | apps/v10_fuzz.cpp:173-183 | the set check of one colour accepts exactly when its contacts join different bodies and share none |
| Colouring.ColoursAccepted | apps/v10_fuzz.cpp:173-183 | the whole check accepts exactly the proper colourings |
| Colouring.FirstFree | src/island_runtime.cpp:231-235 | the least colour below 64 the mask leaves free, or none |
| Colouring.GreedyColours | src/island_runtime.cpp:224-249 | the masked colouring is proper and first fit: each contact gets the least of 64 colours no earlier contact it meets has, or else the next of its own; the count is one more than the largest; refused exactly at the first contact that needs a colour beyond 16 bits |
| Colouring.FirstFitIsUnique | src/island_runtime.cpp:224-249 | first fit leaves no choice: colours depend on the contact order only |
| Colouring.FewMeetFewColours | src/island_runtime.cpp:224-249 | a contact that meets fewer than 64 earlier ones gets a colour no larger than their number, so only crowded islands overflow |
| Colouring.OnePass | apps/v10_fuzz.cpp:173-183 | without shared bodies every contact sees the original values and other bodies keep theirs |
| Colouring.OrderWithinColourIsIrrelevant | apps/v10_fuzz.cpp:173-183 | any two orders of one accepted colour give the same vector, for every update of a contact's two bodies |
| Colouring.OnlyOwnUpdatesMatter | src/island_runtime.cpp:303-324 | on an island's bodies only that island's updates matter |
| Colouring.InterleavingIsInvisible | apps/v10_fuzz.cpp:192-198 | schedules that agree island by island give the same vector: worker count and timing cannot show |
| Colouring.IslandKeysSeparate | src/island_runtime.cpp:303-313 | the keys of the classified contacts keep schedules apart as the two lemmas above require |
| Colouring.AveragingConserves | src/island_runtime.cpp:315-320 | every schedule of the averaging kernel conserves the total and stays within the data's bounds |
| Colouring.AverageLeans | src/island_runtime.cpp:315-320 | the kernel leaves an ordered pair alone; a violated one keeps its sum, ends ordered and at most one apart, and weight moves to the larger body |
| Colouring.QuietPassIffOrdered | src/island_runtime.cpp:307-324 | a pass over any schedule changes nothing exactly when no contact is violated; otherwise it moves weight upwards |
| Colouring.GateHoldsIffLight | apps/v10_fuzz.cpp:199-202 | the gate on violation counts holds for all data, all schedules over the contacts and all iteration counts exactly when at each contact no more contacts hang on the far sides than run parallel to it |
| Colouring.LightNeverGrows | apps/v10_fuzz.cpp:199-202 | for such contacts no number of iterations of any schedule raises the count |
| Colouring.HeavyContactGrows | apps/v10_fuzz.cpp:199-202 | at any other contact one average of explicit data raises it |
| Colouring.LightFamilies | apps/v10_fuzz.cpp:199-202 | islands in which no body is the upper end of one contact and the lower end of another, and islands of at most two contacts, are of the first kind |
| Colouring.ViolationsMayGrow | apps/v10_fuzz.cpp:199-202 | a chain of four is of the other kind: four iterations of its coloured schedule turn one violated contact into two |
| Isotonic.PoolingTiles | src/chain_solver.cpp:111-123 | pooling any tiling by irreducible blocks leaves such a tiling with nondecreasing means |
| Isotonic.JoinIsIrreducible | src/chain_solver.cpp:115-122 | joining two irreducible neighbours whose means are out of order gives an irreducible block |
| RealFit.Pythagoras | src/weighted_contact_projection.cpp:106-125 | the block means of a pooled tiling are the least-squares projection onto nondecreasing real vectors |
| RealFit.FitIsUnique | src/chain_solver.cpp:95-123 | two pooled tilings of the same values have the same fit, however different their blocks |
| RealFit.PoolingFits | src/chain_solver.cpp:111-123 | whatever valid tiling pooling starts from, it ends at that unique fit |
| RealFit.RoundedFitIsOptimal | src/weighted_contact_projection.cpp:127-131 | rounding each mean to a nearest integer costs no more than any nondecreasing integer vector |
| WideInteger.FloorDiv | src/chain_solver.cpp:36-43 | correcting a truncated quotient by its remainder gives the largest integer not above the ratio |
| WideInteger.RoundedDiv | src/weighted_contact_projection.cpp:38-50 | the result is a nearest integer, the smaller one on a tie |
| WeightedProjection.PavIsOptimal | src/weighted_contact_projection.cpp:99-143 | the projection is nondecreasing and no nondecreasing integer vector has a smaller weighted cost |
| WeightedProjection.PavStaysInRange | src/weighted_contact_projection.cpp:131 | projected values stay within the input's range, so narrowing them back cannot overflow |
| WeightedProjection.PavScratch.Place | src/weighted_contact_projection.cpp:109-114 | a new singleton block sits on top of the stack; the blocks below are unchanged |
| WeightedProjection.PavScratch.JoinTop | src/weighted_contact_projection.cpp:120-123 | the two top blocks become their join; the blocks below are unchanged |
| WeightedProjection.PavScratch.SettleTop | src/weighted_contact_projection.cpp:115-124 | joining continues until the stack is the settled stack of the specification |
| WeightedProjection.PavScratch.Absorb | src/weighted_contact_projection.cpp:107-125 | one body pushed and settled is one step of pooling |
| WeightedProjection.PoolInto | src/weighted_contact_projection.cpp:106-125 | the scratch arrays hold exactly the pooled blocks of the island's values and masses |
| WeightedProjection.FillBlock | src/weighted_contact_projection.cpp:133-139 | writing a block changes exactly its bodies |
| WeightedProjection.WeightedPav | src/weighted_contact_projection.cpp:99-143 | the island's bodies are overwritten in place with the projection of their original values, and no other body changes |
| ChainSolver.BlockIsIrreducible | src/chain_solver.cpp:51-66 | the prefix scan accepts exactly the ranges no prefix of which averages below the whole |
| ChainSolver.WarmPartition | src/chain_solver.cpp:68-87 | the result says whether the ends describe irreducible blocks of all values, and the list holds the blocks kept before a rejection |
| ChainSolver.StartTilesIffClean | src/chain_solver.cpp:95-109 | pooling starts from a tiling exactly when the warm start was absent, accepted, or rejected with nothing kept |
| ChainSolver.CleanStartProjects | src/chain_solver.cpp:89-134 | from such a start the solver returns the cold projection without overflow: the warm start never shows |
| ChainSolver.RejectedWarmStartDiverges | src/chain_solver.cpp:96-109 | blocks kept before a rejection stay in the list: [10, 0, 3] with ends [1, 3] yields [7, 7, 7] instead of [4, 4, 4] |
| ChainSolver.RejectedWarmStartMayAgree | src/chain_solver.cpp:96-109 | a kept block of weight zero can leave the pooled blocks unharmed, so the condition on the start is about the block list, not about every answer |
| ChainSolver.IsotonicFloorProjection | src/chain_solver.cpp:89-134 | the method returns the written blocks of the pooled start list and reports attempt and acceptance |
| ChainSolver.AnyTilingProjectsAlike | src/chain_solver.cpp:111-132 | every starting tiling by irreducible blocks leads to the same projected values |
| ChainSolver.FlooredMeanBetween | src/chain_solver.cpp:128 | a floored mean lies within the data, so its conversion cannot overflow |
| ChainSolver.WritingATiling | src/chain_solver.cpp:125-132 | writing the blocks of a tiling yields its painted values and its ends |
| ChainSolver.ProjectionRises | src/chain_solver.cpp:111-132 | projected values never fall from one body to the next |
| ChainSolver.ProjectionBetween | src/chain_solver.cpp:125-132 | projected values stay within the bounds of the data |
| ChainSolver.ProjectionResiduals | apps/v09_fuzz.cpp:77-95 | every prefix of the inputs outweighs its outputs and in all less than one unit per body is lost |
| ChainSolver.ProjectionOfOrderedIsItself | src/chain_solver.cpp:111-132 | an ordered vector is left alone |
| ChainSolver.ProjectionIsIdempotent | src/chain_solver.cpp:111-132 | projecting twice changes nothing more |
| ChainChecks.ChainInvariants | apps/v09_fuzz.cpp:54-66 | the scan accepts exactly the separated, velocity-ordered, level chains |
| ChainChecks.SeparationAccumulates | apps/v09_fuzz.cpp:56-61 | adjacent checks reach across the chain: bodies i < j are at least j - i diameters apart, and velocities are ordered over any distance |
| ChainChecks.FlightKeepsChain | apps/v09_fuzz.cpp:81-82 | under any monotone rounding an ordered chain stays ordered, and a level one level, over any number of free frames |
| ChainChecks.DisplacementIsMonotone | include/neoeng/core/fixed.hpp:59-62 | truncating fixed-point multiplication by the step is such a rounding |
| ChainChecks.DisplacementTruncates | include/neoeng/core/fixed.hpp:59-62 | a displacement is velocity times step over 2^32 cut off toward zero, the step a sixtieth rounded down; going left mirrors going right |
| ChainChecks.SixtyFramesOfFlight | include/neoeng/core/fixed.hpp:96 | sixty frames carry a body no further than its velocity, short of it by less than sixty raw units and the step's error |
| ChainChecks.PredictionsMove | apps/v09_fuzz.cpp:81-82 | every prediction the check reads moves its body by just that |
| ChainChecks.MirrorFlies | apps/v09_fuzz.cpp:81-82 | the mirror image of a chain flies as the mirror image of its flight, over any number of frames |
| ChainChecks.ProjectionKkt | apps/v09_fuzz.cpp:68-96 | the scan accepts exactly when both outputs rise, no prefix residual is negative and the total stays below one unit per body, positions compared after the cast to 64 bits; or a prediction overflows |
| ChainChecks.NarrowingIsInvisible | apps/v09_fuzz.cpp:85-88 | the cast does not show on shifted positions that fit |
| ChainChecks.KktImpliesOrder | apps/v09_fuzz.cpp:68-96 | an accepted frame is separated and velocity-ordered |
| ChainChecks.ResidualBound | apps/v09_fuzz.cpp:77-79 | against every nondecreasing vector the residual sums to at most the total residual times the last entry |
| ChainChecks.SumVelocityX | apps/v09_fuzz.cpp:48-52 | the loop returns the momentum |
| ChainChecks.MomentumOverAcceptedRun | apps/v09_fuzz.cpp:112-128 | over k accepted steps the momentum never rises and drops by at most k(n - 1) |
| ChainChecks.SolvedFrameIsAccepted | src/chain_solver.cpp:263-322 | every frame solved without carried block ends passes the fuzzer's check |
| ChainChecks.AcceptedChainFliesFreely | src/chain_solver.cpp:288-291 | without carried block ends the projections have nothing left to do on an ordered chain |
| ChainChecks.SolvedFrameMoves | src/chain_solver.cpp:263-322 | a solved frame of an ordered chain moves every body by its truncated displacement and nothing else |
| ChainChecks.MirrorIsSolvedAlike | src/chain_solver.cpp:263-322 | solved frames of an ordered chain and of its mirror image mirror each other, however long they run |
| ChainChecks.LeftwardPair | include/neoeng/core/fixed.hpp:59-62 | two touching bodies at velocity -100 move by -1, where flooring would give -2 |
| ChainChecks.SolverSettlesInOneFrame | apps/v09_fuzz.cpp:112-128 | without carried block ends the chain only flies after its first solved frame, however long it runs |
| ChainChecks.MomentumBoundForever | apps/v09_fuzz.cpp:129-135 | without carried block ends the momentum bound holds over any number of frames |
| BlockEnds.KeepableIffFlat | src/chain_solver.cpp:51-66 | on ordered values the ranges a warm start may keep are exactly the constant ones |
| BlockEnds.IdleIffSteady | src/chain_solver.cpp:95-123 | on ordered values carried ends cause no pooling exactly when all parts are constant, or the first is not, or everything kept is one constant range |
| BlockEnds.WritingLevelBlocks | src/chain_solver.cpp:125-132 | constant blocks write back the values they lie on, however they overlap |
| BlockEnds.SteadyStart | src/chain_solver.cpp:89-134 | such ends leave ordered values as they are and hand on themselves, or those kept and then one per value |
| BlockEnds.SteadyIsInherited | src/chain_solver.cpp:401-407 | and the ends handed on do so again for any values with equal neighbours in the same places |
| BlockEnds.ColdProject | src/chain_solver.cpp:89-134 | without carried ends the answer is the projection, constant on every part of the ends it hands on |
| CountedTwice.AllPushed | src/chain_solver.cpp:96-123 | when close ordered values start over behind kept blocks, everything joins one block that counts the kept values twice |
| CountedTwice.RestartShows | src/chain_solver.cpp:89-134 | then the answer is not the values |
| CountedTwice.AnswerIffSteady | src/chain_solver.cpp:89-134 | on close ordered values carried ends do no harm exactly when they cause no pooling |
| WarmChain.ReadChain | src/chain_solver.cpp:263-280 | velocities and shifted predictions are read unless one does not fit 64 bits |
| WarmChain.WriteChain | src/chain_solver.cpp:312-322 | the projected chain is written unless a position does not fit |
| WarmChain.RecordImpulses | src/chain_solver.cpp:379-398 | the impulses between neighbours and the total rounding error fit, or the frame fails |
| WarmChain.SolveChainFrame | src/chain_solver.cpp:263-407 | one frame with the block ends of the last: range error, or the projected chain and the ends handed on |
| WarmChain.RestingPairParts | src/chain_solver.cpp:263-322 | two resting bodies that overlap are parted to exactly one diameter about their middle, rounded down |
| WarmChain.OrderedFrameRunsIff | src/chain_solver.cpp:25-34 | without carried ends the frame of an ordered chain ends in a range error exactly when a velocity, a prediction or its shifted position does not fit 64 bits |
| WarmChain.RunningFrameFits | src/chain_solver.cpp:312-398 | a frame that goes on leaves positions, impulses and rounding error within 64 bits |
| WarmChain.ImpulseOverflows | src/chain_solver.cpp:379-398 | two bodies meeting at the extreme velocities: all that is read fits, the impulse between them does not |
| WarmChain.ColdRunIsSolveFor | src/chain_solver.cpp:282-291 | without the warm start a run that does not fail is the solved run |
| WarmChain.CruiseStep | src/chain_solver.cpp:263-407 | an ordered chain with harmless ends flies freely, hands on harmless ends, and does what the cold frame does |
| WarmChain.PoolingIsIdleIffSafe | src/chain_solver.cpp:282-323 | after the first frame no projection ever pools exactly when one condition on that frame holds; already the second frame decides |
| WarmChain.WarmRunIsColdRun | apps/v09_fuzz.cpp:113-125 | from such a first frame the warm run is the cold run, frame by frame, range errors included |
| WarmChain.WarmFramesPass | apps/v09_fuzz.cpp:113-138 | and every warm frame passes the residual and chain checks, with the momentum bound over the whole run |
| WarmChain.CloseRunsAgreeIffSafe | apps/v09_fuzz.cpp:113-125 | if the second frame reads close values, warm and cold agree for every number of frames exactly under that condition |
| WarmChain.FallingPoolsToOne | src/chain_solver.cpp:111-123 | values that fall all the way are pooled into one block |
| WarmChain.OneBlockIsSafe | src/chain_solver.cpp:282-291 | a first frame that pools the positions into one block meets the condition |
| WarmChain.FuzzerGateHolds | apps/v09_fuzz.cpp:16-138 | on every chain the fuzzer draws, warm and cold agree and every warm frame passes, over any number of frames |
| WarmChain.BoundedRunGoesOn | src/chain_solver.cpp:25-34 | on chains of bounded speed no range error ends the run before the bodies are far out |
| WarmChain.FuzzerRunGoesOn | apps/v09_fuzz.cpp:16-113 | so no run of the fuzzer's sizes overflows within its eight frames, nor within 2^24 |
| WarmChain.UnsafeRunDiverges | apps/v09_fuzz.cpp:113-131 | four touching bodies whose second warm frame parts from the cold one and fails the residual check |
| WarmChain.UnsafeRunMayAgree | src/chain_solver.cpp:96-123 | where values are not close the condition is about the block list, not about every answer: an unsafe run whose second frame agrees |
| ExactOracle.IsFeasible | apps/v12_fuzz.cpp:45-54 | the scan accepts exactly the vectors ordered across every contact |
| ExactOracle.FeasibleEitherWay | apps/v12_fuzz.cpp:45-54 | feasible means the smaller index is not above the larger across every contact, whichever way round it is stored |
| ExactOracle.Objective | apps/v13_fuzz.cpp:41-50 | the loop returns the weighted squared distance |
| ExactOracle.UnitObjective | apps/v12_fuzz.cpp:34-43 | the loop returns the squared distance |
| ExactOracle.ClampIsAsGood | apps/v12_fuzz.cpp:59-60 | clamping a feasible vector to the data's range keeps it feasible and never raises the cost |
| ExactOracle.ReadingAtPosition | apps/v12_fuzz.cpp:63-78 | every box vector is the reading at its own position |
| ExactOracle.PositionOfReading | apps/v12_fuzz.cpp:63-78 | and every position is the position of its reading, within the box size |
| ExactOracle.CarryAddsOne | apps/v12_fuzz.cpp:68-76 | one carry moves the odometer to the next position |
| ExactOracle.Advance | apps/v12_fuzz.cpp:68-77 | one turn yields the next reading, or reports the wrap after the last |
| ExactOracle.VisitedExactlyOnce | apps/v12_fuzz.cpp:63-78 | every vector of the box is visited at exactly one turn |
| ExactOracle.SearchBox | apps/v12_fuzz.cpp:61-79 | the search ends with the least cost among the feasible vectors of the box, having visited every reading in order |
| ExactOracle.BoxOptimumIsOptimum | apps/v12_fuzz.cpp:56-80 | the optimum over the box is the optimum over all integer vectors |
| ExactOracle.BruteForce | apps/v12_fuzz.cpp:56-80 | the returned value is attained by a feasible vector and no feasible integer vector, inside the box or not, costs less |
| WeightedOracle.EnumerateMonotone | apps/v13_fuzz.cpp:52-65 | the recursion improves the best value by exactly the nondecreasing completions of the prefix within the bracket |
| WeightedOracle.IsFeasibleAsStored | apps/v13_fuzz.cpp:140-146 | the leaf test accepts exactly the vectors ordered across every contact as stored |
| WeightedOracle.EnumerateFeasible | apps/v13_fuzz.cpp:148-165 | the recursion improves the best value by exactly the feasible completions of the prefix within the box |
| WeightedOracle.FilteredOracleIsExact | apps/v13_fuzz.cpp:148-165 | any bracket that contains the data makes the filtered oracle exact over all integer vectors |
| WeightedOracle.ChainContactsOrder | apps/v13_fuzz.cpp:117-120 | adjacent contacts plus the pair of ends hold exactly on nondecreasing vectors |
| WeightedOracle.ProjectionIsChainOptimum | apps/v13_fuzz.cpp:123-135 | the pooled projection is the optimum under the chain contacts |
| WeightedOracle.MonotoneOracleIsSolver | apps/v13_fuzz.cpp:130-135 | the pruned oracle returns the solver's cost, capped by the sentinel |
| WeightedOracle.OraclesAndSolverAgree | apps/v13_fuzz.cpp:117-165 | on the chain contacts both oracles and the solver have one cost |
| WeightedOracle.RunMonotoneOracle | apps/v13_fuzz.cpp:108-135 | the fuzzer's bracket, one wider than the data and zero, makes the pruned search equal the solver's cost, on ordinary inputs without a cap |
| WeightedOracle.OrdinaryIsBelowSentinel | apps/v13_fuzz.cpp:130-131 | for at most 2^16 bodies with 32-bit masses and values within 2^34 of zero the starting value 2^120 lies beyond the solver's cost |
| Ordering.SortKeepsElements | apps/v10_fuzz.cpp:150 | sorting keeps the elements, and distinct elements end up strictly ascending |
| Ordering.SortedUniqueIsSet | apps/v04_benchmark.cpp:304-306 | sorting and dropping adjacent repeats leaves each value once, in order |
| Ordering.SortedUniqueKeepsAllIff | apps/v04_benchmark.cpp:304-306 | nothing is dropped exactly when the list had no repeats |
| DirtyIslands.BuildMerged | apps/v25_benchmark.cpp:82-100 | the builder's contacts, sorted pairs and dirty list, for any sizes |
| DirtyIslands.BuildScenario | apps/v26_benchmark.cpp:88-108 | more than 1024 islands are refused; otherwise the lists are those of the builder on 5000 pairs |
| DirtyIslands.MergedKeys | apps/v26_benchmark.cpp:88-113 | merged keys are 4i for bodies 4i to 4i+3 of every dirty island i and the split keys elsewhere |
| DirtyIslands.DirtyListIsExact | apps/v26_benchmark.cpp:100-107 | the dirty list names exactly the bodies whose component the bridges changed |
| DirtyIslands.SortedIsUnique | apps/v26_benchmark.cpp:108 | two ascending arrangements of the same pairs are the same list, so the sorting algorithm does not matter |
| DirtyIslands.SortedPairsAreExact | apps/v26_benchmark.cpp:104-108 | the sorted pair list in closed form: each dirty island's two pairs around its bridge, then the rest, no pair twice |
| DirtyIslands.PairsPerIsland | apps/v26_benchmark.cpp:113 | an island holds three pairs if dirty and one if not, never more than the segment limit of three |
| DirtyIslands.NothingSpills | apps/v25_benchmark.cpp:92-100 | no merged pair joins two islands |
| FrameRing.IndexedFrameRing.Make | include/neoeng/core/indexed_ring.hpp:16-19 | a zero capacity is refused; otherwise the ring starts empty |
| FrameRing.IndexedFrameRing.constructor | include/neoeng/core/indexed_ring.hpp:16-19 | a ring of the given capacity that retains nothing |
| FrameRing.IndexedFrameRing.Contains | include/neoeng/core/indexed_ring.hpp:38-42 | true exactly for the frames of the retained window |
| FrameRing.IndexedFrameRing.At | include/neoeng/core/indexed_ring.hpp:44-47 | the window's value at a retained frame, nothing at any other |
| FrameRing.IndexedFrameRing.Capture | include/neoeng/core/indexed_ring.hpp:21-36 | wrap and gap are refused with the window unchanged; otherwise the window slides by one frame |
| FrameRing.IndexedFrameRing.TruncateAfter | include/neoeng/core/indexed_ring.hpp:54-63 | the window is cut at a retained frame; any other frame is refused, and an empty ring accepts all |
| FrameRing.NextCapture | include/neoeng/core/indexed_ring.hpp:30-35 | writing the next frame evicts nothing or exactly the frame that leaves the window |
| FrameRing.SlotsDiffer | include/neoeng/core/indexed_ring.hpp:75-77 | frames less than a capacity apart never share a slot |
| FrameRing.ClearingEndsIff | include/neoeng/core/indexed_ring.hpp:57-60 | the clearing loop's 64-bit counter passes the latest frame exactly when that frame has a successor |
| FrameRing.WindowShape | apps/snapshot_fuzz.cpp:71-86 | after any run the window is non-empty, within capacity, not older than the start, and ends at the current value |
| FrameRing.SlotsShowTheWindow | apps/v22_fuzz.cpp:114-122 | the untagged slot array agrees with the window on every retained frame under any interleaving of captures and truncations |
| FrameRing.DriveRing | apps/v20_fuzz.cpp:38-61 | the tagged ring driven through any run holds exactly the reference window |
| DeltaLog.PatchedIsExactIff | src/snapshot_store.cpp:346-350 | patching the previous bodies reproduces the new ones exactly when the report misses no change |
| DeltaLog.ApplyPatches | src/snapshot_store.cpp:346-350 | the loop applies the patches in order, later ones winning |
| DeltaLog.CutKeepsReplay | src/snapshot_store.cpp:364-370 | dropping the newest entries leaves the meaning of the others |
| DeltaLog.AppendExtends | src/snapshot_store.cpp:286-328 | appending an entry extends the window by the state the entry replays to |
| DeltaLog.EvictionDropsOldest | src/snapshot_store.cpp:399-420 | promoting the second entry and dropping the first keeps the meaning of every remaining frame |
| SnapshotStore.FindDiffering | src/snapshot_store.cpp:177-183 | the comparison lists exactly the bodies that differ |
| SnapshotStore.DeltaCheckpointStore.Make | src/snapshot_store.cpp:83-93 | a zero capacity or interval is refused; otherwise the store starts empty |
| SnapshotStore.DeltaCheckpointStore.Capture | src/snapshot_store.cpp:271-328 | outcome and window after a capture: refused without effect, or slid by the recorded state |
| SnapshotStore.DeltaCheckpointStore.RecordedIsExactIff | src/snapshot_store.cpp:271-328 | a capture is restorable exactly, unless a delta was written from a report that misses a change |
| SnapshotStore.DeltaCheckpointStore.UnreportedIsExact | src/snapshot_store.cpp:181-188 | a capture without a report finds every change: what is accepted is recorded as it is |
| SnapshotStore.DeltaCheckpointStore.Restore | src/snapshot_store.cpp:330-356 | a retained frame gives the window's state, any other frame is refused |
| SnapshotStore.DeltaCheckpointStore.Contains | src/snapshot_store.cpp:371-373 | true exactly for the frames of the window |
| SnapshotStore.DeltaCheckpointStore.EnforceCapacity | src/snapshot_store.cpp:399-420 | one entry too many costs exactly the oldest frame |
| SnapshotStore.DeltaCheckpointStore.TruncateAfter | src/snapshot_store.cpp:364-370 | the window is cut, emptied or kept, and the comparison base becomes the newest restorable state |
| SnapshotStore.MutationIsCovered | apps/snapshot_fuzz.cpp:31-59 | marking every body it touches, the random mutation reports every change |
| SnapshotStore.CoveredIsRecorded | src/snapshot_store.cpp:286-325 | a state captured with a complete report is accepted and recorded as it is |
| SnapshotStore.UnreportedIsRecorded | apps/snapshot_benchmark.cpp:149-157 | so a next state captured without a report is accepted and restored as it was |
| SnapshotStore.RestoreIsShort | src/snapshot_store.cpp:286-289 | checkpoints fall on multiples of the interval: a restore replays as many deltas as frames since the last one, or since the oldest |
| SnapshotStore.RunConfig | apps/snapshot_fuzz.cpp:61-95 | for every sequence of draws, each capture with or without a dirty report, the fuzz run against the delta store finds no mismatch |
| PersistentCheckpoint.PersistentCheckpointHistory.Make | src/persistent_checkpoint.cpp:9-17 | a zero capacity, a zero depth or a density beyond a million parts is refused; otherwise the history starts empty |
| PersistentCheckpoint.PersistentCheckpointHistory.Capture | src/persistent_checkpoint.cpp:39-65 | refused without effect, or the window slides by the recorded state; no delta run exceeds the configured depth |
| PersistentCheckpoint.PersistentCheckpointHistory.RecordedIsExactIff | src/persistent_checkpoint.cpp:39-65 | a capture is restorable exactly, unless a delta was written from a report that misses a change |
| PersistentCheckpoint.PersistentCheckpointHistory.Restore | src/persistent_checkpoint.cpp:74-94 | a retained frame gives the window's state after exactly the deltas since its checkpoint, at most the configured number |
| PersistentCheckpoint.PersistentCheckpointHistory.CheckpointIff | src/persistent_checkpoint.cpp:19-36 | a capture is a full state exactly in the policy's own cases: first, depth reached, multiples of the depth, powers of two, or so many millionths changed |
| PersistentCheckpoint.PersistentCheckpointHistory.FixedCadence | src/persistent_checkpoint.cpp:19-36 | under the fixed policy the open run counts the frames since the last multiple of the depth |
| PersistentCheckpoint.SingleBitIsPower | src/persistent_checkpoint.cpp:19-36 | one bit is set exactly in the powers of two |
| PersistentCheckpoint.PersistentCheckpointHistory.EnforceCapacity | src/persistent_checkpoint.cpp:111-122 | one entry too many costs exactly the oldest frame and lengthens no delta run |
| PersistentCheckpoint.PersistentCheckpointHistory.TruncateAfter | src/persistent_checkpoint.cpp:102-109 | the window is cut and the depth counter becomes the open delta run again |
| PersistentCheckpoint.EvictionKeepsRuns | src/persistent_checkpoint.cpp:111-122 | promotion on eviction keeps every delta run within the bound |
| Rollback.RollbackEngine.constructor | src/rollback.cpp:15-20 | the engine starts at the initial state with that one snapshot and an empty log |
| Rollback.RollbackEngine.Advance | src/rollback.cpp:22-34 | the log grows by the commands; state, snapshots and remembered inputs stay those of a clean run over the log |
| Rollback.RollbackEngine.RestoreCheckpoint | src/rollback.cpp:36-43 | refused exactly when the frame is not retained; otherwise the log is cut there |
| Rollback.RollbackEngine.CorrectInputAndResimulate | src/rollback.cpp:45-76 | the log changes in exactly the corrected frame, and state and every retained snapshot are those of a clean run over it |
| Rollback.Resimulate | src/rollback.cpp:62-73 | running again from a restored state with the remembered commands ends at the clean run's state and snapshots |
| Rollback.Prune | src/rollback.cpp:28-33 | pruning from the oldest frame leaves exactly the commands of retained frames before the present |
| Rollback.TracksStep | src/rollback.cpp:24-26 | one captured step keeps every retained snapshot on the clean run |
| TemporalEngine.Engine.constructor | src/paged_atomic_temporal_physics.cpp:42-58 | the engine starts at frame 0 with one snapshot and no inputs |
| TemporalEngine.Engine.SetInput | src/paged_atomic_temporal_physics.cpp:59-75 | refused beyond the configured capacity; otherwise the frame's slot is overwritten, whatever it held |
| TemporalEngine.Engine.StepOne | src/paged_atomic_temporal_physics.cpp:81-94 | one frame is stepped with the input found for it, or with none, and captured; a run stays one run |
| TemporalEngine.Engine.SimulateTo | src/paged_atomic_temporal_physics.cpp:96-99 | refused backwards; otherwise the state is played on to the target with the inputs the ring gives, and a run stays one run |
| TemporalEngine.Engine.Restore | src/paged_atomic_temporal_physics.cpp:101-105 | accepted exactly for frames whose snapshot is in the ring; the result belongs to the run exactly when the frame is not after the present or nothing is left there |
| TemporalEngine.Engine.TruncateAfter | src/paged_atomic_temporal_physics.cpp:113-115 | no later snapshot is left and every other is kept; from the present on that leaves the run intact |
| TemporalEngine.Engine.CorrectAndResimulate | src/paged_atomic_temporal_physics.cpp:117-124 | every outcome of a correction and the state after it, and after a successful one no snapshot beyond the target is left to restore; the corrected input is stored even when the snapshot is gone and the correction refused |
| TemporalEngine.RestoreAbandoned | src/paged_atomic_temporal_physics.cpp:101-105 | restoring forward returns the snapshot of an abandoned run when the ring was not truncated |
| TemporalEngine.DroppedFinds | src/paged_atomic_history.cpp:478-481 | dropping leaves no snapshot after the frame and every other as it was |
| TemporalEngine.DroppedEnds | src/paged_atomic_history.cpp:478-481 | so none of them can be restored any more |
| TemporalEngine.FaithfulStep | src/paged_atomic_temporal_physics.cpp:81-94 | capturing the next frame keeps the snapshot ring faithful and evicts at most the oldest frame |
| TemporalEngine.EffectiveIsHeard | apps/v20_benchmark.cpp:134-137 | with all inputs stored up front a run hears exactly the newest that fit the ring |
| TemporalEngine.MeasureIntegrated | apps/v20_benchmark.cpp:132-188 | restoring before the corrected frame, truncating and replaying succeeds exactly when that snapshot is retained, and then gives the clean run's state and its pairs at every retained frame |
| Policy.Calibrate | apps/v12_policy_benchmark.cpp:160-163 | the loop returns the cost over the even-numbered scenarios |
| Policy.CostSeesAlike | apps/v12_policy_benchmark.cpp:80-87 | a policy's cost depends only on the times it takes: pooled with enough islands and four work units a contact, serial otherwise, in even scenarios |
| Policy.CostIsTotal | apps/v12_policy_benchmark.cpp:160-163 | and is the sum of those times |
| Policy.WorkCandidatesAre | apps/v12_policy_benchmark.cpp:147-153 | candidates ascend strictly and hold 0, the largest word and every scenario's work |
| Policy.CandidatesCoverEveryThreshold | apps/v12_policy_benchmark.cpp:80-87 | for every real work threshold some candidate pools exactly the same scenarios at the same cost |
| Policy.CandidatesCoverEveryPair | apps/v12_policy_benchmark.cpp:155-159 | if all island counts are candidates or above 256, some candidate costs the same for every real work threshold and every island threshold up to 256 or above all scenarios |
| Policy.ScanRises | apps/v12_policy_benchmark.cpp:157-159 | candidates are scanned in strictly increasing order, so the lexicographic tie clause always holds |
| Policy.KeptNext | apps/v12_policy_benchmark.cpp:164-172 | the rule takes a candidate exactly when it is at most an epsilon worse, and the distance bound grows by one epsilon |
| Policy.SearchThresholds | apps/v12_policy_benchmark.cpp:155-174 | the chosen candidate is the one the plain scan of the costs keeps, within one epsilon per further candidate of any real work threshold; within one epsilon of all of them, and on covered scenarios of all island thresholds up to 256, exactly when no cost behind the last near one lies within an epsilon of it |
| Policy.ChosenIsNearlyBest | apps/v12_policy_benchmark.cpp:155-174 | its cost is within (candidates - 1) epsilons of the best over every real work threshold |
| Policy.ChosenIsConservative | apps/v12_policy_benchmark.cpp:165-167 | every candidate with larger thresholds costs more than an epsilon more |
| Policy.TiesDrift | apps/v12_policy_benchmark.cpp:164-172 | a single epsilon is no bound in general: while two scenarios save at most 10^-12 each by pooling, the search must end at never pooling and gives up both |
| Policy.SavingsAreKept | apps/v12_policy_benchmark.cpp:164-172 | a saving above 10^-12 is never given up |
| Policy.IslandsDecide | apps/v12_policy_benchmark.cpp:80-87 | where only the island threshold tells two kinds of scenario apart, the search ends at the largest that does, with the least cost |
| Policy.ChoiceWithinIff | apps/v12_policy_benchmark.cpp:155-174 | for every list of costs the scan ends within an epsilon of the least exactly under that condition |
| Policy.GapSettles | apps/v12_policy_benchmark.cpp:155-174 | which holds if no cost lies more than one but at most two epsilons above the least |
| Policy.ApartSettles | apps/v12_policy_benchmark.cpp:155-174 | or if every cost above the least lies more than an epsilon above it; the scan then ends at the least |
| Policy.WithinEpsilonOfLeast | apps/v12_policy_benchmark.cpp:146-174 | being within an epsilon of the least candidate is being so for every real work threshold |
| Policy.ChosenWithinEpsilonIff | apps/v12_policy_benchmark.cpp:155-174 | so the chosen policy is within one epsilon of every policy exactly under that condition |
| Policy.WithinEpsilonOfAllIff | apps/v12_policy_benchmark.cpp:155-174 | on such scenarios being within an epsilon of the candidate island thresholds is being so for all of those |
| Policy.OnlyTakenTimesDecide | apps/v12_policy_benchmark.cpp:146-174 | lists that agree except in times no candidate takes have one outcome |
| Selection.SelectIndices | apps/adaptive_benchmark.cpp:38-50 | the loops fill a selection of so many percent, at least one: the first bodies, or body i at i even shares rounded down |
| Selection.ScatteredIsStrictIff | apps/adaptive_benchmark.cpp:47 | scattered indices are strictly increasing exactly when no more are asked for than there are bodies (or only one is), and in range |
| Selection.TouchedByScattered | apps/adaptive_benchmark.cpp:47 | for all sizes, a scattered selection touches one page each if it is a page apart on average, and every page up to its last one otherwise |
| Selection.ScatteredFormulaIff | apps/adaptive_benchmark.cpp:150-154 | the reported number is never too small, and right exactly when the selection is a page apart on average or its last index lies on the last page |
| Selection.ScatteredPageCount | apps/adaptive_benchmark.cpp:152-154 | so it is right whenever the page size divides the count |
| Selection.ClusteredPageCount | apps/adaptive_benchmark.cpp:152-153 | a clustered selection touches its size divided by the page size, rounded up |
| Selection.UnevenPagesAreOverstated | apps/adaptive_benchmark.cpp:152-154 | nine bodies, three changed, pages of four: the formula says three, the selection touches two |
| Selection.MutatedIndices | apps/v04_benchmark.cpp:278-306 | the loop, sort and unique yield the sorted distinct indices of the frame's trace |
| Selection.CountChanged | apps/v04_benchmark.cpp:281-288 | each phase of 24 frames asks for two bodies, a hundredth, twice a tenth, and then all |
| Selection.TraceNeighbours | apps/v04_benchmark.cpp:290-302 | within a frame the next body is the neighbour, or 97 further in the second and fourth phase |
| Selection.TraceAdvances | apps/v04_benchmark.cpp:290-302 | from frame to frame a phase moves on by 31, 13, 37 or again 13 bodies, wrapping round |
| Selection.TraceStarts | apps/v04_benchmark.cpp:290-302 | and where each phase starts |
| Selection.StridesDistinctIff | apps/v04_benchmark.cpp:297 | steps of 97 modulo the count name different bodies exactly when 97 does not divide it or at most a 97th of it is asked for |
| Selection.TraceMarksAllIff | apps/v04_benchmark.cpp:278-306 | a frame marks exactly as many bodies as its phase asks for, except with one body in phase 0 and a multiple of 97 bodies in phase 3 |
| Selection.TraceInRange | apps/v04_benchmark.cpp:293-302 | every trace index names a body |
| Selection.TouchedPageCount | src/snapshot_store.cpp:111-125 | the store's loop returns one plus the number of page changes between neighbours |
| Selection.TouchedChunksAreDistinctChunks | apps/v04_benchmark.cpp:425-429 | on a sorted list the number of changes between neighbours plus one is the number of distinct chunks; zero for an empty list |
| OfflineOracle.AddSaturatedIsCappedIff | src/offline_oracle.cpp:18-20 | the addition saturates properly exactly when its right operand is at most the saturation value or the sum passes the wrapped threshold |
| OfflineOracle.TotalIsCapped | src/offline_oracle.cpp:112-141 | with operands up to the saturation value the accumulated cost is the true sum, capped |
| OfflineOracle.OrdinaryTotalIsTrue | src/offline_oracle.cpp:12-20 | over at most 2^16 frames with costs up to 2^40 no total is cut off |
| OfflineOracle.LegalIff | src/offline_oracle.cpp:112-141 | legal are exactly the sequences of permitted encodings in which no stretch of deltas is longer than the bound |
| OfflineOracle.RelaxOne | src/offline_oracle.cpp:58-81 | one relaxation keeps every cell backed by its predecessor and makes the transition's target at least as cheap |
| OfflineOracle.RelaxRow | src/offline_oracle.cpp:56-84 | a finished row is backed cell by cell and relaxed for every open transition, if the runs of the row above fit a back pointer |
| OfflineOracle.TableIsComplete | src/offline_oracle.cpp:55-84 | every legal sequence ends in a reached cell that costs no more than it does |
| OfflineOracle.TableIsSound | src/offline_oracle.cpp:101-108 | the sequence spelled by a reached cell's back pointers is legal, has its run and costs what the cell says |
| OfflineOracle.PickBest | src/offline_oracle.cpp:86-98 | the scan returns a cheapest reached cell below the saturation value, if any |
| OfflineOracle.Backtrack | src/offline_oracle.cpp:101-108 | following the back pointers from the end yields one encoding per frame, and spells the path of the table |
| OfflineOracle.Solve | src/offline_oracle.cpp:31-110 | for every input one encoding per frame or a refusal; where back pointers suffice the result is legal, costs what is reported and, with operands up to the saturation value, is the first of the cheapest legal sequences; infeasible exactly when every legal sequence saturates; on ordinary traces as in the next row |
| OfflineOracle.OrdinaryIsSolved | src/offline_oracle.cpp:31-110 | on such traces, with a positive run bound, the answer is infeasible exactly when no legal sequence exists, and otherwise legal, truly costed and cheapest |
| OfflineOracle.CapIsSharp | src/offline_oracle.cpp:12-99 | a single frame is reported infeasible exactly when it costs the saturation value, a quarter of the largest word |
| OfflineOracle.PathIsPreferred | src/offline_oracle.cpp:74-79 | of all cheapest sequences into a cell the back pointers spell the one whose encodings and runs, read from the end, come first |
| OfflineOracle.PreferredIsOrder | src/offline_oracle.cpp:74-98 | of two different sequences only one comes first, so the answer is determined |
| OfflineOracle.Evaluate | src/offline_oracle.cpp:112-141 | the evaluator rejects exactly the illegal sequences and returns the same cost the solver assigns, on ordinary traces the true sum |
| OfflineOracle.HugeCostWrapsToZero | src/offline_oracle.cpp:18-20 | an operand beyond the saturation value breaks optimality: a trace costing 2^64 is reported to cost nothing |
| OfflineOracle.RunsFitIff | src/offline_oracle.cpp:22-27 | where every frame may be a delta, all runs a back pointer is made to hold fit 16 bits exactly when the configured bound does or the trace is no longer than that |
| OfflineOracle.TruncatedPointerMisleads | src/offline_oracle.cpp:74-75 | the first run too long is stored as run zero, which no delta has: the cell points to one never reached |

## Left out

- ChainSolver.CleanStartProjects: one way only; a start that kept blocks before a rejection breaks the block list, but whether the answer still agrees depends on the data (`ChainSolver.RejectedWarmStartMayAgree`), and those answers are not characterised.
- Colouring.GateHoldsIffLight: exact over all schedules drawn from the contacts; for one fixed schedule that visits every contact once, lightness is sufficient and its necessity is not claimed.
- WarmChain.CloseRunsAgreeIffSafe: exact for positive values within one part in n of each other; for other chains the condition is exact for the pooling (`WarmChain.PoolingIsIdleIffSafe`) and sufficient for the answers, which wrapped block counts can make agree by accident (`WarmChain.UnsafeRunMayAgree`).
- WarmChain.SolveChainFrame: every frame is taken to recognise the same chain, as it does while the bodies touch; leaving the chain solver, and with it the carried ends, is not modelled.
- FrameRing.IndexedFrameRing.TruncateAfter: a retained frame of a ring whose latest frame is the last 64-bit value is excluded, because the loop does not end there (`FrameRing.ClearingEndsIff`).
- OfflineOracle.Solve: where neither the configured bound nor the trace length fits 16 bits only the length of the answer is promised.
- SnapshotStore.DeltaCheckpointStore.Capture: the optional audit of dirty masks, the body-order validation and the memory ledger are not modelled; a dirty report is a list of marked bodies.
- PersistentCheckpoint.PersistentCheckpointHistory.Capture: a stable body count is assumed, since the source checks it only against the report.
- Rollback.RollbackEngine.Advance: the engine is modelled over the delta store; the step is any function whose report misses no change, and frame numbers do not wrap.
- TemporalEngine.MeasureIntegrated: physics step and pair extraction are open functions and all inputs fit the configured capacity; the pair history is the tagged ring with the engine's capacity; pages and reference counts are left out.
- Policy.SearchThresholds: times are real numbers, so floating-point rounding of the sums is not modelled.
- ExactOracle.BruteForce: the input must not be empty, as the source takes its minimum and maximum.
- ChainChecks.SolvedFrameIsAccepted: for frames solved without carried block ends, as are `AcceptedChainFliesFreely`, `SolverSettlesInOneFrame` and `MomentumBoundForever`; `WarmChain` adds the carried ends.  Chain recognition, the Y axis, reversed chains and manifold points are left out; the chain is given in order along X.
- Selection.MutatedIndices: an empty world in the first phase is excluded, because the source divides by zero there; the body updates themselves are left out.
- The Dykstra, active-set, star, oblique-tree and general LCP solvers, and every certification residual.
- Full-copy, paged, persistent-tree, component and hybrid snapshot stores; segmented and paged pair histories; slot allocators.
- Broadphase, swept contacts, SIMD kernels and the physics step.
- Cryptography, sessions, packets, support bundles, timing, statistics, hashing and file output.
- The evaluation of the chosen policy on the odd-numbered scenarios.
- Random generators: draws are parameters.
