# Code vs Zombies — a verified model of the turn simulator

The program is a bot for the "Code vs Zombies" puzzle. A player (Ash) moves
on a 16000 × 9000 map with humans and zombies. Every turn each zombie picks
the closest of the player and the humans and commits a step of at most 400
units toward it. The player moves at most 1000 units toward where a
strategy tells it to go, and kills every zombie within 2000 units. A zombie
that reaches a human kills it. For every state it reads, the bot simulates
one turn on a copy of that state and prints where the player goes. The code
also holds a `Prediction`, which no live code path uses: it plays a whole
game ahead from one state and hands the states back one at a time.

This project models that simulator:

- **Geometry.** Integer points and squared distances. The capped move snaps
  to its destination when that destination is within reach. The
  floating-point step taken otherwise is a parameter `far: Stepper`.
- **Entities.** The player, humans and zombies. A zombie picks its target
  with a loop over the humans (`Entities.SetTarget`, specified by `Scan`).
  A human records which zombie hunts it under the program's
  keep-the-closer rule (`Entities.Claim`).
- **Turn.** One turn as a function on state values. Clearing, targeting,
  steering, advancing, killing zombies, killing humans and retargeting are
  each a function. Lemmas state what a turn guarantees.
- **Game.**
  - `GameState` is a class with the program's three fields. Each of its
    methods updates the fields in place and is proved to produce the state
    value the matching `Turn` function describes.
  - `Prediction` holds a precomputed list of states and a cursor into it.
- **Strategies.**
  - `StayStill`.
  - `ClosestSavableHuman`, which picks among the savable humans, else the
    untargeted ones, else all of them, taking the first with the smallest
    danger key. The floating-point race test of `Human::savable` is a
    parameter `race: SavabilityTest`.
- **Scenarios.** Concrete states that pin down the less obvious behaviour
  of the code.

Two behaviours of the code are worth knowing before reading the lemmas:

- **Claim rule.** A human does not necessarily end up pointing at the
  zombie with the smallest committed distance to it. When a second zombie
  claims a human, the code compares that zombie's distance from its
  *current* position with the incumbent's `target_dist_sq`, which was
  measured from the incumbent's *next* position. See
  `Scenarios.ClaimComparesMixedDistances`.
- **Back-references.** Right after targeting, every back-reference names a
  zombie that targets the human (`Turn.ResolvedBackRefs`). After the kills,
  a surviving human may still hold the index of a removed zombie (see
  `Scenarios.SuccessorLeavesStaleBackRef`). The index is rebuilt from
  scratch at the start of the next turn, before anything reads it.

## Model

| member | source | states |
|---|---|---|
| Util.Filter | src/main.rs:165-171 | the `iter().filter().cloned().collect()` idiom: exactly the elements that pass, as an order-preserving subsequence, never longer |
| Geometry.Sq | src/main.rs:605-610 | a square is never negative |
| Geometry.SqZero | src/main.rs:605-610 | a square is zero exactly at zero |
| Geometry.DistSq | src/main.rs:612-617 | a squared distance is never negative |
| Geometry.DistSqZero | src/main.rs:612-617 | the squared distance is zero exactly between equal points |
| Geometry.DistSqSymmetric | src/main.rs:612-617 | the squared distance does not depend on the order of the points |
| Geometry.DistSqFitsI32 | src/main.rs:87-88 | between on-map points the squared distance is at most 16000² + 9000², below `i32::MAX`, so the i32 arithmetic never overflows |
| Geometry.MoveCapped | src/main.rs:626-633 | for a non-negative cap, a destination whose squared distance is at most cap² is reached exactly; otherwise, and for every negative cap, the result is the floating-point step |
| Geometry.MoveCappedArrived | src/main.rs:626-629 | a mover already on its destination stays there, for any non-negative cap |
| Geometry.MoveCappedWithinCap | src/main.rs:626-633 | with a cap-respecting step, a move never exceeds the cap, and it lands on the destination exactly when the destination is within reach |
| Entities.Scan | src/main.rs:424-434 | the chosen human index is one of the humans looked at |
| Entities.ScanFindsClosest | src/main.rs:424-434 | the target's distance is at most the player's and every human's; the player is chosen exactly when it ties or beats every human; a chosen human is strictly closer than the player and than every earlier human |
| Entities.ScanReadsPositions | src/main.rs:424-434 | the choice depends only on the humans' positions |
| Entities.WithinPlayer | src/main.rs:436-438 | a zombie is in the player's kill range when its next position is within 2000 units; `Turn.ZombieSurvivors` states that exactly the zombies failing this test survive, and `Turn.SuccessorSeparates` that none in range is left after a turn |
| Entities.WithinZombie | src/main.rs:326-328 | a human is caught when some zombie stands on its position; `Turn.HumanSurvivors` states that exactly the humans failing this test survive, and `Turn.SuccessorSeparates` that no human shares a zombie's position after a turn |
| Entities.Aimed | src/main.rs:424-434 | retargeting changes only the target and its distance, and a human target is in range |
| Entities.SetTarget | src/main.rs:424-434 | the loop over the humans computes the scan's choice and distance from the zombie's next position |
| Entities.NextMoveOf | src/main.rs:440-447 | the zombie retargets, then commits to its target's position when within 400 units and to the floating-point step otherwise; id and position are unchanged |
| Entities.SetNextMove | src/main.rs:440-447 | the method computes `NextMoveOf` |
| Entities.Claim | src/main.rs:330-342 | the first claim is taken; a later one replaces the incumbent exactly when it comes from a different zombie whose current position is strictly closer than the incumbent's `target_dist_sq`; id and position are kept and the back-reference stays in range |
| Turn.Cleared | src/main.rs:177-180 | every back-reference is erased and every zombie aims at the player at distance `i32::MAX`; nothing else changes |
| Turn.TargetStep | src/main.rs:131-136 | one loop iteration keeps the player and both counts, and keeps back-references in range |
| Turn.TargetedUpTo | src/main.rs:130-136 | the first k iterations keep the player and both counts, and keep back-references in range |
| Turn.TargetStepShape | src/main.rs:131-136 | iteration i rewrites zombie i and at most the one human it targets, which it claims |
| Turn.AimedReadsPositions | src/main.rs:424-434 | a zombie's choice is the same over two human lists with the same positions |
| Turn.TargetStepKeepsHumans | src/main.rs:131-136 | an iteration changes no human's id or position |
| Turn.TargetedUpToKeepsHumans | src/main.rs:130-136 | the targeting loop changes no human's id or position |
| Turn.TargetStepAims | src/main.rs:131-136 | iteration k aims zombie k as `Zombie::set_target` does and leaves the others unchanged |
| Turn.TargetedUpToZombies | src/main.rs:130-136 | after k iterations the first k zombies hold their chosen target and the rest are untouched |
| Turn.BackRefStep | src/main.rs:131-136 | an iteration keeps every back-reference naming an earlier zombie that targets that human, and keeps it absent exactly for humans nobody targets |
| Turn.TargetedUpToBackRefs | src/main.rs:130-136 | starting with no back-references, after k iterations each back-reference names one of the first k zombies that targets this human, and is absent exactly when none of them does |
| Turn.ResolvedShape | src/main.rs:116-119 | clearing and targeting keep the player, both counts and every human's id and position, and leave back-references in range |
| Turn.ResolvedZombies | src/main.rs:116-119 | after clearing and targeting, every zombie aims at the closest of the player and the humans, measured from its next position |
| Turn.ResolvedBackRefs | src/main.rs:116-119 | after clearing and targeting, each back-reference names a zombie that targets that very human, and exactly the untargeted humans have none |
| Turn.Resolved | src/main.rs:118-119 | clearing then targeting; `Turn.ResolvedShape`, `Turn.ResolvedZombies` and `Turn.ResolvedBackRefs` state that it keeps the player and the humans' ids and positions, aims every zombie at its closest choice, and leaves back-references that name a zombie targeting that human |
| Turn.Steered | src/main.rs:120-122 | the strategy is asked once and the player takes a capped step toward its choice with its label; `Turn.SuccessorPlayer` states this of a whole turn |
| Turn.Advanced | src/main.rs:159-163 | every zombie's position becomes its next position; nothing else changes |
| Turn.ZombieSurvivors | src/main.rs:165-167 | exactly the zombies whose next position is farther than 2000 units from the player survive, in order |
| Turn.HumanSurvivors | src/main.rs:169-171 | exactly the humans on whose position no zombie stands survive, in order |
| Turn.Retargeted | src/main.rs:153-157 | every zombie gets its `NextMoveOf`; player and humans are unchanged |
| Turn.Successor | src/main.rs:116-128 | one turn; `Turn.SuccessorPlayer`, `Turn.SuccessorSubsequences`, `Turn.SuccessorSeparates`, `Turn.SuccessorAims` and `Turn.SuccessorKeepsEnded` state what it guarantees, and `Game.GameState.Simulate` is proved to compute it |
| Turn.SuccessorPlayer | src/main.rs:116-123 | the strategy sees the freshly targeted state; the player takes its label and a capped step toward its position |
| Turn.SuccessorSubsequences | src/main.rs:116-128 | surviving zombies (by id) and humans (by id and position) are subsequences of those before, so neither count grows |
| Turn.SuccessorSeparates | src/main.rs:116-128 | after a turn no human shares a position with a zombie, and every zombie is outside the player's range |
| Turn.SuccessorAims | src/main.rs:116-128 | after a turn every zombie aims at the closest of the player and the surviving humans (an index in range) and has committed a capped step toward it |
| Turn.State.Ended | src/main.rs:173-175 | no human or no zombie is left; `Game.GameState.Ended` is proved equal to it and `Turn.SuccessorKeepsEnded` shows an ended game stays ended |
| Turn.SuccessorKeepsEnded | src/main.rs:173-175 | an ended game stays ended |
| Game.GameState.constructor | src/main.rs:108-110 | the state holds the given player, humans and zombies |
| Game.GameState.Ended | src/main.rs:173-175 | the game has ended exactly when no human or no zombie is left |
| Game.GameState.ClearTargets | src/main.rs:177-180 | the new state is `Cleared` of the old |
| Game.GameState.ZombiesSetTargets | src/main.rs:130-136 | the index loop leaves the state the loop function describes after all zombies |
| Game.GameState.MoveZombies | src/main.rs:159-163 | the new state is `Advanced` of the old |
| Game.GameState.KillZombies | src/main.rs:165-167 | the zombies become `ZombieSurvivors` of the old ones; player and humans are unchanged |
| Game.GameState.KillHumans | src/main.rs:169-171 | the humans become `HumanSurvivors` of the old ones; player and zombies are unchanged |
| Game.GameState.CalcZombiesNextMove | src/main.rs:153-157 | the new state is `Retargeted` of the old |
| Game.GameState.Simulate | src/main.rs:116-128 | the receiver is unchanged and the fresh result holds `Successor` of its state |
| Game.PlayOut | src/main.rs:67-69 | each further state is the successor of the one before, and the list stops at the first ended state or when the fuel runs out |
| Game.PlayFrom | src/main.rs:64-71 | the first state is the successor of the start, and the rest is a run as in `PlayOut` |
| Game.Prediction.constructor | src/main.rs:61-63 | an empty flow with the cursor at 0 |
| Game.Prediction.Make | src/main.rs:64-71 | the flow is a run played from the start state, with the cursor at 0 |
| Game.Prediction.Next | src/main.rs:73-82 | returns nothing exactly when the cursor is past the end; otherwise returns the state under the cursor and advances it by one; the flow is unchanged and the cursor stays within bounds |
| Strategies.StayStill | src/main.rs:189-191 | the player's own position with "Zzz..."; `Strategies.SuccessorStayStill` states that under it the player never moves |
| Strategies.SuccessorStayStill | src/main.rs:189-191 | under `stay_still` the player never moves and always says "Zzz..." |
| Strategies.ArgMinFirst | src/main.rs:221-230 | `min_by_key` picks a smallest key, and among equal keys the first |
| Util.FilterIndices | src/main.rs:208-217 | the m-th element of a filtered list is the element at an increasing index of the original, and every kept index occurs |
| Strategies.FilteredArgMin | src/main.rs:208-230 | the minimum of a filtered list is the first minimum among the kept elements of the original |
| Strategies.PickInTier | src/main.rs:208-230 | picking in a tier yields the first human of the tier with the smallest danger key |
| Util.FilterNonEmpty | src/main.rs:208-212 | a filter leaves something exactly when some element passes |
| Strategies.Savable | src/main.rs:344-348 | a human nobody hunts is never savable, and a hunted one is savable when the race test says the player arrives first; `Strategies.ClosestSavableHumanMessage` and `Strategies.ClosestSavableHumanTarget` state how it selects the first tier |
| Strategies.DangerKey | src/main.rs:221-229 | the key the strategy minimises; `Strategies.DangerKeyResolved` states that in the state the strategy sees it is the hunter's committed distance to the human, or the human's distance to the player when unhunted |
| Strategies.ClosestSavableHuman | src/main.rs:203-238 | the strategy; `Strategies.ClosestSavableHumanMessage`, `Strategies.ClosestSavableHumanTarget` and `Strategies.ChosenIndex` state its message and that it heads for the first human with the smallest danger key in the first non-empty tier |
| Strategies.ClosestSavableHumanMessage | src/main.rs:203-217 | with no human the player stays still; otherwise the message is "Fuuuck!" exactly when no human is savable and every human is hunted, and "Save human" otherwise |
| Strategies.ClosestSavableHumanTarget | src/main.rs:203-233 | the player heads for a human of the chosen tier with the smallest danger key in that tier, the first such in list order |
| Strategies.ChosenIndex | src/main.rs:203-233 | the same choice, naming the human's index |
| Strategies.DangerKeyResolved | src/main.rs:221-229 | in the state the strategy sees, a hunted human's key is the squared distance from its hunter's next position to it, and an unhunted human's key is its squared distance to the player |
| Scenarios.ClaimComparesMixedDistances | src/main.rs:330-342 | a zombie whose next position is farther from a human still takes the claim, because the code compares its current position with the incumbent's next-position distance |
| Scenarios.StaleStartResolved | src/main.rs:130-136 | in a concrete state, the near zombie aims at the player and the far zombie claims the human |
| Scenarios.SuccessorLeavesStaleBackRef | src/main.rs:116-128 | after that turn one zombie is left, but the surviving human still points at zombie index 1, out of range |
| Scenarios.LoneHumanIsApproached | src/main.rs:203-233 | with one untargeted human and no zombie, the strategy heads for it with "Save human" and the player takes one capped step toward it |
| Scenarios.HopelessHumanIsStillApproached | src/main.rs:212-233 | when the only human is hunted and not savable, the strategy says "Fuuuck!" and still heads for that human |

## Left out

- Input and output: `main`, `parse_line`, `read_line_as_i32`, `atoi`,
  `parse_humans`, `parse_zombies`, the `from_stdin` constructors and the
  `Display` implementations. The model starts from state values.
- The `eprint!` logging in `zombies_set_targets` and
  `closest_savable_human`. It is output only and changes no state.
- The floating-point half of `move_from_to_capped`, which normalises,
  scales and truncates. It is the parameter `far: Stepper`, and
  `Geometry.CapRespecting` states the one property the lemmas assume of it.
- `Human::savable`, which uses angles, cosines, square roots and ceilings.
  It is the parameter `race: SavabilityTest`. `Strategies.Savable` keeps its
  integer part: an unhunted human is never savable.
- `Strategy::kill_hordes`, which steers toward a floating-point centroid,
  and `rad_to_deg`. Both are floating point and no modelled operation uses
  them.
- `Strategy::random_pos`, `rand` and `rand_in_range`. They read the system
  clock.
- `GameState::empty` and the `PartialEq` implementations. Equality on ids
  and positions is used only through `Turn.HumanKey` and `Turn.ZombieId`.
- Game.Prediction.Make: the program loops until the game has ended, with no
  bound. The model adds a `fuel` bound and states that the flow stops at
  the first ended state or after `fuel` further turns.
- Game.PlayOut: the same `fuel` bound on the loop of `Prediction::make`; a
  game that has not ended after `fuel` turns is cut off there.
- Game.PlayFrom: the same `fuel` bound, through `PlayOut`.
- Game.GameState.ZombiesSetTargets: it requires every back-reference to be
  in range on entry. The program needs this only where a claim reads the
  incumbent, and `Simulate` always calls it right after clearing.
- Strategies.Savable and Strategies.DangerKey: a back-reference past the end
  of the zombie list would make the program panic. The model answers "not
  savable" and ranks by distance to the player instead.
  `Strategies.DangerKeyResolved` and `Turn.ResolvedBackRefs` show that this
  case does not arise in the state the strategy is shown.
- Integer width: all arithmetic is on unbounded integers.
  `Geometry.DistSqFitsI32` shows that squared distances between on-map
  points fit in an `i32`. The model does not prove that positions stay on
  the map, because that depends on the floating-point step.
- The `Some`-less branch of `closest_savable_human`, which falls back to the
  player's own position. It cannot be reached, because the chosen tier is
  never empty once a human exists.
