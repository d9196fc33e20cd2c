# Clock paradox solver, modelled in Dafny

This project models the core of a solver for the clock paradoxes of Final
Fantasy XIII-2. A clock is a ring of N numbers, read clockwise from the
12 o'clock slot. Taking the number at a slot puts both pointers on that slot.
Pointer 0 then turns anticlockwise and pointer 1 turns clockwise, each by the
number taken. The slot is then marked emptied with the sentinel `-1`. Only a
slot under one of the two pointers may be taken next. The solver looks for an
order that empties the whole clock.

The solver is a depth-first search with rollback:

- `solve` tries every start slot in ascending order.
- `traverse` tries the slot under pointer 0 before the slot under pointer 1 and skips emptied slots.
- A failed branch writes a snapshot of the numbers back. The pointers are never restored.

Files:

- `clock.dfy`, module `ClockState`: the clock as an immutable value
  `Clock(numbers, p0, p1)`, the pointer arithmetic (the JavaScript `%`
  included), removal, the live-slot count and the `isClockSolved` loop.
- `search.dfy`, module `ParadoxSearch`: `traverse` and `solve` as
  functions that return the trail and the clock state they leave behind.
  The trail is `Path = Solved | NoSolution | Then(Step(position, value), rest)`,
  the structure of the `"[p] v -> ..."` string. The module also holds two
  reference definitions: a legal play (`Plays`) and a full solution
  (`IsSolution`).
- `properties.dfy`, module `SearchProperties`: completeness, search
  order, each-slot-once, and lowest-start results.
- `objects.dfy`, module `ClockObjects`: the two source objects as
  classes. They keep the mutable array, the aliasing constructor,
  `copyArray` snapshots and in-place removal. Each method is proved to
  leave the object in exactly the state the functional model returns.
- `scenarios.dfy`, module `Scenarios`: small clocks worked by hand.

Value bound. The source rotates pointer 0 with a single wrap-around. It
therefore stays on the face only when the number v at slot i satisfies
`v <= N + i`. The model requires every number to satisfy `0 <= v <= N + i`
(`ClockState.Fits`). The code does not check this bound, and the input form
does not enforce it either: it rejects nothing outright, and a digit 9 fits a
clock of fewer than 9 slots only at slots `i >= 9 - N`. A one-slot clock `[9]`
looks solvable in one step; in the code, taking the 9 turns pointer 0 to -8,
and JavaScript then reads an undefined slot
(`Scenarios.NineOnOneSlotLeavesFace`). The model follows the code and
excludes such clocks. A 0 is within the bound: taking it leaves both
pointers on the slot just emptied, so a 0 can only be taken last
(`Scenarios.ZeroIsTakenLast`).

Empty clock. The code accepts an empty clock: the start loop does not run
and the answer is the failure marker. The model does the same
(`Scenarios.EmptyClockUnsolved`).

Pointers after rollback. Rollback restores only the numbers, which raises the
question whether stale pointers are ever read. They are not. `traverse`
reads only the positions it captured on entry, and removal overwrites both
pointers before using them (`SearchProperties.RemoveAtForgetsPointers`).
`ParadoxSearch.TraverseFrom` and `ParadoxSearch.SolveFrom` run on clocks
whose pointers are whatever the failed branch left, and still meet their
contracts.

Constructors. Both objects' constructors are modelled in `objects.dfy`. The
`Clock` constructor keeps the caller's array, not a copy, as the source
does, and starts both pointers at 12 o'clock. They have no row in the table
below.

## Model

| member | source | states |
|---|---|---|
| ClockState.TruncRem | ClockParadoxSolver.js:97 | JavaScript `%` as used for pointer 1: magnitude below N, equal to the Euclidean remainder on a non-negative dividend, non-positive on a negative one |
| ClockState.Anticlockwise | ClockParadoxSolver.js:85-94 | pointer 0 turned anticlockwise from a slot on the face stays on the face if and only if `v <= N + p`, and then equals `(p - v) mod N` |
| ClockState.Clockwise | ClockParadoxSolver.js:96-97 | pointer 1 turned clockwise lands on the face at `(p + v) mod N` whenever `p + v >= 0` |
| ClockState.Rotate | ClockParadoxSolver.js:81-98 | rotation leaves the numbers untouched; under the value bound pointer 0 lands on the face at `(p0 - v) mod N`, and pointer 1 lands at `(p1 + v) mod N` whenever `p1 + v >= 0` |
| ClockState.RemoveAt | ClockParadoxSolver.js:67-79 | after taking slot i: slot i is emptied, every other slot and the length are unchanged, the pointers are `(i - v) mod N` and `(i + v) mod N` for the number v taken whatever they were before, and the live count drops by one |
| ClockState.RemainingDrops | ClockParadoxSolver.js:175-178 | emptying a live slot lowers the live count by exactly one: the measure on which every recursive `traverse` call decreases |
| ClockState.RemainingZero | ClockParadoxSolver.js:145-154 | the live count is zero exactly when every slot holds the sentinel |
| ClockState.CheckSolved | ClockParadoxSolver.js:145-154 | the solved flag, conjoined over all slots without early exit, is true exactly when every slot is emptied |
| ParadoxSearch.Traverse | ClockParadoxSolver.js:156-196 | on success the clock is empty and the trail is a legal play from the entry clock; on failure the trail is the failure marker and the numbers equal the entry snapshot while the pointers stay on the face but are not restored |
| ParadoxSearch.TraverseFrom | ClockParadoxSolver.js:163-195 | the pointer loop, run on restored numbers with stale pointers, meets the same success/rollback contract relative to the captured entry clock |
| ParadoxSearch.Solve | ClockParadoxSolver.js:120-143 | success means the clock is empty and the trail is a solution; no lower start slot succeeds; failure means the failure marker, the numbers restored to their entry value, and no start slot succeeds |
| ParadoxSearch.SolveFrom | ClockParadoxSolver.js:123-142 | the start loop from slot i: a success starts at or after i with every start between failing; failure means every start from i on fails and the numbers are restored |
| SearchProperties.RemainingOfFresh | ClockParadoxSolver.js:8-12 | a clock as constructed, with no slot emptied, has all N slots live |
| SearchProperties.RemoveAtForgetsPointers | ClockParadoxSolver.js:71-75 | the clock after a removal does not depend on the pointers before it |
| SearchProperties.SecondPointerFinishes | ClockParadoxSolver.js:163-188 | after a rollback, the second loop iteration succeeds whenever the branch under the captured pointer 1 does, whatever pointers the failed branch left |
| SearchProperties.TraverseComplete | ClockParadoxSolver.js:156-196 | if any legal play empties the clock, `traverse` succeeds |
| SearchProperties.TraverseSucceedsIff | ClockParadoxSolver.js:156-196 | `traverse` succeeds if and only if a legal play from the clock exists |
| SearchProperties.TraversePrefersPointer0 | ClockParadoxSolver.js:163-183 | when the slot under pointer 0 is live and can be finished, the trail takes it first and continues with that branch's trail |
| SearchProperties.PlayTakesLiveSlotsOnce | ClockParadoxSolver.js:167-178 | a legal play has as many steps as live slots, each on a slot that was live, and no slot twice |
| SearchProperties.SolutionTakesEverySlotOnce | ClockParadoxSolver.js:123-142 | a solution of a freshly built clock takes each of its N slots exactly once |
| SearchProperties.StartGivesSolution | ClockParadoxSolver.js:126-137 | a successful search from a start slot, prefixed with that first step, is a solution of the clock |
| SearchProperties.SolutionGivesStart | ClockParadoxSolver.js:123-137 | from the start slot of any solution, the search succeeds |
| SearchProperties.SolveComplete | ClockParadoxSolver.js:120-143 | `solve` reports a solution if and only if the clock has one |
| SearchProperties.SolveFindsLowestStart | ClockParadoxSolver.js:123-142 | `solve`'s answer starts at a slot no higher than that of any solution |
| Scenarios.TwoOnesSolvedFromSlot0 | ClockParadoxSolver.js:120-143 | on [1, 1], taking slot 0 sends both pointers to slot 1, and the answer is slot 0 then slot 1 |
| Scenarios.TwoTwosUnsolvable | ClockParadoxSolver.js:120-143 | on [2, 2], both starts fail, the answer is the failure marker, and the numbers are restored |
| Scenarios.EmptyClockUnsolved | ClockParadoxSolver.js:123-142 | an empty clock gets the failure marker |
| Scenarios.ZeroIsTakenLast | ClockParadoxSolver.js:67-98 | on [0, 1], taking the 0 leaves both pointers on its emptied slot, so the search fails from slot 0 and answers slot 1 then slot 0 |
| Scenarios.NegativeCanStayOnFace | ClockParadoxSolver.js:67-98 | taking a -2 at slot 2 of a five-slot clock puts pointer 0 on slot 4 and pointer 1 on slot 0, both on the face: the bound's lower end is not about the face |
| Scenarios.NineOnOneSlotLeavesFace | ClockParadoxSolver.js:86-90 | a 9 on a one-slot clock breaks the value bound and turns pointer 0 to -8 |
| ClockObjects.CopyArray | ClockParadoxSolver.js:26-34 | the copy is a new array with the same length and elements |
| ClockObjects.ClockObject.GetNumbers | ClockParadoxSolver.js:39-41 | the snapshot is a new array equal to the numbers, so later removals do not change it |
| ClockObjects.ClockObject.SetNumbers | ClockParadoxSolver.js:43-45 | the clock takes a new copy of the given numbers and the pointers are not touched |
| ClockObjects.ClockObject.GetNumberOfNumbers | ClockParadoxSolver.js:47-49 | on a valid clock, the slot count fixed at construction equals the length of the current numbers array and of the clock's state |
| ClockObjects.ClockObject.GetPointerPositions | ClockParadoxSolver.js:51-53 | a new array holding the two pointers |
| ClockObjects.ClockObject.IsNumberRemovedAt | ClockParadoxSolver.js:55-59 | true exactly when the slot holds the sentinel |
| ClockObjects.ClockObject.GetNumberAt | ClockParadoxSolver.js:61-65 | the number stored at the slot |
| ClockObjects.ClockObject.Rotate | ClockParadoxSolver.js:81-98 | the in-place rotation does what `ClockState.Rotate` does and leaves the array alone |
| ClockObjects.ClockObject.RemoveNumberAt | ClockParadoxSolver.js:67-79 | the in-place removal does what `ClockState.RemoveAt` does, in the same array |
| ClockObjects.ParadoxSolver.IsClockSolved | ClockParadoxSolver.js:145-154 | true exactly when every slot of the shared clock is emptied |
| ClockObjects.ParadoxSolver.Branch | ClockParadoxSolver.js:172-187 | one loop iteration: the clock ends as the search from the taken slot leaves it, with the snapshot written back exactly when the clock is not solved |
| ClockObjects.ParadoxSolver.Traverse | ClockParadoxSolver.js:156-196 | the in-place `traverse` returns the functional model's trail and leaves the shared clock in the functional model's final state |
| ClockObjects.ParadoxSolver.Solve | ClockParadoxSolver.js:120-143 | the in-place `solve` returns the functional model's answer and leaves the shared clock in the functional model's final state |

## Left out

- Reading the clock from the browser form (`getInput`, `getInputData`, lines 210-256): this is I/O. Its digit check only writes a warning; a non-digit entry is still copied when it comes before the count of accepted entries. The model takes the clock as given and requires every number to satisfy the value bound (`ClockState.Fresh`).
- `resetFields`, `GoNextInput`, `displayInputHelp` and the global `counter` (lines 258-277, 293-324): these are user interface only.
- The two `solveParadox` entry points (lines 200-207, 280-286): these only wire the form to `solve`.
- `parseInt` on indices and values: the model uses integers throughout.
- Clocks whose numbers break the value bound, for two different reasons. A number above `N + i` at slot i sends pointer 0 off the face; the source then reads `undefined` and `NaN`, and only JavaScript coercion semantics decide the result. A negative number can keep both pointers on the face (`Scenarios.NegativeCanStayOnFace`), but -1 collides with the emptied-slot sentinel (line 58), and a one-character input field cannot produce a negative number. Both are excluded by precondition, and so are non-numeric strings.
- The exact text of the trail (`"[p] v -> "`, `"solved"`, `"No solution found"`, `"No solution found."`). The `Path` datatype has the same structure, with one constructor per marker. No string rendering is modelled.
- The pointer pair is kept as two fields, not as a two-element array. `getPointerPositions` still returns a new two-element array.
- ClockState.TruncRem: states the sign and magnitude of the remainder on a negative dividend, but not its congruence. The model never reaches a negative dividend, because `p1 + v >= 0` always holds under the value bound.
