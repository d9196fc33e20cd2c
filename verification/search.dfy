/**
  The paradox solver: an exhaustive depth-first search with rollback.

  The source keeps one mutable clock and undoes failed branches by writing a
  snapshot of the numbers back; the pointers are never restored. Here every
  search call takes the clock it starts from and returns, with its path, the
  clock it leaves behind, so that the rollback is a property of the result.
*/
module ParadoxSearch {
  import opened ClockState

  /** One removal: the slot taken and the number that was on it. */
  datatype Step = Step(position: int, value: int)

  /** The trail the source renders as `[position] value -> ...`: a chain of
      steps ending in the success marker or in the failure marker. */
  datatype Path = Solved | NoSolution | Then(step: Step, rest: Path)

  /** A search outcome and the clock state the search leaves behind. */
  datatype Search = Search(path: Path, clock: Clock)

  /** The trail ends in the success marker. */
  predicate Succeeds(p: Path) {
    match p
    case Solved => true
    case NoSolution => false
    case Then(_, rest) => Succeeds(rest)
  }

  /** Reference definition of a legal continuation: from clock c, every step
      takes a live slot under one of the current pointers and records the
      number found there, and the clock is empty when the trail says
      solved. */
  predicate Plays(c: Clock, p: Path)
    decreases p
  {
    match p
    case Solved => IsSolved(c.numbers)
    case NoSolution => false
    case Then(s, rest) =>
      && (s.position == c.p0 || s.position == c.p1)
      && 0 <= s.position < |c.numbers|
      && c.numbers[s.position] != Removed
      && s.value == c.numbers[s.position]
      && Plays(RemoveAt(c, s.position), rest)
  }

  /** Reference definition of a full solution of a clock: the first step may
      take any live slot, and the rest is a legal continuation from there. */
  predicate IsSolution(c: Clock, p: Path) {
    && p.Then?
    && 0 <= p.step.position < |c.numbers|
    && c.numbers[p.step.position] != Removed
    && p.step.value == c.numbers[p.step.position]
    && Plays(RemoveAt(c, p.step.position), p.rest)
  }

  /** The source's `traverse`: it captures the pointers and a snapshot of the
      numbers on entry and tries the slot under pointer 0, then the slot under
      pointer 1. On success the clock is empty and the path is a legal
      continuation from the entry clock; on failure the path is the failure
      marker and the numbers equal the entry snapshot, while the pointers may
      have moved. */
  function Traverse(c: Clock): (r: Search)
    requires Playable(c)
    ensures |r.clock.numbers| == |c.numbers|
    ensures OnFace(r.clock.p0, |c.numbers|) && OnFace(r.clock.p1, |c.numbers|)
    ensures Succeeds(r.path) <==> IsSolved(r.clock.numbers)
    ensures !Succeeds(r.path) ==> r.path == NoSolution && r.clock.numbers == c.numbers
    ensures Succeeds(r.path) ==> Plays(c, r.path)
    decreases Remaining(c.numbers), 1, 0
  {
    TraverseFrom(c, 0, c)
  }

  /** The loop of `traverse` from its k-th pointer on. `entry` is the clock
      on entry to `traverse` (its pointers are the captured positions, its
      numbers the snapshot); `c` is the current clock, whose numbers have
      been rolled back to the snapshot but whose pointers are wherever the
      last failed branch left them. */
  function TraverseFrom(entry: Clock, k: nat, c: Clock): (r: Search)
    requires Playable(entry) && k <= 2
    requires c.numbers == entry.numbers
    requires OnFace(c.p0, |c.numbers|) && OnFace(c.p1, |c.numbers|)
    ensures |r.clock.numbers| == |entry.numbers|
    ensures OnFace(r.clock.p0, |entry.numbers|) && OnFace(r.clock.p1, |entry.numbers|)
    ensures Succeeds(r.path) <==> IsSolved(r.clock.numbers)
    ensures !Succeeds(r.path) ==> r.path == NoSolution && r.clock.numbers == entry.numbers
    ensures Succeeds(r.path) ==> Plays(entry, r.path)
    decreases Remaining(entry.numbers), 0, 2 - k
  {
    if k == 2 then
      if IsSolved(c.numbers) then Search(Solved, c) else Search(NoSolution, c)
    else
      var position := if k == 0 then entry.p0 else entry.p1;
      if IsRemovedAt(c, position) then
        TraverseFrom(entry, k + 1, c)
      else
        var v := c.numbers[position];
        var sub := Traverse(RemoveAt(c, position));
        if IsSolved(sub.clock.numbers) then
          Search(Then(Step(position, v), sub.path), sub.clock)
        else
          TraverseFrom(entry, k + 1, sub.clock.(numbers := entry.numbers))
  }

  /** The search started by taking slot j first succeeds. */
  predicate StartSucceeds(c: Clock, j: int)
    requires Fresh(c.numbers) && 0 <= j < |c.numbers|
  {
    Succeeds(Traverse(RemoveAt(c, j)).path)
  }

  /** The source's `solve`: every start slot in ascending order, each from
      the snapshot of the numbers taken on entry. It returns the first start
      whose search empties the clock, and otherwise the failure marker with
      the numbers as they were on entry. */
  function Solve(c: Clock): (r: Search)
    requires Fresh(c.numbers)
    ensures Succeeds(r.path) ==> IsSolved(r.clock.numbers) && IsSolution(c, r.path)
    ensures Succeeds(r.path) ==> forall j :: 0 <= j < r.path.step.position ==> !StartSucceeds(c, j)
    ensures !Succeeds(r.path) ==> r.path == NoSolution && r.clock.numbers == c.numbers
    ensures !Succeeds(r.path) ==> forall j :: 0 <= j < |c.numbers| ==> !StartSucceeds(c, j)
  {
    SolveFrom(c, 0, c)
  }

  /** The loop of `solve` from start slot i on; `c` carries the numbers
      rolled back to the entry snapshot and whatever pointers the previous
      start left. */
  function SolveFrom(entry: Clock, i: nat, c: Clock): (r: Search)
    requires Fresh(entry.numbers) && i <= |entry.numbers|
    requires c.numbers == entry.numbers
    ensures Succeeds(r.path) ==> IsSolved(r.clock.numbers) && IsSolution(entry, r.path)
    ensures Succeeds(r.path) ==> i <= r.path.step.position
    ensures Succeeds(r.path) ==> forall j :: i <= j < r.path.step.position ==> !StartSucceeds(entry, j)
    ensures !Succeeds(r.path) ==> r.path == NoSolution && r.clock.numbers == entry.numbers
    ensures !Succeeds(r.path) ==> forall j :: i <= j < |entry.numbers| ==> !StartSucceeds(entry, j)
    decreases |entry.numbers| - i
  {
    if i == |c.numbers| then
      Search(NoSolution, c)
    else
      var v := c.numbers[i];
      var sub := Traverse(RemoveAt(c, i));
      if IsSolved(sub.clock.numbers) then
        Search(Then(Step(i, v), sub.path), sub.clock)
      else
        SolveFrom(entry, i + 1, sub.clock.(numbers := entry.numbers))
  }
}
