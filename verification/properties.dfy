/**
  What the search promises beyond its own contracts: the pointers after a
  removal forget where they were, the traversal is complete (it finds a
  continuation whenever one exists), it prefers pointer 0, every solution
  empties each slot exactly once, and `solve` answers for the lowest start
  slot that has a solution.
*/
module SearchProperties {
  import opened ClockState
  import opened ParadoxSearch

  /** The number of steps on a trail. */
  function StepCount(p: Path): nat {
    match p
    case Then(_, rest) => 1 + StepCount(rest)
    case _ => 0
  }

  /** The slots a trail takes, in order. */
  function Positions(p: Path): seq<int> {
    match p
    case Then(s, rest) => [s.position] + Positions(rest)
    case _ => []
  }

  /** Taking slot i puts the pointers where the slot and its number say,
      whatever the pointers were before. */
  lemma RemoveAtForgetsPointers(c: Clock, i: int, a: int, b: int)
    requires 0 <= i < |c.numbers|
    ensures RemoveAt(c.(p0 := a, p1 := b), i) == RemoveAt(c, i)
  {
  }

  /** A clock with no slot emptied has every slot live. */
  lemma {:induction false} RemainingOfFresh(s: seq<int>)
    requires forall i :: 0 <= i < |s| ==> s[i] != Removed
    ensures Remaining(s) == |s|
    decreases |s|
  {
    if |s| > 0 {
      var k := |s| - 1;
      assert s[k] != Removed;
      assert forall i :: 0 <= i < k ==> s[..k][i] == s[i];
      RemainingOfFresh(s[..k]);
    }
  }

  /** The first iteration of the traversal loop, unfolded: the slot under
      pointer 0 is skipped when emptied, and otherwise its branch either
      finishes the search or is rolled back before pointer 1 is tried. */
  lemma FirstPointerStep(c: Clock)
    requires Playable(c)
    ensures c.numbers[c.p0] == Removed ==> Traverse(c) == TraverseFrom(c, 1, c)
    ensures c.numbers[c.p0] != Removed ==>
              var sub := Traverse(RemoveAt(c, c.p0));
              if IsSolved(sub.clock.numbers)
              then Traverse(c) == Search(Then(Step(c.p0, c.numbers[c.p0]), sub.path), sub.clock)
              else Traverse(c) == TraverseFrom(c, 1, sub.clock.(numbers := c.numbers))
  {
  }

  /** Rolled back to the entry numbers, the second iteration of the traversal
      loop succeeds when the branch under the captured pointer 1 does,
      whatever pointers the failed first branch left. */
  lemma SecondPointerFinishes(c: Clock, d: Clock)
    requires Playable(c) && d.numbers == c.numbers
    requires OnFace(d.p0, |d.numbers|) && OnFace(d.p1, |d.numbers|)
    requires c.numbers[c.p1] != Removed
    requires Succeeds(Traverse(RemoveAt(c, c.p1)).path)
    ensures Succeeds(TraverseFrom(c, 1, d).path)
  {
    assert RemoveAt(d, c.p1) == RemoveAt(c, c.p1);
  }

  /** Completeness of `traverse`: if some legal continuation empties the
      clock, the search finds one. */
  lemma {:induction false} TraverseComplete(c: Clock, p: Path)
    requires Playable(c) && Plays(c, p)
    ensures Succeeds(Traverse(c).path)
    decreases Remaining(c.numbers)
  {
    FirstPointerStep(c);
    if p.Solved? {
      assert c.numbers[c.p0] == Removed && c.numbers[c.p1] == Removed;
      assert TraverseFrom(c, 1, c) == TraverseFrom(c, 2, c);
    } else {
      var s := p.step;
      TraverseComplete(RemoveAt(c, s.position), p.rest);
      if s.position != c.p0 {
        if c.numbers[c.p0] == Removed {
          SecondPointerFinishes(c, c);
        } else {
          var sub := Traverse(RemoveAt(c, c.p0));
          if !IsSolved(sub.clock.numbers) {
            SecondPointerFinishes(c, sub.clock.(numbers := c.numbers));
          }
        }
      }
    }
  }

  /** `traverse` succeeds exactly when a legal continuation exists. */
  lemma TraverseSucceedsIff(c: Clock)
    requires Playable(c)
    ensures Succeeds(Traverse(c).path) <==> exists p :: Plays(c, p)
  {
    var r := Traverse(c);
    if Succeeds(r.path) {
      var found := r.path;
      assert Plays(c, found);
      assert exists p :: Plays(c, p);
    } else if exists p :: Plays(c, p) {
      var p :| Plays(c, p);
      TraverseComplete(c, p);
    }
  }

  /** Search order: when the slot under pointer 0 is live and can be
      continued to a solution, the traversal takes it first. */
  lemma TraversePrefersPointer0(c: Clock, p: Path)
    requires Playable(c) && c.numbers[c.p0] != Removed
    requires Plays(RemoveAt(c, c.p0), p)
    ensures Traverse(c).path.Then?
    ensures Traverse(c).path.step == Step(c.p0, c.numbers[c.p0])
    ensures Traverse(c).path.rest == Traverse(RemoveAt(c, c.p0)).path
  {
    TraverseComplete(RemoveAt(c, c.p0), p);
  }

  /** A legal continuation takes every live slot exactly once: as many steps
      as live slots, each on a slot live in c, no slot twice. */
  lemma {:induction false} PlayTakesLiveSlotsOnce(c: Clock, p: Path)
    requires Plays(c, p)
    ensures StepCount(p) == |Positions(p)| == Remaining(c.numbers)
    ensures forall k :: 0 <= k < |Positions(p)| ==>
              0 <= Positions(p)[k] < |c.numbers| && c.numbers[Positions(p)[k]] != Removed
    ensures forall a, b :: 0 <= a < b < |Positions(p)| ==> Positions(p)[a] != Positions(p)[b]
    decreases p
  {
    match p
    case Solved =>
      RemainingZero(c.numbers);
    case Then(s, rest) =>
      var c1 := RemoveAt(c, s.position);
      PlayTakesLiveSlotsOnce(c1, rest);
      var ps := Positions(p);
      assert ps == [s.position] + Positions(rest);
      forall k | 0 < k < |ps|
        ensures ps[k] != s.position && c.numbers[ps[k]] != Removed
      {
        assert ps[k] == Positions(rest)[k - 1];
      }
  }

  /** A solution of a freshly built clock takes each of its N slots exactly
      once. */
  lemma SolutionTakesEverySlotOnce(c: Clock, p: Path)
    requires Fresh(c.numbers) && IsSolution(c, p)
    ensures |Positions(p)| == |c.numbers|
    ensures forall k :: 0 <= k < |Positions(p)| ==> 0 <= Positions(p)[k] < |c.numbers|
    ensures forall a, b :: 0 <= a < b < |Positions(p)| ==> Positions(p)[a] != Positions(p)[b]
  {
    var i := p.step.position;
    var c1 := RemoveAt(c, i);
    RemainingOfFresh(c.numbers);
    PlayTakesLiveSlotsOnce(c1, p.rest);
    var ps := Positions(p);
    assert ps == [i] + Positions(p.rest);
    forall k | 0 < k < |ps|
      ensures ps[k] != i
    {
      assert ps[k] == Positions(p.rest)[k - 1];
    }
  }

  /** A successful search from start slot j, prefixed with that first step,
      is a solution of the clock. */
  lemma StartGivesSolution(c: Clock, j: int)
    requires Fresh(c.numbers) && 0 <= j < |c.numbers|
    requires StartSucceeds(c, j)
    ensures IsSolution(c, Then(Step(j, c.numbers[j]), Traverse(RemoveAt(c, j)).path))
  {
  }

  /** From the start slot of any solution, the search succeeds. */
  lemma SolutionGivesStart(c: Clock, q: Path)
    requires Fresh(c.numbers) && IsSolution(c, q)
    ensures StartSucceeds(c, q.step.position)
  {
    TraverseComplete(RemoveAt(c, q.step.position), q.rest);
  }

  /** `solve` reports a solution exactly when the clock has one. */
  lemma SolveComplete(c: Clock)
    requires Fresh(c.numbers)
    ensures Succeeds(Solve(c).path) <==> exists p :: IsSolution(c, p)
  {
    if exists p :: IsSolution(c, p) {
      var p :| IsSolution(c, p);
      SolutionGivesStart(c, p);
    }
  }

  /** `solve` answers with the lowest start slot from which the clock can be
      emptied: no solution starts further counter-clockwise of it. */
  lemma SolveFindsLowestStart(c: Clock, q: Path)
    requires Fresh(c.numbers) && IsSolution(c, q)
    ensures Succeeds(Solve(c).path)
    ensures Solve(c).path.step.position <= q.step.position
  {
    SolutionGivesStart(c, q);
  }
}
