/**
  Small clocks worked through by hand.
*/
module Scenarios {
  import opened ClockState
  import opened ParadoxSearch

  /** On [1, 1], taking slot 0 sends both pointers to slot 1; taking that
      empties the clock, so the first start already succeeds. */
  lemma TwoOnesSolvedFromSlot0()
    ensures RemoveAt(Clock([1, 1], 0, 0), 0) == Clock([Removed, 1], 1, 1)
    ensures Solve(Clock([1, 1], 0, 0)).path == Then(Step(0, 1), Then(Step(1, 1), Solved))
  {
    var c := Clock([1, 1], 0, 0);
    var c1 := RemoveAt(c, 0);
    assert c1 == Clock([Removed, 1], 1, 1);
    var c2 := RemoveAt(c1, 1);
    assert c2.numbers == [Removed, Removed];
    assert IsSolved(c2.numbers);
    assert TraverseFrom(c2, 1, c2) == TraverseFrom(c2, 2, c2);
    assert Traverse(c2).path == Solved;
    assert Traverse(c1).path == Then(Step(1, 1), Solved);
  }

  /** On [2, 2], each start sends both pointers back to the emptied slot:
      the search reports no solution and hands the numbers back. */
  lemma TwoTwosUnsolvable()
    ensures Solve(Clock([2, 2], 0, 0)) == Search(NoSolution, Clock([2, 2], 1, 1))
  {
    var c := Clock([2, 2], 0, 0);
    var a := RemoveAt(c, 0);
    assert a == Clock([Removed, 2], 0, 0);
    assert TraverseFrom(a, 1, a) == TraverseFrom(a, 2, a);
    assert Traverse(a) == Search(NoSolution, a);
    var c' := a.(numbers := [2, 2]);
    var b := RemoveAt(c', 1);
    assert b == Clock([2, Removed], 1, 1);
    assert TraverseFrom(b, 1, b) == TraverseFrom(b, 2, b);
    assert Traverse(b) == Search(NoSolution, b);
    assert SolveFrom(c, 1, c') == SolveFrom(c, 2, b.(numbers := [2, 2]));
  }

  /** An empty clock: the start loop never runs and the answer is the
      failure marker. */
  lemma EmptyClockUnsolved()
    ensures Solve(Clock([], 0, 0)).path == NoSolution
  {
  }

  /** A single 9 does not fit a one-slot clock: taking it turns pointer 0
      to -8, off the face. */
  lemma NineOnOneSlotLeavesFace()
    ensures !Fresh([9])
    ensures RemoveAt(Clock([9], 0, 0), 0).p0 == -8
  {
    assert [9][0] == 9 && !Fits(9, 0, 1);
  }

  /** A 0 leaves both pointers on the slot it empties, so on [0, 1] the
      start at slot 0 is a dead end; starting at slot 1 sends both pointers
      to slot 0, and the 0 is taken last. */
  lemma ZeroIsTakenLast()
    ensures RemoveAt(Clock([0, 1], 0, 0), 0) == Clock([Removed, 1], 0, 0)
    ensures Solve(Clock([0, 1], 0, 0)).path == Then(Step(1, 1), Then(Step(0, 0), Solved))
  {
    var c := Clock([0, 1], 0, 0);
    var a := RemoveAt(c, 0);
    assert a == Clock([Removed, 1], 0, 0);
    assert TraverseFrom(a, 1, a) == TraverseFrom(a, 2, a);
    assert Traverse(a) == Search(NoSolution, a);
    var c' := a.(numbers := [0, 1]);
    var b := RemoveAt(c', 1);
    assert b == Clock([0, Removed], 0, 0);
    var d := RemoveAt(b, 0);
    assert d.numbers == [Removed, Removed];
    assert IsSolved(d.numbers);
    assert TraverseFrom(d, 1, d) == TraverseFrom(d, 2, d);
    assert Traverse(d).path == Solved;
    assert Traverse(b).path == Then(Step(0, 0), Solved);
  }

  /** A negative number need not send a pointer off the face: a -2 at slot 2
      of a five-slot clock puts pointer 0 on slot 4 and pointer 1 on slot 0.
      It is outside the value bound all the same. */
  lemma NegativeCanStayOnFace()
    ensures RemoveAt(Clock([1, 1, -2, 1, 1], 0, 0), 2) == Clock([1, 1, Removed, 1, 1], 4, 0)
    ensures !Fresh([1, 1, -2, 1, 1])
  {
    assert [1, 1, -2, 1, 1][2] == -2 && !Fits(-2, 2, 5);
  }
}
