/**
  The source's two objects as they are written: a clock that owns a mutable
  array of numbers and two pointer fields, and a solver that searches by
  mutating that clock and writing snapshots back. Each method is proved to
  do to the object exactly what the functional model says, so the rollback
  of the real, aliasing-prone array code is the rollback proved of the
  model.
*/
module ClockObjects {
  import opened ClockState
  import opened ParadoxSearch

  /** `copyArray`: a new array with the same length and elements. Being new,
      it is unaffected by later writes to the original. */
  method CopyArray(original: array<int>) returns (copy: array<int>)
    ensures fresh(copy)
    ensures copy[..] == original[..]
  {
    copy := new int[original.Length];
    var i := 0;
    while i < original.Length
      invariant 0 <= i <= original.Length
      invariant forall k :: 0 <= k < i ==> copy[k] == original[k]
    {
      copy[i] := original[i];
      i := i + 1;
    }
  }

  /** The `Clock` object. */
  class ClockObject {
    var clockNumbers: array<int>
    const numberOfNumbers: int
    var p0: int
    var p1: int

    /** The array always has the length fixed at construction. */
    ghost predicate Valid()
      reads this
    {
      clockNumbers.Length == numberOfNumbers
    }

    /** The object's current state as a clock value. */
    function State(): Clock
      reads this, clockNumbers
    {
      Clock(clockNumbers[..], p0, p1)
    }

    /** The constructor keeps the caller's array itself, not a copy, and
        starts both pointers at 12 o'clock. */
    constructor (numbers: array<int>)
      ensures Valid()
      ensures clockNumbers == numbers && numberOfNumbers == numbers.Length
      ensures State() == Clock(numbers[..], 0, 0)
    {
      clockNumbers := numbers;
      numberOfNumbers := numbers.Length;
      p0 := 0;
      p1 := 0;
    }

    /** `getNumbers`: a snapshot, by value. */
    method GetNumbers() returns (snapshot: array<int>)
      ensures fresh(snapshot)
      ensures snapshot[..] == clockNumbers[..]
    {
      snapshot := CopyArray(clockNumbers);
    }

    /** `setNumbers`: the clock takes a copy of the given numbers; the
        pointers stay where they are. */
    method SetNumbers(numbers: array<int>)
      requires Valid() && numbers.Length == numberOfNumbers
      modifies this
      ensures Valid() && fresh(clockNumbers)
      ensures State() == old(State()).(numbers := numbers[..])
    {
      clockNumbers := CopyArray(numbers);
    }

    /** `getNumberOfNumbers`: the slot count fixed at construction, which
        is the length of the current numbers. */
    method GetNumberOfNumbers() returns (n: int)
      requires Valid()
      ensures n == clockNumbers.Length == |State().numbers|
    {
      n := numberOfNumbers;
    }

    /** `getPointerPositions`: a snapshot of the pointer pair. */
    method GetPointerPositions() returns (positions: array<int>)
      ensures fresh(positions)
      ensures positions[..] == [p0, p1]
    {
      positions := new int[2];
      positions[0], positions[1] := p0, p1;
    }

    method IsNumberRemovedAt(index: int) returns (removed: bool)
      requires 0 <= index < clockNumbers.Length
      ensures removed <==> IsRemovedAt(State(), index)
    {
      removed := clockNumbers[index] == Removed;
    }

    method GetNumberAt(index: int) returns (v: int)
      requires 0 <= index < clockNumbers.Length
      ensures v == State().numbers[index]
    {
      v := clockNumbers[index];
    }

    /** `rotate`: pointer 0 anticlockwise, pointer 1 clockwise. */
    method Rotate(rotationNumber: int)
      requires Valid() && numberOfNumbers > 0
      modifies this
      ensures Valid() && clockNumbers == old(clockNumbers)
      ensures State() == ClockState.Rotate(old(State()), rotationNumber)
    {
      if p0 < rotationNumber {
        var difference := rotationNumber - p0;
        p0 := numberOfNumbers - difference;
      } else {
        p0 := p0 - rotationNumber;
      }
      p1 := TruncRem(p1 + rotationNumber, numberOfNumbers);
    }

    /** `removeNumberAt`: both pointers to the slot, rotate by its number,
        then empty the slot in place. */
    method RemoveNumberAt(index: int)
      requires Valid() && 0 <= index < clockNumbers.Length
      modifies this, clockNumbers
      ensures Valid() && clockNumbers == old(clockNumbers)
      ensures State() == RemoveAt(old(State()), index)
    {
      p0 := index;
      p1 := index;
      Rotate(clockNumbers[index]);
      clockNumbers[index] := Removed;
    }
  }

  /** The `ParadoxSolver` object. */
  class ParadoxSolver {
    const clock: ClockObject

    constructor (clockInstance: ClockObject)
      ensures clock == clockInstance
    {
      clock := clockInstance;
    }

    /** `isClockSolved`: on a valid clock the loop bound, the slot count, is
        the length of the numbers. */
    method IsClockSolved() returns (solved: bool)
      requires clock.Valid()
      ensures solved <==> IsSolved(clock.State().numbers)
    {
      solved := CheckSolved(clock.clockNumbers[..clock.numberOfNumbers]);
    }

    /** One iteration of the loops of `traverse` and `solve`: take the
        number at a live slot, search on from there, and if the clock is
        not solved write the snapshot back. The pointers are left where
        the failed search put them. */
    method Branch(position: int, backup: array<int>) returns (path: Path, solved: bool)
      requires clock.Valid() && |clock.State().numbers| > 0 && Admissible(clock.State().numbers)
      requires 0 <= position < |clock.State().numbers| && !IsRemovedAt(clock.State(), position)
      requires backup[..] == clock.State().numbers && backup != clock.clockNumbers
      modifies clock, clock.clockNumbers
      ensures clock.Valid() && clock.clockNumbers != backup
      ensures clock.clockNumbers == old(clock.clockNumbers) || fresh(clock.clockNumbers)
      ensures var sub := ParadoxSearch.Traverse(RemoveAt(old(clock.State()), position));
              && solved == IsSolved(sub.clock.numbers)
              && (solved ==> path == Then(Step(position, old(clock.State()).numbers[position]), sub.path))
              && (solved ==> clock.State() == sub.clock)
              && (!solved ==> clock.State() == sub.clock.(numbers := old(clock.State()).numbers))
      decreases Remaining(clock.clockNumbers[..]), 0
    {
      var numberToBeRemoved := clock.GetNumberAt(position);
      clock.RemoveNumberAt(position);
      var rest := Traverse();
      path := Then(Step(position, numberToBeRemoved), rest);
      solved := IsClockSolved();
      if !solved {
        clock.SetNumbers(backup);
      }
    }

    /** `traverse`, run on the shared clock. It leaves the clock in exactly
        the state the functional model's traversal returns; in particular a
        failed call hands the numbers back as they were on entry. */
    method Traverse() returns (path: Path)
      requires clock.Valid() && Playable(clock.State())
      modifies clock, clock.clockNumbers
      ensures clock.Valid()
      ensures clock.clockNumbers == old(clock.clockNumbers) || fresh(clock.clockNumbers)
      ensures Search(path, clock.State()) == ParadoxSearch.Traverse(old(clock.State()))
      decreases Remaining(clock.clockNumbers[..]), 1
    {
      ghost var entry := clock.State();
      var backupClockNumbers := clock.GetNumbers();
      var pointerPositions := clock.GetPointerPositions();
      var i := 0;
      while i < pointerPositions.Length
        invariant 0 <= i <= 2
        invariant pointerPositions != clock.clockNumbers && pointerPositions[..] == [entry.p0, entry.p1]
        invariant backupClockNumbers[..] == entry.numbers
        invariant clock.Valid() && clock.State().numbers == entry.numbers
        invariant clock.clockNumbers != backupClockNumbers
        invariant clock.clockNumbers == old(clock.clockNumbers) || fresh(clock.clockNumbers)
        invariant OnFace(clock.p0, |entry.numbers|) && OnFace(clock.p1, |entry.numbers|)
        invariant TraverseFrom(entry, i, clock.State()) == ParadoxSearch.Traverse(entry)
        decreases 2 - i
      {
        var position := pointerPositions[i];
        var removed := clock.IsNumberRemovedAt(position);
        if !removed {
          var solved;
          path, solved := Branch(position, backupClockNumbers);
          if solved {
            return;
          }
        }
        i := i + 1;
      }
      var solved := IsClockSolved();
      if solved {
        path := Solved;
      } else {
        path := NoSolution;
      }
    }

    /** `solve`: it leaves the clock in exactly the state the functional
        model's `Solve` returns and answers with the same path. */
    method Solve() returns (path: Path)
      requires clock.Valid() && Fresh(clock.State().numbers)
      modifies clock, clock.clockNumbers
      ensures clock.Valid()
      ensures Search(path, clock.State()) == ParadoxSearch.Solve(old(clock.State()))
    {
      ghost var entry := clock.State();
      var backupClockNumbers := clock.GetNumbers();
      var i := 0;
      var n := clock.GetNumberOfNumbers();
      while i < n
        invariant 0 <= i <= n == |entry.numbers|
        invariant backupClockNumbers[..] == entry.numbers
        invariant clock.Valid() && clock.State().numbers == entry.numbers
        invariant clock.clockNumbers != backupClockNumbers
        invariant clock.clockNumbers == old(clock.clockNumbers) || fresh(clock.clockNumbers)
        invariant SolveFrom(entry, i, clock.State()) == ParadoxSearch.Solve(entry)
        decreases n - i
      {
        var solved;
        path, solved := Branch(i, backupClockNumbers);
        if solved {
          return;
        }
        i := i + 1;
      }
      path := NoSolution;
    }
  }
}
