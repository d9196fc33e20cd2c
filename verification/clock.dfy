/**
  The clock of a clock paradox: a ring of N numbers, read clockwise from the
  12 o'clock slot (index 0), and two pointers. Taking the number at a slot
  puts both pointers on that slot and then turns pointer 0 anticlockwise and
  pointer 1 clockwise by the number taken; the slot itself is marked with the
  sentinel `Removed`.

  The clock is an immutable value here; the source object's in-place updates
  become functions from one clock to the next.
*/
module ClockState {

  /** The sentinel of an emptied slot. No digit the puzzle admits equals it. */
  const Removed: int := -1

  /** `numbers[i]` is the number at slot i (or `Removed`); `p0` is the
      anticlockwise pointer and `p1` the clockwise one. */
  datatype Clock = Clock(numbers: seq<int>, p0: int, p1: int)

  /** A slot index is on the face of an N-slot clock. */
  predicate OnFace(p: int, n: int) {
    0 <= p < n
  }

  /** The value bound on the number v at slot i of an n-slot clock. It is
      sufficient, not necessary, for taking v without either pointer leaving
      the face: the source's single wrap-around step reaches back at most n
      slots past 12 o'clock. A negative v is excluded because -1 is the
      sentinel of an emptied slot and a one-character input field cannot
      hold a negative number. A 0 leaves both pointers on the slot just
      emptied. */
  predicate Fits(v: int, i: int, n: int) {
    0 <= v <= n + i
  }

  /** Every slot is either emptied or holds a number that fits. */
  predicate Admissible(s: seq<int>) {
    forall i :: 0 <= i < |s| ==> s[i] == Removed || Fits(s[i], i, |s|)
  }

  /** A clock as a search starts on it: no slot emptied yet, every number
      fits. */
  predicate Fresh(s: seq<int>) {
    forall i :: 0 <= i < |s| ==> Fits(s[i], i, |s|)
  }

  /** The states the search runs on: a non-empty face, both pointers on it. */
  predicate Playable(c: Clock) {
    && |c.numbers| > 0
    && OnFace(c.p0, |c.numbers|)
    && OnFace(c.p1, |c.numbers|)
    && Admissible(c.numbers)
  }

  predicate IsRemovedAt(c: Clock, i: int)
    requires 0 <= i < |c.numbers|
  {
    c.numbers[i] == Removed
  }

  /** Every slot has been emptied: the paradox is solved. */
  predicate IsSolved(s: seq<int>) {
    forall i :: 0 <= i < |s| ==> s[i] == Removed
  }

  /** The number of slots still holding a number. */
  function Remaining(s: seq<int>): nat
  {
    if |s| == 0 then 0
    else Remaining(s[..|s| - 1]) + (if s[|s| - 1] == Removed then 0 else 1)
  }

  /** JavaScript's `%`: the remainder truncated toward zero. On a
      non-negative dividend it agrees with the Euclidean remainder; on a
      negative one it takes the dividend's sign. */
  function TruncRem(a: int, n: int): (r: int)
    requires n > 0
    ensures -n < r < n
    ensures 0 <= a ==> r == a % n
    ensures a < 0 ==> r <= 0
  {
    if a >= 0 then a % n else -((-a) % n)
  }

  /** On the window [-n, n) the Euclidean remainder needs at most one
      wrap-around. */
  lemma ModInWindow(x: int, n: int)
    requires n > 0 && -n <= x < n
    ensures x % n == (if x < 0 then x + n else x)
  {
    if x < 0 {
      assert (x + n) % n == x + n;
      assert x == (x + n) - n;
    }
  }

  /** Pointer 0 turned anticlockwise by v on an n-slot face, with the
      source's single wrap-around. From a slot on the face it stays on the
      face exactly when v reaches back no further than n slots past
      12 o'clock, and then it is p - v around the face. */
  function Anticlockwise(p: int, v: int, n: int): (r: int)
    requires n > 0
    ensures OnFace(p, n) && 0 <= v ==> (OnFace(r, n) <==> v <= n + p)
    ensures OnFace(p, n) && 0 <= v <= n + p ==> r == (p - v) % n
  {
    var r := if p < v then n - (v - p) else p - v;
    assert OnFace(p, n) && 0 <= v <= n + p ==> r == (p - v) % n by {
      if OnFace(p, n) && 0 <= v <= n + p {
        ModInWindow(p - v, n);
      }
    }
    r
  }

  /** Pointer 1 turned clockwise by v on an n-slot face: from a
      non-negative sum it is p + v around the face. */
  function Clockwise(p: int, v: int, n: int): (r: int)
    requires n > 0
    ensures 0 <= p + v ==> OnFace(r, n) && r == (p + v) % n
  {
    TruncRem(p + v, n)
  }

  /** Turns both pointers by v; the numbers are untouched. Under the value
      bound pointer 0 lands on p0 - v and pointer 1 on p1 + v around the
      face. */
  function Rotate(c: Clock, v: int): (r: Clock)
    requires |c.numbers| > 0
    ensures r.numbers == c.numbers
    ensures OnFace(c.p0, |c.numbers|) && Fits(v, c.p0, |c.numbers|) ==>
              OnFace(r.p0, |c.numbers|) && r.p0 == (c.p0 - v) % |c.numbers|
    ensures 0 <= c.p1 + v ==> OnFace(r.p1, |c.numbers|) && r.p1 == (c.p1 + v) % |c.numbers|
  {
    var n := |c.numbers|;
    c.(p0 := Anticlockwise(c.p0, v, n), p1 := Clockwise(c.p1, v, n))
  }

  /** Takes the number at slot i: both pointers go to i, turn by the number
      found there, and the slot is emptied. Only slot i changes, and the new
      pointers are i -/+ v around the face, whatever they were before. */
  function RemoveAt(c: Clock, i: int): (r: Clock)
    requires 0 <= i < |c.numbers|
    ensures |r.numbers| == |c.numbers|
    ensures r.numbers[i] == Removed
    ensures forall j :: 0 <= j < |c.numbers| && j != i ==> r.numbers[j] == c.numbers[j]
    ensures Fits(c.numbers[i], i, |c.numbers|) ==>
              r.p0 == (i - c.numbers[i]) % |c.numbers| && r.p1 == (i + c.numbers[i]) % |c.numbers|
    ensures c.numbers[i] != Removed ==> Remaining(r.numbers) == Remaining(c.numbers) - 1
  {
    var v := c.numbers[i];
    var turned := Rotate(c.(p0 := i, p1 := i), v);
    var emptied := turned.numbers[i := Removed];
    assert v != Removed ==> Remaining(emptied) == Remaining(c.numbers) - 1 by {
      if v != Removed {
        RemainingDrops(c.numbers, i);
      }
    }
    turned.(numbers := emptied)
  }

  /** Emptying one live slot lowers the live count by exactly one: the
      measure that makes the search terminate. */
  lemma {:induction false} RemainingDrops(s: seq<int>, i: int)
    requires 0 <= i < |s| && s[i] != Removed
    ensures Remaining(s[i := Removed]) == Remaining(s) - 1
    decreases |s|
  {
    var t := s[i := Removed];
    var k := |s| - 1;
    if i == k {
      assert t[..k] == s[..k];
    } else {
      assert t[..k] == s[..k][i := Removed];
      RemainingDrops(s[..k], i);
    }
  }

  /** The live count is zero exactly on a solved clock. */
  lemma {:induction false} RemainingZero(s: seq<int>)
    ensures Remaining(s) == 0 <==> IsSolved(s)
    decreases |s|
  {
    if |s| > 0 {
      var k := |s| - 1;
      RemainingZero(s[..k]);
      if IsSolved(s) {
        assert IsSolved(s[..k]);
      } else if IsSolved(s[..k]) {
        assert s[k] != Removed;
      }
    }
  }

  /** The source's `isClockSolved` loop: it conjoins "removed" over every
      slot, without stopping early. */
  method CheckSolved(numbers: seq<int>) returns (solved: bool)
    ensures solved <==> IsSolved(numbers)
  {
    solved := true;
    var i := 0;
    while i < |numbers|
      invariant 0 <= i <= |numbers|
      invariant solved <==> IsSolved(numbers[..i])
    {
      solved := solved && numbers[i] == Removed;
      assert numbers[..i + 1] == numbers[..i] + [numbers[i]];
      i := i + 1;
    }
    assert numbers[..i] == numbers;
  }
}
