/** One pending track-access request and its comparison helpers. */
module Cylinders {

  /**
   * A request for one track. The track number and the arrival time never change once
   * the request is built; the waiting time is a counter bumped once per simulated tick.
   */
  class Cylinder {
    const number: int
    const arrivalTime: int
    var waitingTime: nat

    /** Builds a fresh request that has not waited yet. */
    constructor From(number: int, arrivalTime: int)
      ensures this.number == number && this.arrivalTime == arrivalTime
      ensures waitingTime == 0
    {
      this.number := number;
      this.arrivalTime := arrivalTime;
      waitingTime := 0;
    }

    /** Signed offset of this track from `cylinderNumber`. */
    function SubtractNumber(cylinderNumber: int): (r: int)
      ensures cylinderNumber + r == number
      ensures r == 0 <==> HasSameNumber(cylinderNumber)
    {
      number - cylinderNumber
    }

    predicate HasSameNumber(cylinderNumber: int) {
      number == cylinderNumber
    }

    predicate HasSameArrivalTime(arrivalTime: int) {
      this.arrivalTime == arrivalTime
    }

    /** One more tick spent waiting; the track and the arrival time are constants. */
    method IncreaseWaitingTime()
      modifies this
      ensures waitingTime == old(waitingTime) + 1
    {
      waitingTime := waitingTime + 1;
    }

    /** Orders requests by arrival: the sign of the result is the sign of the difference. */
    function CompareByArrivalTimeAscending(cylinder: Cylinder): (r: int)
      ensures r < 0 <==> arrivalTime < cylinder.arrivalTime
      ensures r == 0 <==> HasSameArrivalTime(cylinder.arrivalTime)
      ensures r > 0 <==> arrivalTime > cylinder.arrivalTime
    {
      arrivalTime - cylinder.arrivalTime
    }

    /** Head travel between this track and `cylinderNumber`: the magnitude of the offset. */
    function DistanceFrom(cylinderNumber: int): (d: int)
      ensures d >= 0
      ensures d == SubtractNumber(cylinderNumber) || d == -SubtractNumber(cylinderNumber)
      ensures d == 0 <==> HasSameNumber(cylinderNumber)
    {
      var diff := number - cylinderNumber;
      if diff < 0 then -diff else diff
    }

    /** Strictly greater is the negation of the inclusive "less or equal". */
    function IsNumberGreaterThan(cylinder: Cylinder): (r: bool)
      ensures r <==> !IsNumberLessOrEqualsFrom(cylinder.number)
    {
      number > cylinder.number
    }

    predicate IsNumberGreaterOrEqualsFrom(cylinderNumber: int) {
      number >= cylinderNumber
    }

    /** Strictly less is the negation of the inclusive "greater or equal". */
    function IsNumberLessThan(cylinder: Cylinder): (r: bool)
      ensures r <==> !IsNumberGreaterOrEqualsFrom(cylinder.number)
    {
      number < cylinder.number
    }

    predicate IsNumberLessOrEqualsFrom(cylinderNumber: int) {
      number <= cylinderNumber
    }
  }

  /** Exactly one of "greater", "less" and "same track" holds between two requests. */
  lemma NumberTrichotomy(a: Cylinder, b: Cylinder)
    ensures !(a.IsNumberGreaterThan(b) && a.IsNumberLessThan(b))
    ensures a.IsNumberGreaterThan(b) || a.IsNumberLessThan(b) || a.HasSameNumber(b.number)
    ensures a.HasSameNumber(b.number) ==> !a.IsNumberGreaterThan(b) && !a.IsNumberLessThan(b)
  {
  }

  /** The inclusive comparisons cover every track, and overlap exactly on the track itself. */
  lemma InclusiveComparisonsCover(c: Cylinder, n: int)
    ensures c.IsNumberGreaterOrEqualsFrom(n) || c.IsNumberLessOrEqualsFrom(n)
    ensures c.IsNumberGreaterOrEqualsFrom(n) && c.IsNumberLessOrEqualsFrom(n) <==> c.HasSameNumber(n)
  {
  }

  /** Comparing by arrival in the other order flips the sign. */
  lemma CompareByArrivalTimeAntisymmetric(a: Cylinder, b: Cylinder)
    ensures a.CompareByArrivalTimeAscending(b) == -b.CompareByArrivalTimeAscending(a)
  {
  }
}
