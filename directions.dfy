/** The sweep direction of the disk head. */
module Directions {

  /** LEFT moves toward lower track numbers, RIGHT toward higher ones. */
  datatype ScanDirection = LEFT | RIGHT {

    /** The opposite direction; on a two-valued type, "differs from this" pins it down. */
    function Reverse(): (r: ScanDirection)
      ensures r != this
    {
      match this
      case LEFT => RIGHT
      case RIGHT => LEFT
    }
  }

  /** Reversing twice gives back the original direction. */
  lemma ReverseInvolutive(d: ScanDirection)
    ensures d.Reverse().Reverse() == d
  {
  }
}
