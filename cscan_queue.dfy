/**
 * The C-SCAN selection engine: an insertion-ordered list of pending requests, the
 * selection of the next request to serve, and batch extraction of one track.
 */
module CScanQueues {
  import opened Directions
  import opened Cylinders

  /** The absent-candidate result of a selection on an empty queue. */
  datatype Option<T> = None | Some(value: T)

  // ---------------------------------------------------------------------------
  // Range test and the reference definitions of a selection
  // ---------------------------------------------------------------------------

  /**
   * A request is in range when it lies on or ahead of the head in the scan direction:
   * at or below the head when scanning LEFT, at or above it when scanning RIGHT.
   */
  function IsCylinderInRange(cylinder: Cylinder, currentCylinderNumber: int, currentScanDirection: ScanDirection): (r: bool)
    ensures r <==> if currentScanDirection == LEFT then cylinder.number <= currentCylinderNumber
                   else cylinder.number >= currentCylinderNumber
    ensures cylinder.HasSameNumber(currentCylinderNumber) ==> r
  {
    (currentScanDirection == LEFT && cylinder.IsNumberLessOrEqualsFrom(currentCylinderNumber))
    || (currentScanDirection == RIGHT && cylinder.IsNumberGreaterOrEqualsFrom(currentCylinderNumber))
  }

  /** Every request is in range for one of the two directions, and for both exactly when the head is on it. */
  lemma InRangeOneWayOrTheOther(cylinder: Cylinder, head: int, dir: ScanDirection)
    ensures IsCylinderInRange(cylinder, head, dir) || IsCylinderInRange(cylinder, head, dir.Reverse())
    ensures IsCylinderInRange(cylinder, head, dir) && IsCylinderInRange(cylinder, head, dir.Reverse())
            <==> cylinder.HasSameNumber(head)
  {
  }

  /** Track numbers of a sequence of requests, position by position. */
  ghost function Numbers(s: seq<Cylinder>): seq<int> {
    seq(|s|, i requires 0 <= i < |s| => s[i].number)
  }

  /** Distances of a sequence of requests from the head, position by position. */
  ghost function Distances(s: seq<Cylinder>, head: int): seq<int> {
    seq(|s|, i requires 0 <= i < |s| => s[i].DistanceFrom(head))
  }

  /** `k` holds a smallest key, and every earlier key is strictly larger (earliest wins a tie). */
  ghost predicate IsFirstMin(keys: seq<int>, k: int) {
    && 0 <= k < |keys|
    && (forall j :: 0 <= j < |keys| ==> keys[k] <= keys[j])
    && (forall j :: 0 <= j < k ==> keys[j] > keys[k])
  }

  /** `k` holds a largest key, and every earlier key is strictly smaller (earliest wins a tie). */
  ghost predicate IsFirstMax(keys: seq<int>, k: int) {
    && 0 <= k < |keys|
    && (forall j :: 0 <= j < |keys| ==> keys[j] <= keys[k])
    && (forall j :: 0 <= j < k ==> keys[j] < keys[k])
  }

  /** Some pending request lies on or ahead of the head. */
  ghost predicate AnyAhead(s: seq<Cylinder>, head: int, dir: ScanDirection) {
    exists j :: 0 <= j < |s| && IsCylinderInRange(s[j], head, dir)
  }

  /** `k` is the earliest of the in-range requests nearest to the head. */
  ghost predicate IsNearestAhead(s: seq<Cylinder>, head: int, dir: ScanDirection, k: int) {
    && 0 <= k < |s|
    && IsCylinderInRange(s[k], head, dir)
    && (forall j :: 0 <= j < |s| && IsCylinderInRange(s[j], head, dir) ==> s[k].DistanceFrom(head) <= s[j].DistanceFrom(head))
    && (forall j :: 0 <= j < k && IsCylinderInRange(s[j], head, dir) ==> s[j].DistanceFrom(head) > s[k].DistanceFrom(head))
  }

  /**
   * The position of the request a selection on `s` serves. Returning leg: the most
   * extreme track in the reversed direction (largest when that is LEFT, smallest when
   * RIGHT). Scanning leg: the nearest request ahead of the head if there is one,
   * otherwise the farthest request of all. Ties go to the earliest position.
   */
  ghost predicate Chosen(s: seq<Cylinder>, head: int, dir: ScanDirection, isHeadOnTheWayBack: bool, k: int) {
    if isHeadOnTheWayBack then
      if dir.Reverse() == LEFT then IsFirstMax(Numbers(s), k) else IsFirstMin(Numbers(s), k)
    else if AnyAhead(s, head, dir) then IsNearestAhead(s, head, dir, k)
    else IsFirstMax(Distances(s, head), k)
  }

  /**
   * What the chosen request is, stated on the request itself: the extreme track on the
   * returning leg; on the scanning leg an in-range request no farther than any other in
   * range, or, with nothing in range, a request no nearer than any other.
   */
  lemma ChosenMeaning(s: seq<Cylinder>, head: int, dir: ScanDirection, back: bool, k: int)
    requires Chosen(s, head, dir, back, k)
    ensures 0 <= k < |s|
    ensures back && dir.Reverse() == LEFT ==> forall j :: 0 <= j < |s| ==> s[j].number <= s[k].number
    ensures back && dir.Reverse() == RIGHT ==> forall j :: 0 <= j < |s| ==> s[k].number <= s[j].number
    ensures !back && AnyAhead(s, head, dir) ==>
              && IsCylinderInRange(s[k], head, dir)
              && forall j :: 0 <= j < |s| && IsCylinderInRange(s[j], head, dir) ==> s[k].DistanceFrom(head) <= s[j].DistanceFrom(head)
    ensures !back && !AnyAhead(s, head, dir) ==>
              forall j :: 0 <= j < |s| ==> s[j].DistanceFrom(head) <= s[k].DistanceFrom(head)
  {
    if back {
      assert forall j :: 0 <= j < |s| ==> Numbers(s)[j] == s[j].number;
    } else if !AnyAhead(s, head, dir) {
      assert forall j :: 0 <= j < |s| ==> Distances(s, head)[j] == s[j].DistanceFrom(head);
    }
  }

  /** At most one position is chosen, so a selection is deterministic. */
  lemma ChosenIsUnique(s: seq<Cylinder>, head: int, dir: ScanDirection, back: bool, k1: int, k2: int)
    requires Chosen(s, head, dir, back, k1) && Chosen(s, head, dir, back, k2)
    ensures k1 == k2
  {
    if back {
      assert Numbers(s)[k1] == s[k1].number && Numbers(s)[k2] == s[k2].number;
    } else if AnyAhead(s, head, dir) {
      assert IsNearestAhead(s, head, dir, k1) && IsNearestAhead(s, head, dir, k2);
    } else {
      assert Distances(s, head)[k1] == s[k1].DistanceFrom(head);
    }
  }

  /**
   * The chosen request does not occur earlier in the queue, because only a strict
   * improvement replaces the running candidate.
   */
  lemma ChosenIsFirstOccurrence(s: seq<Cylinder>, head: int, dir: ScanDirection, back: bool, k: int)
    requires Chosen(s, head, dir, back, k)
    ensures 0 <= k < |s|
    ensures forall j :: 0 <= j < k ==> s[j] != s[k]
  {
    forall j | 0 <= j < k ensures s[j] != s[k] {
      if back {
        assert Numbers(s)[j] != Numbers(s)[k];
      } else if AnyAhead(s, head, dir) {
        assert IsNearestAhead(s, head, dir, k);
      } else {
        assert Distances(s, head)[j] != Distances(s, head)[k];
      }
    }
  }

  // ---------------------------------------------------------------------------
  // Order-preserving filtering and removal by reference
  // ---------------------------------------------------------------------------

  /** The test a filter applies: "in range of the head" or "on this track". */
  datatype Criterion = Ahead(head: int, dir: ScanDirection) | OnTrack(track: int)

  predicate Meets(cylinder: Cylinder, t: Criterion) {
    match t
    case Ahead(head, dir) => IsCylinderInRange(cylinder, head, dir)
    case OnTrack(track) => cylinder.HasSameNumber(track)
  }

  /** The requests of `s` whose test outcome equals `keep`, in their original order. */
  function Filter(s: seq<Cylinder>, t: Criterion, keep: bool): (r: seq<Cylinder>)
    ensures |r| <= |s|
  {
    if s == [] then []
    else
      var last := s[|s| - 1];
      Filter(s[..|s| - 1], t, keep) + if Meets(last, t) == keep then [last] else []
  }

  /** Filtering one more request of `s` extends the filtered prefix by that request or by nothing. */
  lemma FilterStep(s: seq<Cylinder>, n: int, t: Criterion, keep: bool)
    requires 0 <= n < |s|
    ensures Filter(s[..n + 1], t, keep) == Filter(s[..n], t, keep) + if Meets(s[n], t) == keep then [s[n]] else []
  {
    assert s[..n + 1][..n] == s[..n];
  }

  /**
   * One step of extracting a track in place: with the first `done` requests of `s`
   * processed, the queue `cur` is the kept prefix followed by the unprocessed rest, and
   * the request at `i` is the next unprocessed one. Removing it, or stepping past it,
   * re-establishes that shape for `done + 1`.
   */
  lemma ExtractStep(s: seq<Cylinder>, done: int, n: int, cur: seq<Cylinder>, i: int)
    requires 0 <= done < |s|
    requires cur == Filter(s[..done], OnTrack(n), false) + s[done..]
    requires i == |Filter(s[..done], OnTrack(n), false)|
    ensures 0 <= i < |cur| && cur[i] == s[done]
    ensures Filter(s[..done + 1], OnTrack(n), true)
            == Filter(s[..done], OnTrack(n), true) + if s[done].HasSameNumber(n) then [s[done]] else []
    ensures s[done].HasSameNumber(n) ==>
              cur[..i] + cur[i + 1..] == Filter(s[..done + 1], OnTrack(n), false) + s[done + 1..]
              && i == |Filter(s[..done + 1], OnTrack(n), false)|
    ensures !s[done].HasSameNumber(n) ==>
              cur == Filter(s[..done + 1], OnTrack(n), false) + s[done + 1..]
              && i + 1 == |Filter(s[..done + 1], OnTrack(n), false)|
  {
    var t := OnTrack(n);
    FilterStep(s, done, t, true);
    FilterStep(s, done, t, false);
    assert s[done..] == [s[done]] + s[done + 1..];
    if s[done].HasSameNumber(n) {
      assert cur[..i] == Filter(s[..done], t, false);
      assert cur[i + 1..] == s[done + 1..];
    }
  }

  /** A filter keeps exactly the requests whose test outcome equals `keep`. */
  lemma {:induction false} FilterMembers(s: seq<Cylinder>, t: Criterion, keep: bool)
    ensures forall i :: 0 <= i < |Filter(s, t, keep)| ==> Filter(s, t, keep)[i] in s && Meets(Filter(s, t, keep)[i], t) == keep
    ensures forall j :: 0 <= j < |s| && Meets(s[j], t) == keep ==> s[j] in Filter(s, t, keep)
  {
    if s != [] {
      var init, last := s[..|s| - 1], s[|s| - 1];
      FilterMembers(init, t, keep);
      assert s == init + [last];
      var r, r' := Filter(s, t, keep), Filter(init, t, keep);
      forall i | 0 <= i < |r| ensures r[i] in s && Meets(r[i], t) == keep {
        if i < |r'| {
          assert r[i] == r'[i];
        }
      }
      forall j | 0 <= j < |s| && Meets(s[j], t) == keep ensures s[j] in r {
        if j < |init| {
          assert s[j] == init[j];
        }
      }
    }
  }

  /** The two sides of a filter together hold every request of `s` exactly as often as `s` does. */
  lemma {:induction false} FilterPartitions(s: seq<Cylinder>, t: Criterion)
    ensures multiset(Filter(s, t, true)) + multiset(Filter(s, t, false)) == multiset(s)
  {
    if s != [] {
      var init, last := s[..|s| - 1], s[|s| - 1];
      var yes, no := Filter(init, t, true), Filter(init, t, false);
      FilterPartitions(init, t);
      assert s == init + [last];
      if Meets(last, t) {
        assert Filter(s, t, true) == yes + [last];
        assert Filter(s, t, false) == no;
      } else {
        assert Filter(s, t, true) == yes;
        assert Filter(s, t, false) == no + [last];
      }
    }
  }

  /** When no request passes the test, the failing side is the whole sequence. */
  lemma {:induction false} FilterNonePass(s: seq<Cylinder>, t: Criterion)
    requires Filter(s, t, true) == []
    ensures Filter(s, t, false) == s
  {
    if s != [] {
      var init, last := s[..|s| - 1], s[|s| - 1];
      assert Filter(init, t, true) == [] by {
        assert |Filter(init, t, true)| <= |Filter(s, t, true)|;
      }
      FilterNonePass(init, t);
      assert s == init + [last];
    }
  }

  /** Removes the first occurrence of the reference `c` (or nothing when `c` is absent). */
  function RemoveFirst(s: seq<Cylinder>, c: Cylinder): (r: seq<Cylinder>)
    ensures c in s ==> |r| == |s| - 1
    ensures c !in s ==> r == s
  {
    if s == [] then []
    else if s[0] == c then
      assert s == [s[0]] + s[1..];
      s[1..]
    else
      assert s == [s[0]] + s[1..];
      [s[0]] + RemoveFirst(s[1..], c)
  }

  /** Removing a reference by identity is removing it at its first position. */
  lemma {:induction false} RemoveFirstAt(s: seq<Cylinder>, k: int)
    requires 0 <= k < |s|
    requires forall j :: 0 <= j < k ==> s[j] != s[k]
    ensures RemoveFirst(s, s[k]) == s[..k] + s[k + 1..]
  {
    if k > 0 {
      var tail := s[1..];
      assert tail[k - 1] == s[k];
      assert forall j :: 0 <= j < k - 1 ==> tail[j] == s[j + 1];
      RemoveFirstAt(tail, k - 1);
      assert RemoveFirst(s, s[k]) == [s[0]] + RemoveFirst(tail, s[k]);
      assert tail[..k - 1] == s[1..k] && tail[k..] == s[k + 1..];
      assert [s[0]] + s[1..k] == s[..k];
    }
  }

  /** Appending a request that is out of range, or no nearer, keeps the earliest nearest request ahead. */
  lemma NearestExtend(init: seq<Cylinder>, last: Cylinder, head: int, dir: ScanDirection, k: int)
    requires IsNearestAhead(init, head, dir, k)
    requires IsCylinderInRange(last, head, dir) ==> init[k].DistanceFrom(head) <= last.DistanceFrom(head)
    ensures IsNearestAhead(init + [last], head, dir, k)
  {
  }

  /**
   * When the last request is in range and strictly nearer than every earlier in-range
   * request, it is the earliest nearest one ahead.
   */
  lemma NearestAtEnd(init: seq<Cylinder>, last: Cylinder, head: int, dir: ScanDirection)
    requires IsCylinderInRange(last, head, dir)
    requires forall i :: 0 <= i < |Filter(init, Ahead(head, dir), true)| ==>
               Filter(init, Ahead(head, dir), true)[i].DistanceFrom(head) > last.DistanceFrom(head)
    ensures IsNearestAhead(init + [last], head, dir, |init|)
  {
    var s, f' := init + [last], Filter(init, Ahead(head, dir), true);
    FilterMembers(init, Ahead(head, dir), true);
    forall j | 0 <= j < |init| && IsCylinderInRange(s[j], head, dir)
      ensures s[j].DistanceFrom(head) > last.DistanceFrom(head)
    {
      assert s[j] == init[j];
      assert init[j] in f';
      var i :| 0 <= i < |f'| && f'[i] == init[j];
    }
  }

  /**
   * Lifting the nearest-ahead choice from the in-range sublist back to the queue: the
   * first nearest of the filtered list sits at a position of `s` that is the earliest
   * nearest in-range request of `s`.
   */
  lemma {:induction false} NearestLifts(s: seq<Cylinder>, head: int, dir: ScanDirection, b: int) returns (k: int)
    requires IsFirstMin(Distances(Filter(s, Ahead(head, dir), true), head), b)
    ensures 0 <= k < |s| && s[k] == Filter(s, Ahead(head, dir), true)[b]
    ensures IsNearestAhead(s, head, dir, k)
  {
    var t := Ahead(head, dir);
    var init, last := s[..|s| - 1], s[|s| - 1];
    assert s == init + [last];
    var f, f' := Filter(s, t, true), Filter(init, t, true);
    var d, d' := Distances(f, head), Distances(f', head);
    if !Meets(last, t) {
      assert f == f';
      k := NearestLifts(init, head, dir, b);
      NearestExtend(init, last, head, dir, k);
    } else {
      assert f == f' + [last];
      assert d' == d[..|f'|];
      if b < |f'| {
        k := NearestLifts(init, head, dir, b);
        assert d[|f'|] == last.DistanceFrom(head);
        NearestExtend(init, last, head, dir, k);
      } else {
        k := |s| - 1;
        forall i | 0 <= i < |f'| ensures f'[i].DistanceFrom(head) > last.DistanceFrom(head) {
          assert d[i] > d[b];
        }
        NearestAtEnd(init, last, head, dir);
      }
    }
  }

  // ---------------------------------------------------------------------------
  // The selection loops
  // ---------------------------------------------------------------------------

  /**
   * Returning leg: scans the whole queue for the most extreme track in the reversed
   * direction, replacing the candidate only on a strict improvement.
   */
  method ExtremeIndex(s: seq<Cylinder>, reversedDirection: ScanDirection) returns (k: int)
    requires |s| > 0
    ensures reversedDirection == LEFT ==> IsFirstMax(Numbers(s), k)
    ensures reversedDirection == RIGHT ==> IsFirstMin(Numbers(s), k)
  {
    ghost var keys := Numbers(s);
    k := 0;
    for i := 1 to |s|
      invariant 0 <= k < i
      invariant reversedDirection == LEFT ==> forall j :: 0 <= j < i ==> keys[j] <= keys[k]
      invariant reversedDirection == LEFT ==> forall j :: 0 <= j < k ==> keys[j] < keys[k]
      invariant reversedDirection == RIGHT ==> forall j :: 0 <= j < i ==> keys[k] <= keys[j]
      invariant reversedDirection == RIGHT ==> forall j :: 0 <= j < k ==> keys[j] > keys[k]
    {
      var cylinder := s[i];
      if (reversedDirection == LEFT && cylinder.IsNumberGreaterThan(s[k]))
        || (reversedDirection == RIGHT && cylinder.IsNumberLessThan(s[k])) {
        k := i;
      }
    }
  }

  /** Splits the queue into the requests ahead of the head and the rest, keeping their order. */
  method Partition(s: seq<Cylinder>, currentHeadLocation: int, currentScanDirection: ScanDirection)
    returns (cylindersInRange: seq<Cylinder>, cylindersOutRange: seq<Cylinder>)
    ensures cylindersInRange == Filter(s, Ahead(currentHeadLocation, currentScanDirection), true)
    ensures cylindersOutRange == Filter(s, Ahead(currentHeadLocation, currentScanDirection), false)
  {
    var t := Ahead(currentHeadLocation, currentScanDirection);
    cylindersInRange, cylindersOutRange := [], [];
    for i := 0 to |s|
      invariant cylindersInRange == Filter(s[..i], t, true)
      invariant cylindersOutRange == Filter(s[..i], t, false)
    {
      var cylinder := s[i];
      FilterStep(s, i, t, true);
      FilterStep(s, i, t, false);
      if IsCylinderInRange(cylinder, currentHeadLocation, currentScanDirection) {
        cylindersInRange := cylindersInRange + [cylinder];
      } else {
        cylindersOutRange := cylindersOutRange + [cylinder];
      }
    }
    assert s[..|s|] == s;
  }

  /** The earliest request nearest to the head, replacing the candidate only when strictly nearer. */
  method NearestIndex(s: seq<Cylinder>, currentHeadLocation: int) returns (k: int)
    requires |s| > 0
    ensures IsFirstMin(Distances(s, currentHeadLocation), k)
  {
    ghost var keys := Distances(s, currentHeadLocation);
    k := 0;
    for i := 1 to |s|
      invariant 0 <= k < i
      invariant forall j :: 0 <= j < i ==> keys[k] <= keys[j]
      invariant forall j :: 0 <= j < k ==> keys[j] > keys[k]
    {
      var distance := s[i].DistanceFrom(currentHeadLocation);
      var minDistance := s[k].DistanceFrom(currentHeadLocation);
      if distance < minDistance {
        k := i;
      }
    }
  }

  /** The earliest request farthest from the head, replacing the candidate only when strictly farther. */
  method FarthestIndex(s: seq<Cylinder>, currentHeadLocation: int) returns (k: int)
    requires |s| > 0
    ensures IsFirstMax(Distances(s, currentHeadLocation), k)
  {
    ghost var keys := Distances(s, currentHeadLocation);
    k := 0;
    for i := 1 to |s|
      invariant 0 <= k < i
      invariant forall j :: 0 <= j < i ==> keys[j] <= keys[k]
      invariant forall j :: 0 <= j < k ==> keys[j] < keys[k]
    {
      var distance := s[i].DistanceFrom(currentHeadLocation);
      var maxDistance := s[k].DistanceFrom(currentHeadLocation);
      if distance > maxDistance {
        k := i;
      }
    }
  }

  /**
   * The selection step of a non-empty queue, without the removal: the returning leg
   * takes the extreme track in the reversed direction; the scanning leg partitions the
   * queue, takes the nearest request in range, and falls back to the farthest request
   * of the rest when none is in range.
   */
  method SelectNext(s: seq<Cylinder>, currentHeadLocation: int, currentScanDirection: ScanDirection, isHeadOnTheWayBack: bool)
    returns (nextCylinder: Cylinder, ghost k: int)
    requires |s| > 0
    ensures 0 <= k < |s| && nextCylinder == s[k]
    ensures Chosen(s, currentHeadLocation, currentScanDirection, isHeadOnTheWayBack, k)
    ensures nextCylinder in s
    ensures isHeadOnTheWayBack && currentScanDirection.Reverse() == LEFT ==>
              forall j :: 0 <= j < |s| ==> s[j].number <= nextCylinder.number
    ensures isHeadOnTheWayBack && currentScanDirection.Reverse() == RIGHT ==>
              forall j :: 0 <= j < |s| ==> nextCylinder.number <= s[j].number
    ensures !isHeadOnTheWayBack && AnyAhead(s, currentHeadLocation, currentScanDirection) ==>
              && IsCylinderInRange(nextCylinder, currentHeadLocation, currentScanDirection)
              && forall j :: 0 <= j < |s| && IsCylinderInRange(s[j], currentHeadLocation, currentScanDirection) ==>
                   nextCylinder.DistanceFrom(currentHeadLocation) <= s[j].DistanceFrom(currentHeadLocation)
    ensures !isHeadOnTheWayBack && !AnyAhead(s, currentHeadLocation, currentScanDirection) ==>
              forall j :: 0 <= j < |s| ==> s[j].DistanceFrom(currentHeadLocation) <= nextCylinder.DistanceFrom(currentHeadLocation)
  {
    if isHeadOnTheWayBack {
      var reversedDirection := currentScanDirection.Reverse();
      var i := ExtremeIndex(s, reversedDirection);
      nextCylinder, k := s[i], i;
    } else {
      var cylindersInRange, cylindersOutRange := Partition(s, currentHeadLocation, currentScanDirection);
      if cylindersInRange != [] {
        var b := NearestIndex(cylindersInRange, currentHeadLocation);
        nextCylinder := cylindersInRange[b];
        k := NearestLifts(s, currentHeadLocation, currentScanDirection, b);
      } else {
        // The partition is exhaustive: with nothing in range, everything is out of range.
        FilterNonePass(s, Ahead(currentHeadLocation, currentScanDirection));
        FilterMembers(s, Ahead(currentHeadLocation, currentScanDirection), true);
        var b := FarthestIndex(cylindersOutRange, currentHeadLocation);
        nextCylinder, k := cylindersOutRange[b], b;
      }
    }
    ChosenMeaning(s, currentHeadLocation, currentScanDirection, isHeadOnTheWayBack, k);
  }

  // ---------------------------------------------------------------------------
  // The queue
  // ---------------------------------------------------------------------------

  /** Pending requests in insertion order; the order only matters for breaking ties. */
  class CScanQueue {
    var cylinders: seq<Cylinder>

    constructor Create()
      ensures cylinders == []
    {
      cylinders := [];
    }

    method Add(cylinder: Cylinder)
      modifies this
      ensures cylinders == old(cylinders) + [cylinder]
    {
      cylinders := cylinders + [cylinder];
    }

    method AddFront(cylinder: Cylinder)
      modifies this
      ensures cylinders == [cylinder] + old(cylinders)
    {
      cylinders := [cylinder] + cylinders;
    }

    function IsEmpty(): (b: bool)
      reads this
      ensures b <==> |cylinders| == 0
    {
      cylinders == []
    }

    /** A read of the pending requests; as a function it cannot change the queue. */
    function PeekCurrentCylinders(): (s: seq<Cylinder>)
      reads this
      ensures s == cylinders
    {
      cylinders
    }

    /**
     * Selects, removes and returns the next request to serve. An empty queue yields
     * None and stays empty; otherwise the request at the chosen position is returned
     * and removed, and all other requests keep their relative order.
     */
    method GetNextCylinderFrom(currentHeadLocation: int, currentScanDirection: ScanDirection, isHeadOnTheWayBack: bool)
      returns (next: Option<Cylinder>)
      modifies this
      ensures old(cylinders) == [] ==> next == None && cylinders == []
      ensures old(cylinders) != [] ==> next.Some? && |cylinders| == |old(cylinders)| - 1
      ensures old(cylinders) != [] ==>
        exists k :: Chosen(old(cylinders), currentHeadLocation, currentScanDirection, isHeadOnTheWayBack, k)
                 && next.value == old(cylinders)[k]
                 && cylinders == old(cylinders)[..k] + old(cylinders)[k + 1..]
    {
      if IsEmpty() {
        return None;
      }
      var s := cylinders;
      var nextCylinder, k := SelectNext(s, currentHeadLocation, currentScanDirection, isHeadOnTheWayBack);
      ChosenIsFirstOccurrence(s, currentHeadLocation, currentScanDirection, isHeadOnTheWayBack, k);
      RemoveFirstAt(s, k);
      cylinders := RemoveFirst(cylinders, nextCylinder);
      next := Some(nextCylinder);
    }

    /**
     * Removes and returns every request on `cylinderNumber`, in queue order; the queue
     * keeps the others, in queue order. After a removal the index stays put, so the
     * request that slid into its place is examined next.
     */
    method GetSameCylindersFrom(cylinderNumber: int) returns (sameCylinders: seq<Cylinder>)
      modifies this
      ensures sameCylinders == Filter(old(cylinders), OnTrack(cylinderNumber), true)
      ensures cylinders == Filter(old(cylinders), OnTrack(cylinderNumber), false)
    {
      ghost var s := cylinders;
      ghost var done := 0;
      var t := OnTrack(cylinderNumber);
      sameCylinders := [];
      var i := 0;
      while i < |cylinders|
        invariant 0 <= i <= |cylinders|
        invariant 0 <= done <= |s|
        invariant sameCylinders == Filter(s[..done], t, true)
        invariant cylinders == Filter(s[..done], t, false) + s[done..]
        invariant i == |Filter(s[..done], t, false)|
        decreases |cylinders| - i
      {
        ExtractStep(s, done, cylinderNumber, cylinders, i);
        var cylinder := cylinders[i];
        if cylinder.HasSameNumber(cylinderNumber) {
          sameCylinders := sameCylinders + [cylinder];
          cylinders := cylinders[..i] + cylinders[i + 1..];
          i := i - 1;
        }
        i := i + 1;
        done := done + 1;
      }
      assert s[..done] == s;
    }

    /**
     * One tick for every pending request. A reference held at m positions of the queue
     * is bumped m times; nothing is added, removed or reordered.
     */
    method IncreaseWaitingTime()
      modifies set c | c in cylinders
      ensures cylinders == old(cylinders)
      ensures forall c :: c in cylinders ==> c.waitingTime == old(c.waitingTime) + multiset(cylinders)[c]
    {
      for i := 0 to |cylinders|
        invariant forall c :: c in cylinders ==> c.waitingTime == old(c.waitingTime) + multiset(cylinders[..i])[c]
      {
        assert cylinders[..i + 1] == cylinders[..i] + [cylinders[i]];
        cylinders[i].IncreaseWaitingTime();
      }
      assert cylinders[..|cylinders|] == cylinders;
    }
  }
}
