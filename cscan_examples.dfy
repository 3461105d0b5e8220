/** Worked scenarios of the C-SCAN engine, stated against its specification. */
module CScanExamples {
  import opened Directions
  import opened Cylinders
  import opened CScanQueues

  /** Scanning RIGHT from track 50 over tracks 40, 60, 55, 45: 60 and 55 are ahead, 55 is nearer. */
  lemma ScanningServesNearestAhead(s: seq<Cylinder>)
    requires |s| == 4
    requires s[0].number == 40 && s[1].number == 60 && s[2].number == 55 && s[3].number == 45
    ensures forall k :: Chosen(s, 50, RIGHT, false, k) <==> k == 2
  {
    assert IsCylinderInRange(s[1], 50, RIGHT);
    assert IsNearestAhead(s, 50, RIGHT, 2);
    forall k | Chosen(s, 50, RIGHT, false, k) ensures k == 2 {
      ChosenIsUnique(s, 50, RIGHT, false, k, 2);
    }
  }

  /** Scanning RIGHT from track 50 over tracks 10, 20, 30: nothing is ahead, so the farthest (10) is served. */
  lemma ScanningFallsBackToFarthest(s: seq<Cylinder>)
    requires |s| == 3
    requires s[0].number == 10 && s[1].number == 20 && s[2].number == 30
    ensures forall k :: Chosen(s, 50, RIGHT, false, k) <==> k == 0
  {
    assert !AnyAhead(s, 50, RIGHT);
    assert Distances(s, 50) == [40, 30, 20];
    forall k | Chosen(s, 50, RIGHT, false, k) ensures k == 0 {
      ChosenIsUnique(s, 50, RIGHT, false, k, 0);
    }
  }

  /** Returning while the scan direction is RIGHT travels LEFT, so the largest track (90) is served. */
  lemma ReturningServesLargestTrack(s: seq<Cylinder>, head: int)
    requires |s| == 3
    requires s[0].number == 10 && s[1].number == 90 && s[2].number == 50
    ensures forall k :: Chosen(s, head, RIGHT, true, k) <==> k == 1
  {
    assert Numbers(s) == [10, 90, 50];
    forall k | Chosen(s, head, RIGHT, true, k) ensures k == 1 {
      ChosenIsUnique(s, head, RIGHT, true, k, 1);
    }
  }

  /** Extracting track 30 from tracks 30, 30, 45, 30 yields the three 30s in order and leaves the 45. */
  lemma ExtractingOneTrack(s: seq<Cylinder>)
    requires |s| == 4
    requires s[0].number == 30 && s[1].number == 30 && s[2].number == 45 && s[3].number == 30
    ensures Filter(s, OnTrack(30), true) == [s[0], s[1], s[3]]
    ensures Filter(s, OnTrack(30), false) == [s[2]]
  {
    var t := OnTrack(30);
    var s1, s2, s3 := s[..1], s[..2], s[..3];
    assert s1[..0] == [] && s2[..1] == s1 && s3[..2] == s2 && s[..3] == s3;
    assert Filter(s1, t, true) == [s[0]] && Filter(s1, t, false) == [];
    assert Filter(s2, t, true) == [s[0], s[1]] && Filter(s2, t, false) == [];
    assert Filter(s3, t, true) == [s[0], s[1]] && Filter(s3, t, false) == [s[2]];
  }

  /**
   * A request added to a queue in which no other request is on its track, left waiting
   * for one tick and then selected on the scanning leg at its own track, is the one
   * served; the queue is left as it was before the addition, and the tick reaches every
   * pending request.
   */
  method AddTickSelect(q: CScanQueue, cylinder: Cylinder, dir: ScanDirection) returns (r: Option<Cylinder>)
    requires forall j :: 0 <= j < |q.cylinders| ==> q.cylinders[j].number != cylinder.number
    modifies q, q.cylinders, cylinder
    ensures r == Some(cylinder)
    ensures q.cylinders == old(q.cylinders)
    ensures cylinder.waitingTime == old(cylinder.waitingTime) + 1
    ensures forall c :: c in q.cylinders ==> c.waitingTime == old(c.waitingTime) + multiset(q.cylinders)[c]
  {
    ghost var before := q.cylinders;
    assert cylinder !in before;
    q.Add(cylinder);
    ghost var s := q.cylinders;
    assert s == before + [cylinder];
    assert multiset(s)[cylinder] == 1;
    forall c | c in before ensures multiset(s)[c] == multiset(before)[c] {
      assert c != cylinder;
    }
    q.IncreaseWaitingTime();
    assert IsNearestAhead(s, cylinder.number, dir, |before|);
    r := q.GetNextCylinderFrom(cylinder.number, dir, false);
    ghost var k :| Chosen(s, cylinder.number, dir, false, k) && r.value == s[k]
      && q.cylinders == s[..k] + s[k+1..];
    ChosenIsUnique(s, cylinder.number, dir, false, k, |before|);
    assert q.cylinders == before;
  }

  /** A request that occurs once in a list is counted once by the list's multiset. */
  lemma {:induction false} DistinctCountsOnce(s: seq<Cylinder>, c: Cylinder)
    requires forall i, j :: 0 <= i < j < |s| ==> s[i] != s[j]
    requires c in s
    ensures multiset(s)[c] == 1
  {
    var last := s[|s| - 1];
    var init := s[..|s| - 1];
    assert s == init + [last];
    if c == last {
      assert c !in init by {
        forall i | 0 <= i < |init| ensures init[i] != c {
          assert init[i] == s[i];
        }
      }
    } else {
      assert c in init;
      DistinctCountsOnce(init, c);
    }
  }

  /**
   * On a queue holding each request at most once, `ticks` rounds of waiting add exactly
   * `ticks` to every pending request and leave the queue itself unchanged.
   */
  method TickRepeatedly(q: CScanQueue, ticks: nat)
    requires forall i, j :: 0 <= i < j < |q.cylinders| ==> q.cylinders[i] != q.cylinders[j]
    modifies q.cylinders
    ensures q.cylinders == old(q.cylinders)
    ensures forall c :: c in q.cylinders ==> c.waitingTime == old(c.waitingTime) + ticks
  {
    var n := 0;
    while n < ticks
      invariant 0 <= n <= ticks
      invariant q.cylinders == old(q.cylinders)
      invariant forall c :: c in q.cylinders ==> c.waitingTime == old(c.waitingTime) + n
    {
      forall c | c in q.cylinders ensures multiset(q.cylinders)[c] == 1 {
        DistinctCountsOnce(q.cylinders, c);
      }
      q.IncreaseWaitingTime();
      n := n + 1;
    }
  }
}
