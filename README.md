# C-SCAN disk-scheduling engine

A Dafny model of the selection core of a disk-head scheduling simulator using the
Circular SCAN (C-SCAN) discipline. Each pending request is a `Cylinder`: a track
number, an arrival time and a waiting-time counter. A `CScanQueue` holds the pending
requests in insertion order. Given the head position, the scan direction and whether
the head is on its returning leg, it picks the next request to serve and removes it.
It can also extract every request on one track at once, and it bumps every pending
request's waiting time once per simulated tick.

Layout:

- `directions.dfy`, module `Directions`: `ScanDirection` (`LEFT` is toward lower
  tracks, `RIGHT` toward higher ones) and `Reverse`.
- `cylinders.dfy`, module `Cylinders`: the `Cylinder` class. `number` and
  `arrivalTime` are constants, because the source has getters but no setters for them.
  `waitingTime` is a mutable field. The class also holds the comparison and distance
  helpers and lemmas about them.
- `cscan_queue.dfy`, module `CScanQueues`: the `CScanQueue` class with a
  `seq<Cylinder>` field that its methods reassign. It also holds:
  - the selection loops of `getNextCylinderFrom`, as read-only methods that return an
    index;
  - the reference definition of a selection (`Chosen`);
  - an order-preserving `Filter`;
  - `RemoveFirst`, which models `List.remove(Object)`: it removes the first occurrence
    of a reference.
- `cscan_examples.dfy`, module `CScanExamples`: concrete scenarios stated against
  `Chosen` and `Filter`, and a client of the queue.

How a selection is specified: `Chosen(s, head, dir, back, k)` says that position `k`
of the pending sequence `s` is the one served.
- On the returning leg, it is the first position holding the largest track when
  `Reverse(dir)` is `LEFT`, and the smallest track when it is `RIGHT`.
- On the scanning leg, it is the first position holding the nearest in-range request
  when some request is in range. Otherwise it is the first position holding the
  request farthest from the head.

The running candidate is replaced only on a strict improvement, which is why the
earliest position wins a tie. `ChosenIsUnique` shows the choice is deterministic.
`ChosenIsFirstOccurrence` and `RemoveFirstAt` show that removing the chosen request
by reference removes exactly that position. `GetNextCylinderFrom` is proved to return
`old(cylinders)[k]` for the chosen `k` and to leave `old(cylinders)[..k] +
old(cylinders)[k+1..]`.

The source calls `hasSameNumberAs(int)` at
`src/main/java/link/diskscheduler/domain/queue/CScanQueue.java:120`, but `Cylinder`
declares `hasSameNumber(int)` at
`src/main/java/link/diskscheduler/domain/cylinder/Cylinder.java:26`. Both are read
as `number == n` and modelled by `HasSameNumber`. `ScanDirection` and `Cylinders` are
declared in other files of the program, which are not part of this model; both are
modelled from their uses in the queue. `ScanDirection` is a two-valued type with
`reverse`. `Cylinders` is a plain sequence appended at the back.

## Model

| member | source | states |
|---|---|---|
| `Directions.ScanDirection.Reverse` | src/main/java/link/diskscheduler/domain/queue/CScanQueue.java:52 | the reverse of a direction is the other direction |
| `Directions.ReverseInvolutive` | src/main/java/link/diskscheduler/domain/queue/CScanQueue.java:52 | reversing twice gives back the original direction |
| `Cylinders.Cylinder.From` | src/main/java/link/diskscheduler/domain/cylinder/Cylinder.java:14-20 | a new request copies the track and arrival time and starts with waiting time 0 |
| `Cylinders.Cylinder.SubtractNumber` | src/main/java/link/diskscheduler/domain/cylinder/Cylinder.java:22-24 | the offset added to the given track gives back this track; it is 0 exactly when the tracks are equal |
| `Cylinders.Cylinder.IncreaseWaitingTime` | src/main/java/link/diskscheduler/domain/cylinder/Cylinder.java:34-36 | waiting time rises by exactly 1, so it never decreases; track and arrival time are constants |
| `Cylinders.Cylinder.CompareByArrivalTimeAscending` | src/main/java/link/diskscheduler/domain/cylinder/Cylinder.java:30-40 | negative, zero or positive exactly when this arrival is earlier than, the same as (`hasSameArrivalTime`), or later than the other's |
| `Cylinders.CompareByArrivalTimeAntisymmetric` | src/main/java/link/diskscheduler/domain/cylinder/Cylinder.java:38-40 | swapping the two requests negates the comparison |
| `Cylinders.Cylinder.DistanceFrom` | src/main/java/link/diskscheduler/domain/cylinder/Cylinder.java:42-44 | the distance is never negative, equals the magnitude of `SubtractNumber`, and is 0 exactly when `HasSameNumber` holds |
| `Cylinders.Cylinder.IsNumberGreaterThan` | src/main/java/link/diskscheduler/domain/cylinder/Cylinder.java:46-48 | strictly greater is exactly "not less-or-equal" to the other's track |
| `Cylinders.Cylinder.IsNumberLessThan` | src/main/java/link/diskscheduler/domain/cylinder/Cylinder.java:54-56 | strictly less is exactly "not greater-or-equal" to the other's track |
| `Cylinders.NumberTrichotomy` | src/main/java/link/diskscheduler/domain/cylinder/Cylinder.java:46-56 | greater and less never both hold, and exactly one of greater, less and same track holds |
| `Cylinders.InclusiveComparisonsCover` | src/main/java/link/diskscheduler/domain/cylinder/Cylinder.java:50-60 | at least one of greater-or-equal and less-or-equal holds, and both hold exactly when the track equals the value |
| `CScanQueues.IsCylinderInRange` | src/main/java/link/diskscheduler/domain/queue/CScanQueue.java:110-113 | in range means on or ahead of the head: track at most the head for LEFT, at least the head for RIGHT; a request exactly at the head is always in range |
| `CScanQueues.InRangeOneWayOrTheOther` | src/main/java/link/diskscheduler/domain/queue/CScanQueue.java:110-113 | every request is in range for a direction or for its reverse, and for both exactly when it is at the head |
| `CScanQueues.ChosenMeaning` | src/main/java/link/diskscheduler/domain/queue/CScanQueue.java:49-102 | returning leg: the chosen track is the maximum of all pending tracks when the reversed direction is LEFT and the minimum when RIGHT; scanning leg: the chosen request is in range and no farther than any in-range request, or, with none in range, no nearer than any request |
| `CScanQueues.ChosenIsUnique` | src/main/java/link/diskscheduler/domain/queue/CScanQueue.java:49-102 | strict-improvement tie-breaking makes the chosen position unique, so selection is deterministic |
| `CScanQueues.ChosenIsFirstOccurrence` | src/main/java/link/diskscheduler/domain/queue/CScanQueue.java:46-105 | the chosen request does not occur at any earlier position of the queue |
| `CScanQueues.FilterMembers` | src/main/java/link/diskscheduler/domain/queue/CScanQueue.java:68-74 | a filtered list holds only requests of the queue with the wanted test outcome, and every request of the queue with that outcome |
| `CScanQueues.FilterPartitions` | src/main/java/link/diskscheduler/domain/queue/CScanQueue.java:115-128 | the kept side and the dropped side of a filter together are a permutation of the queue |
| `CScanQueues.FilterNonePass` | src/main/java/link/diskscheduler/domain/queue/CScanQueue.java:91 | the partition is exhaustive: when nothing is in range, the out-of-range list is the whole queue |
| `CScanQueues.RemoveFirst` | src/main/java/link/diskscheduler/domain/queue/CScanQueue.java:105 | removal by reference shortens the queue by one when the reference is present and changes nothing when it is absent |
| `CScanQueues.RemoveFirstAt` | src/main/java/link/diskscheduler/domain/queue/CScanQueue.java:105 | removing a reference by identity equals removing it at its first position, with the rest left in order |
| `CScanQueues.NearestLifts` | src/main/java/link/diskscheduler/domain/queue/CScanQueue.java:65-88 | the first nearest request of the in-range list is, in the whole queue, the earliest in-range request at minimum distance from the head |
| `CScanQueues.ExtremeIndex` | src/main/java/link/diskscheduler/domain/queue/CScanQueue.java:49-61 | returning leg: the first position of the largest track when the reversed direction is LEFT, of the smallest when it is RIGHT |
| `CScanQueues.Partition` | src/main/java/link/diskscheduler/domain/queue/CScanQueue.java:65-74 | the in-range list holds exactly the in-range requests and the out-of-range list exactly the others, each in queue order |
| `CScanQueues.NearestIndex` | src/main/java/link/diskscheduler/domain/queue/CScanQueue.java:77-88 | the first position at minimum distance from the head |
| `CScanQueues.FarthestIndex` | src/main/java/link/diskscheduler/domain/queue/CScanQueue.java:91-102 | the first position at maximum distance from the head |
| `CScanQueues.SelectNext` | src/main/java/link/diskscheduler/domain/queue/CScanQueue.java:46-103 | on a non-empty queue the selected request is in the queue and sits at the position `Chosen` names; it is the extreme track on the returning leg, the nearest in-range request when one exists, and otherwise the farthest request |
| `CScanQueues.CScanQueue.Create` | src/main/java/link/diskscheduler/domain/queue/CScanQueue.java:18-20 | a new queue is empty |
| `CScanQueues.CScanQueue.Add` | src/main/java/link/diskscheduler/domain/queue/CScanQueue.java:23-25 | appends at the back, nothing else changes |
| `CScanQueues.CScanQueue.AddFront` | src/main/java/link/diskscheduler/domain/queue/CScanQueue.java:27-29 | inserts at index 0, nothing else changes |
| `CScanQueues.CScanQueue.IsEmpty` | src/main/java/link/diskscheduler/domain/queue/CScanQueue.java:32-34 | holds exactly when no request is pending |
| `CScanQueues.CScanQueue.PeekCurrentCylinders` | src/main/java/link/diskscheduler/domain/queue/CScanQueue.java:37-39 | returns the pending requests in order, and as a function it cannot change the queue |
| `CScanQueues.CScanQueue.GetNextCylinderFrom` | src/main/java/link/diskscheduler/domain/queue/CScanQueue.java:41-108 | empty queue: `None` and the queue stays empty; otherwise returns the request at the chosen position and removes exactly that position, so the length drops by one and the rest keep their order |
| `CScanQueues.ExtractStep` | src/main/java/link/diskscheduler/domain/queue/CScanQueue.java:118-125 | one pass of the extraction loop: the index points at the next unprocessed request, and removing it (index held back by `i--`) or stepping past it keeps "kept prefix, then unprocessed rest" |
| `CScanQueues.CScanQueue.GetSameCylindersFrom` | src/main/java/link/diskscheduler/domain/queue/CScanQueue.java:115-128 | returns exactly the requests on the track in queue order, and the queue keeps exactly the others in queue order (no request is skipped after a removal) |
| `CScanQueues.CScanQueue.IncreaseWaitingTime` | src/main/java/link/diskscheduler/domain/queue/CScanQueue.java:130-133 | the queue itself is unchanged; each pending request's waiting time rises by the number of positions it holds in the queue, which is 1 for distinct requests |
| `CScanExamples.ScanningServesNearestAhead` | src/main/java/link/diskscheduler/domain/queue/CScanQueue.java:65-88 | head 50 scanning RIGHT over tracks 40, 60, 55, 45 serves 55 and nothing else |
| `CScanExamples.ScanningFallsBackToFarthest` | src/main/java/link/diskscheduler/domain/queue/CScanQueue.java:91-102 | head 50 scanning RIGHT over tracks 10, 20, 30 serves 10, the farthest |
| `CScanExamples.ReturningServesLargestTrack` | src/main/java/link/diskscheduler/domain/queue/CScanQueue.java:49-61 | returning with scan direction RIGHT over tracks 10, 90, 50 serves 90 |
| `CScanExamples.ExtractingOneTrack` | src/main/java/link/diskscheduler/domain/queue/CScanQueue.java:115-128 | extracting track 30 from 30, 30, 45, 30 yields the three 30s in order and leaves the 45 |
| `CScanExamples.AddTickSelect` | src/main/java/link/diskscheduler/domain/queue/CScanQueue.java:23-25 | on any queue with no pending request on the new request's track, adding it, ticking once and selecting on the scanning leg at its own track serves exactly that request; the queue is left as before the addition, the request waited one more unit, and every other request got its tick |
| `CScanExamples.TickRepeatedly` | src/main/java/link/diskscheduler/domain/queue/CScanQueue.java:131-133 | on a queue holding each request at most once, `ticks` successive ticks leave the queue unchanged and add exactly `ticks` to every pending request's waiting time |

## Left out

- Lombok `@Builder`/`@Getter` and the `CylinderDto` argument of `from`: code generation and transport. `From` takes the track and the arrival time directly.
- `toString`: display only.
- The abstract `Queue` base class is not part of this model. The queue operations sit on `CScanQueue` alone.
- `peekCurrentCylinders` returns the internal list itself. Callers that mutate through that alias are not modelled; the read is a function of the sequence.
- Null references: `add(null)` and similar calls cannot be written, since `Cylinder` is a non-null type. The absent result of a selection is `None`.
- The check `nextCylinder == null && !cylindersOutRange.isEmpty()` is modelled as the plain `else` of the in-range test. `FilterNonePass` proves the out-of-range list is then the whole, non-empty queue, so the Java path that would reach `remove(null)` cannot happen.
- `LinkedList` versus `ArrayList`: only sequence behaviour is modelled, not performance.
- The selection loops return an index rather than a running reference. The reference is the element at that index.
- `Cylinders.Cylinder.SubtractNumber`: does not model 32-bit wrap-around of `number - cylinderNumber`; integers are mathematical.
- `Cylinders.Cylinder.DistanceFrom`: does not model 32-bit wrap-around of the subtraction or `Math.abs(Integer.MIN_VALUE)`, which stays negative in Java.
- `Cylinders.Cylinder.CompareByArrivalTimeAscending`: does not model 32-bit wrap-around of `arrivalTime - cylinder.arrivalTime`. In Java, arrival times far enough apart give the wrong sign.
- `Cylinders.Cylinder.IncreaseWaitingTime`: does not model 32-bit wrap-around of the counter. `waitingTime` is a `nat`.
