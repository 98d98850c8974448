/** The running minimum and maximum both clients keep over their latencies. */
module Stats {

  /** `min` and `max` as the loops keep them, `start` being the minimum's starting
      value (the largest double, above every latency): with no latency recorded the
      minimum is still `start`; otherwise it is one of the latencies and at most each
      of them. The maximum starts at 0, so it is 0 or a latency, and at least each
      of them. */
  predicate RunningBounds(latencies: seq<int>, start: int, minLat: int, maxLat: int)
  {
    && (|latencies| == 0 ==> minLat == start)
    && (|latencies| > 0 ==> minLat in latencies)
    && (forall l :: l in latencies ==> minLat <= l <= maxLat)
    && maxLat >= 0
    && (maxLat == 0 || maxLat in latencies)
  }

  /** One more latency below the starting minimum keeps the bounds once the minimum
      and maximum are updated by `if (l < min) min = l; if (l > max) max = l;`. */
  lemma BoundsStep(latencies: seq<int>, start: int, minLat: int, maxLat: int, l: int)
    requires RunningBounds(latencies, start, minLat, maxLat) && l < start
    ensures RunningBounds(latencies + [l], start,
                          if l < minLat then l else minLat,
                          if l > maxLat then l else maxLat)
  {
    var ls := latencies + [l];
    assert forall x :: x in ls <==> x in latencies || x == l;
  }
}
