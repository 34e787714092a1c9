/** The stream of points that remains once adjacent duplicates are dropped. Positions count from 1. */
module SyncTraces {
  import opened SyncPoints

  datatype Located = Located(point: Point, position: nat)

  /** A point of a real trace: it has a time stamp and some register that an event context compares. */
  predicate Plausible(p: Point) {
    p.tsc != 0 && (p.gprs != ZERO_GPRS || p.crs != ZERO_CRS)
  }

  ghost predicate PlausibleTrace(pts: seq<Point>) {
    forall p <- pts :: Plausible(p)
  }

  lemma FirstIsPlausible(pts: seq<Point>)
    requires PlausibleTrace(pts) && pts != []
    ensures Plausible(pts[0])
  {
  }

  /** The points still to be delivered after the point at position p was. */
  function Rest(pts: seq<Point>, p: nat): seq<Located>
    requires 1 <= p <= |pts|
    decreases |pts| - p
  {
    if p == |pts| then []
    else if pts[p - 1].Same(pts[p]) then Rest(pts, p + 1)
    else [Located(pts[p], p + 1)] + Rest(pts, p + 1)
  }

  /** The points to be delivered by a reader that holds no point and stands after position p. */
  function From(pts: seq<Point>, p: nat): seq<Located> {
    if |pts| <= p then [] else [Located(pts[p], p + 1)] + Rest(pts, p + 1)
  }

  /** The whole trace without adjacent duplicates. */
  function Dedup(pts: seq<Point>): seq<Located> {
    From(pts, 0)
  }

  /** Position q starts a maximal run of equal records. */
  ghost predicate IsHead(pts: seq<Point>, q: nat)
    requires 1 <= q <= |pts|
  {
    q == 1 || !pts[q - 2].Same(pts[q - 1])
  }

  ghost predicate Ascending(ps: seq<Located>) {
    forall i, j :: 0 <= i < j < |ps| ==> ps[i].position < ps[j].position
  }

  ghost predicate Bounded(pts: seq<Point>, p: nat, ps: seq<Located>) {
    forall l <- ps :: p < l.position <= |pts| && l.point == pts[l.position - 1]
  }

  lemma ConsAscends(l: Located, ps: seq<Located>)
    requires Ascending(ps) && forall m <- ps :: l.position < m.position
    ensures Ascending([l] + ps)
  {
  }

  lemma ConsBounded(pts: seq<Point>, p: nat, ps: seq<Located>)
    requires p < |pts| && Bounded(pts, p + 1, ps)
    ensures Bounded(pts, p, [Located(pts[p], p + 1)] + ps)
    ensures forall m <- ps :: p + 1 < m.position
  {
  }

  lemma {:induction false} RestBounds(pts: seq<Point>, p: nat)
    requires 1 <= p <= |pts|
    ensures Ascending(Rest(pts, p))
    ensures Bounded(pts, p, Rest(pts, p))
    decreases |pts| - p
  {
    hide Point.Same;
    hide Ascending;
    if p < |pts| {
      RestBounds(pts, p + 1);
      ConsBounded(pts, p, Rest(pts, p + 1));
      ConsAscends(Located(pts[p], p + 1), Rest(pts, p + 1));
    } else {
      EmptyAscends();
    }
  }

  lemma EmptyAscends()
    ensures Ascending([])
  {
  }

  /** The remaining points are exactly the heads of runs behind p. */
  lemma {:induction false} RestIsTheHeads(pts: seq<Point>, p: nat)
    requires 1 <= p <= |pts|
    ensures forall q | p < q <= |pts| :: IsHead(pts, q) <==> Located(pts[q - 1], q) in Rest(pts, p)
    decreases |pts| - p
  {
    hide Point.Same;
    if p == |pts| {
    } else {
      RestIsTheHeads(pts, p + 1);
      RestBounds(pts, p + 1);
      forall q | p < q <= |pts| ensures IsHead(pts, q) <==> Located(pts[q - 1], q) in Rest(pts, p) {
        if q == p + 1 {
          assert Located(pts[p], p + 1) !in Rest(pts, p + 1);
        } else {
          assert Located(pts[q - 1], q) != Located(pts[p], p + 1);
        }
      }
    }
  }

  lemma DedupIsTheHeads(pts: seq<Point>)
    ensures Ascending(Dedup(pts))
    ensures forall l <- Dedup(pts) :: 1 <= l.position <= |pts| && l.point == pts[l.position - 1]
    ensures forall q | 1 <= q <= |pts| :: IsHead(pts, q) <==> Located(pts[q - 1], q) in Dedup(pts)
  {
    if pts != [] {
      hide Point.Same;
      RestBounds(pts, 1);
      RestIsTheHeads(pts, 1);
    }
  }

  /** Every skipped record equals the delivered one before it. */
  lemma {:induction false} SkippedEqualsDelivered(pts: seq<Point>, p: nat, q: nat)
    requires 1 <= p <= q <= |pts|
    requires forall r | p < r <= q :: !IsHead(pts, r)
    ensures pts[p - 1].Same(pts[q - 1])
    decreases q - p
  {
    if p == q {
    } else {
      SkippedEqualsDelivered(pts, p, q - 1);
      assert !IsHead(pts, q);
    }
  }

  /** The next point to be delivered, and what remains behind and in front of it. */
  lemma {:induction false} RestFirst(pts: seq<Point>, p: nat)
    requires 1 <= p <= |pts| && Rest(pts, p) != []
    ensures var q := Rest(pts, p)[0].position;
            p < q <= |pts| && Rest(pts, p)[1..] == Rest(pts, q) && Rest(pts, p) == Rest(pts, q - 1)
    decreases |pts| - p
  {
    hide Point.Same;
    if !pts[p - 1].Same(pts[p]) {
    } else {
      RestFirst(pts, p + 1);
    }
  }

  lemma DropTail(ps: seq<Located>, k: nat)
    requires 1 <= k < |ps|
    ensures ps[1..][k - 1] == ps[k] && ps[1..][k - 1..] == ps[k..] && ps[1..][k..] == ps[k + 1..]
  {
  }

  /** Dropping the first k remaining points leaves what remains after, or in front of, the k-th. */
  lemma {:induction false} RestAfter(pts: seq<Point>, p: nat, k: nat)
    requires 1 <= p <= |pts| && k < |Rest(pts, p)|
    ensures var q := Rest(pts, p)[k].position;
            && p < q <= |pts|
            && Rest(pts, p)[k + 1..] == Rest(pts, q)
            && Rest(pts, p)[k..] == Rest(pts, q - 1)
    decreases k
  {
    hide Rest;
    RestFirst(pts, p);
    if k == 0 {
    } else {
      DropTail(Rest(pts, p), k);
      RestAfter(pts, Rest(pts, p)[0].position, k - 1);
    }
  }

  lemma DropCons(l: Located, ps: seq<Located>, k: nat)
    requires k <= |ps|
    ensures ([l] + ps)[k + 1..] == ps[k..]
    ensures k > 0 ==> ([l] + ps)[k] == ps[k - 1] && ([l] + ps)[k..] == ps[k - 1..]
    ensures k == 0 ==> ([l] + ps)[k..] == [l] + ps
  {
  }

  // ---- Lists that are what a reader of the trace still has in front of it

  /** The point at position p and those delivered after it. */
  function AheadOf(pts: seq<Point>, p: nat): seq<Located>
    requires 1 <= p <= |pts|
  {
    [Located(pts[p - 1], p)] + Rest(pts, p)
  }

  ghost predicate InTrace(pts: seq<Point>, ps: seq<Located>) {
    ps != [] ==> 1 <= ps[0].position <= |pts| && ps == AheadOf(pts, ps[0].position)
  }

  lemma {:induction false} RestInTrace(pts: seq<Point>, p: nat)
    requires 1 <= p <= |pts|
    ensures InTrace(pts, Rest(pts, p))
    decreases |pts| - p
  {
    hide Point.Same;
    if p == |pts| || !pts[p - 1].Same(pts[p]) {
    } else {
      RestInTrace(pts, p + 1);
    }
  }

  lemma SuffixInTrace(pts: seq<Point>, ps: seq<Located>, i: nat)
    requires InTrace(pts, ps) && i < |ps|
    ensures 1 <= ps[i].position <= |pts|
    ensures ps[i].point == pts[ps[i].position - 1]
    ensures ps[i..] == AheadOf(pts, ps[i].position)
    ensures ps[i + 1..] == Rest(pts, ps[i].position)
  {
    hide Point.Same;
    var p := ps[0].position;
    DropCons(ps[0], Rest(pts, p), i);
    if i > 0 {
      RestBounds(pts, p);
      RestAfter(pts, p, i - 1);
      assert ps[i] == Rest(pts, p)[i - 1];
      UnconsAt(ps, i);
    }
  }

  lemma UnconsAt(ps: seq<Located>, i: nat)
    requires i < |ps|
    ensures ps[i..] == [ps[i]] + ps[i + 1..]
  {
  }

  lemma AheadAscends(pts: seq<Point>, p: nat)
    requires 1 <= p <= |pts|
    ensures Ascending(AheadOf(pts, p))
  {
    RestBounds(pts, p);
  }
}
