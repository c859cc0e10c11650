/**
  The nearest-cab choice of a booking and the fare of a finished ride.

  A booking scans the cabs, asks each available one for its shortest distance
  to the pickup, and keeps the best offer so far: nearer wins, and among equally
  near cabs the smaller id wins. The source keeps the best so far in two
  integers that start at the sentinels -1 (no cab) and INT_MAX (no distance);
  `ScanAsWritten` is that fold, `Select` the fold over an optional best that
  the rest of the model uses.
 */
module Selection {
  import opened Wrappers

  /** A cab's bid for a pickup: its id, its distance to the pickup and the path it would drive. */
  datatype Offer = Offer(id: int, dist: nat, path: seq<int>)

  /** `a` is no worse than `b`: nearer, or as near with an id no larger. */
  predicate NotAfter(a: Offer, b: Offer) {
    a.dist < b.dist || (a.dist == b.dist && a.id <= b.id)
  }

  /** The scan's replacement test: nearer, or as near with a smaller id. */
  predicate Beats(a: Offer, b: Offer) {
    a.dist < b.dist || (a.dist == b.dist && a.id < b.id)
  }

  /** One step of the scan: the offer `o` replaces the best so far when there is none or it beats it. */
  function Step(best: Option<Offer>, o: Offer): (r: Option<Offer>)
    ensures r == Some(o) || r == best
    ensures r.Some? && NotAfter(r.value, o)
    ensures best.Some? ==> NotAfter(r.value, best.value)
  {
    if best.None? || Beats(o, best.value) then Some(o) else best
  }

  /** The scan over offers in the order they were made: the least offer by (distance, id). */
  function Select(s: seq<Offer>): (r: Option<Offer>)
    ensures r.None? <==> s == []
    ensures r.Some? ==> r.value in s
    ensures r.Some? ==> forall o :: o in s ==> NotAfter(r.value, o)
  {
    if s == [] then None
    else
      var front := s[..|s| - 1];
      assert s == front + [s[|s| - 1]];
      Step(Select(front), s[|s| - 1])
  }

  /** Two offers each no worse than the other are tied on distance and id. */
  lemma NotAfterAntisymmetric(a: Offer, b: Offer)
    requires NotAfter(a, b) && NotAfter(b, a)
    ensures a.dist == b.dist && a.id == b.id
  {
  }

  /** Offers of distinct cabs: no two positions carry the same id. */
  predicate DistinctIds(s: seq<Offer>) {
    forall i, j :: 0 <= i < |s| && 0 <= j < |s| && s[i].id == s[j].id ==> i == j
  }

  /**
    The winner does not depend on the order in which the cabs are scanned:
    any reordering of offers from distinct cabs selects the same offer.
   */
  lemma SelectOrderFree(s1: seq<Offer>, s2: seq<Offer>)
    requires multiset(s1) == multiset(s2) && DistinctIds(s1)
    ensures Select(s1) == Select(s2)
  {
    if s1 != [] {
      assert s1[0] in multiset(s2);
      var r1, r2 := Select(s1).value, Select(s2).value;
      assert r1 in multiset(s2) && r2 in multiset(s1);
      NotAfterAntisymmetric(r1, r2);
      var i :| 0 <= i < |s1| && s1[i] == r1;
      var j :| 0 <= j < |s1| && s1[j] == r2;
      assert i == j;
    } else {
      assert |s2| == |multiset(s2)| == 0;
    }
  }

  // ---------------------------------------------------------------------------
  // The scan as the source writes it
  // ---------------------------------------------------------------------------

  /** The largest 32-bit signed integer: the source's "no distance yet". */
  const IntMax: int := 2147483647

  /** The scan's variables: best cab id, best distance and best path. */
  datatype Scan = Scan(bestId: int, bestDist: int, bestPath: seq<int>)

  /** The fold with integer sentinels: `bestId` starts at -1 and `bestDist` at INT_MAX. */
  function ScanAsWritten(s: seq<Offer>): Scan {
    if s == [] then Scan(-1, IntMax, [])
    else
      var b, o := ScanAsWritten(s[..|s| - 1]), s[|s| - 1];
      if o.dist < b.bestDist || (o.dist == b.bestDist && o.id < b.bestId)
      then Scan(o.id, o.dist, o.path)
      else b
  }

  /** The source books a cab exactly when its scan ends with a best id other than -1. */
  predicate BooksAsWritten(s: seq<Offer>) {
    ScanAsWritten(s).bestId != -1
  }

  /**
    While every distance stays below INT_MAX the sentinel fold tracks the
    optional one step for step: no offer gives the sentinels, otherwise they
    hold the selected offer.
   */
  lemma {:induction false} ScanAsWrittenTracksSelect(s: seq<Offer>)
    requires forall o :: o in s ==> o.dist < IntMax
    ensures Select(s).None? ==> ScanAsWritten(s) == Scan(-1, IntMax, [])
    ensures Select(s).Some? ==>
      ScanAsWritten(s) == Scan(Select(s).value.id, Select(s).value.dist, Select(s).value.path)
  {
    if s != [] {
      var p := s[..|s| - 1];
      assert forall o :: o in p ==> o in s;
      ScanAsWrittenTracksSelect(p);
    }
  }

  /**
    The source books a cab exactly when some cab made an offer and the winner's
    id is not -1: a winning cab with id -1 is mistaken for "no cab".
   */
  lemma BooksAsWrittenExactly(s: seq<Offer>)
    requires forall o :: o in s ==> o.dist < IntMax
    ensures BooksAsWritten(s) <==> Select(s).Some? && Select(s).value.id != -1
  {
    ScanAsWrittenTracksSelect(s);
  }

  /** A concrete case: the only cab, id -1 at distance 3, wins the scan yet the pickup is queued. */
  lemma MinusOneCabIsQueued()
    ensures Select([Offer(-1, 3, [4, 5, 6])]).Some?
    ensures !BooksAsWritten([Offer(-1, 3, [4, 5, 6])])
  {
    BooksAsWrittenExactly([Offer(-1, 3, [4, 5, 6])]);
  }

  // ---------------------------------------------------------------------------
  // Fare
  // ---------------------------------------------------------------------------

  /** Fare of a ride over `dist` distance units: ten per unit, never negative. */
  function Fare(dist: int): (f: int)
    ensures f >= 0 && f % 10 == 0
    ensures dist >= 0 ==> f / 10 == dist
    ensures dist <= 0 ==> f == 0
  {
    if dist * 10 > 0 then dist * 10 else 0
  }
}
