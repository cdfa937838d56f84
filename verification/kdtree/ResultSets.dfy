// The two result sets a search can fill: the k nearest points and the points within a radius.
module ResultSets {
  import opened Sequences

  datatype Item = Item(dist: real, index: nat)

  // What a result set keeps: the best `capacity` points below `limit`, or all points below `limit`.
  datatype Policy = Nearest(capacity: nat, limit: real) | Within(limit: real)

  ghost predicate Sorted(s: seq<Item>) {
    forall i, j :: 0 <= i < j < |s| ==> s[i].dist <= s[j].dist
  }

  ghost predicate Distinct(s: seq<Item>) {
    forall i, j :: 0 <= i < j < |s| ==> s[i].index != s[j].index
  }

  ghost function Indices(s: seq<Item>): set<nat> {
    set i | 0 <= i < |s| :: s[i].index
  }

  // Sorted insertion behind equal distances.
  function Insert(s: seq<Item>, x: Item): (r: seq<Item>)
    ensures |r| == |s| + 1
  {
    if s == [] || s[|s| - 1].dist <= x.dist then s + [x]
    else Insert(s[..|s| - 1], x) + [s[|s| - 1]]
  }

  function Truncate(s: seq<Item>, n: nat): (r: seq<Item>) {
    if |s| <= n then s else s[..n]
  }

  // The contents after one point is offered.
  function Offer(p: Policy, s: seq<Item>, x: Item): seq<Item> {
    match p
    case Nearest(capacity, _) => Truncate(Insert(s, x), capacity)
    case Within(radius) => if x.dist < radius then s + [x] else s
  }

  // The distance from which on points are of no interest.
  function WorstOf(p: Policy, s: seq<Item>): real {
    match p
    case Nearest(capacity, limit) => if 0 < capacity <= |s| then s[capacity - 1].dist else limit
    case Within(radius) => radius
  }

  // What every offer keeps about the contents.
  ghost predicate Consistent(p: Policy, s: seq<Item>) {
    match p
    case Nearest(capacity, limit) =>
      0 < capacity && |s| <= capacity && Sorted(s) && forall i :: 0 <= i < |s| ==> s[i].dist < limit
    case Within(radius) => forall i :: 0 <= i < |s| ==> s[i].dist < radius
  }

  // ----- Properties of sorted insertion

  lemma {:induction false} InsertSplits(s: seq<Item>, x: Item, p: nat)
    requires p <= |s|
    requires p == 0 || s[p - 1].dist <= x.dist
    requires forall j :: p <= j < |s| ==> s[j].dist > x.dist
    ensures Insert(s, x) == s[..p] + [x] + s[p..]
  {
    if p < |s| {
      var t := s[..|s| - 1];
      InsertSplits(t, x, p);
      assert t[..p] == s[..p] && s[p..] == t[p..] + [s[|s| - 1]];
    }
  }

  // The place where x goes into a sorted list.
  lemma {:induction false} InsertPlace(s: seq<Item>, x: Item) returns (p: nat)
    requires Sorted(s)
    ensures p <= |s|
    ensures forall j :: 0 <= j < p ==> s[j].dist <= x.dist
    ensures forall j :: p <= j < |s| ==> s[j].dist > x.dist
    ensures Insert(s, x) == s[..p] + [x] + s[p..]
  {
    p := |s|;
    while p > 0 && s[p - 1].dist > x.dist
      invariant p <= |s|
      invariant forall j :: p <= j < |s| ==> s[j].dist > x.dist
    {
      p := p - 1;
    }
    InsertSplits(s, x, p);
  }

  // Sorted insertion entry by entry.
  lemma InsertAt(s: seq<Item>, x: Item) returns (p: nat)
    requires Sorted(s)
    ensures p <= |s|
    ensures forall j :: 0 <= j < p ==> Insert(s, x)[j] == s[j] && s[j].dist <= x.dist
    ensures Insert(s, x)[p] == x
    ensures forall j :: p < j <= |s| ==> Insert(s, x)[j] == s[j - 1] && s[j - 1].dist > x.dist
  {
    p := InsertPlace(s, x);
  }

  lemma InsertSorted(s: seq<Item>, x: Item)
    requires Sorted(s)
    ensures Sorted(Insert(s, x))
  {
    var p := InsertAt(s, x);
  }

  lemma InsertDistinct(s: seq<Item>, x: Item)
    requires Sorted(s) && Distinct(s) && x.index !in Indices(s)
    ensures Distinct(Insert(s, x))
  {
    var p := InsertAt(s, x);
  }

  // A bounded insertion into a full list drops the last entry.
  lemma TruncatedInsert(capacity: nat, s: seq<Item>, x: Item)
    requires 0 < capacity && |s| <= capacity && Sorted(s)
    ensures var r := Truncate(Insert(s, x), capacity);
      && Sorted(r)
      && (Distinct(s) && x.index !in Indices(s) ==> Distinct(r))
      && (|s| < capacity ==> r == Insert(s, x))
      && (|s| == capacity ==> exists last: Item :: Insert(s, x) == r + [last] && r[capacity - 1].dist <= last.dist)
  {
    InsertSorted(s, x);
    if Distinct(s) && x.index !in Indices(s) {
      InsertDistinct(s, x);
    }
    var t := Insert(s, x);
    if |s| == capacity {
      assert t == t[..capacity] + [t[capacity]];
    }
  }

  lemma InsertMembers(s: seq<Item>, x: Item)
    requires Sorted(s)
    ensures multiset(Insert(s, x)) == multiset(s) + multiset{x}
  {
    hide Insert;
    var p := InsertPlace(s, x);
    MultisetInsert(s, x, p);
  }

  // What an offer does to the membership, the order and the worst distance.
  ghost predicate OfferGuarantee(p: Policy, s: seq<Item>, x: Item, r: seq<Item>) {
    && Consistent(p, r) && Distinct(r)
    && WorstOf(p, r) <= WorstOf(p, s)
    && (forall y :: y in r ==> y in s || y == x)
    && (forall y :: (y in s || y == x) && y !in r ==> WorstOf(p, r) <= y.dist)
  }

  lemma NearestStep(capacity: nat, limit: real, s: seq<Item>, x: Item)
    requires Consistent(Nearest(capacity, limit), s) && x.dist < limit
    requires Distinct(s) && x.index !in Indices(s)
    ensures OfferGuarantee(Nearest(capacity, limit), s, x, Truncate(Insert(s, x), capacity))
  {
    var p, r := Nearest(capacity, limit), Truncate(Insert(s, x), capacity);
    TruncatedInsert(capacity, s, x);
    assert Consistent(p, r) && (forall y :: y in r ==> y in s || y == x) by {
      NearestMembers(capacity, s, x);
    }
    if |s| == capacity {
      FullInsertLowersWorst(capacity, s, x);
      assert WorstOf(p, r) == Insert(s, x)[capacity - 1].dist;
    }
    forall y | (y in s || y == x) && y !in r ensures WorstOf(p, r) <= y.dist {
      NearestMembers(capacity, s, x);
    }
  }

  lemma NearestMembers(capacity: nat, s: seq<Item>, x: Item)
    requires 0 < capacity && |s| <= capacity && Sorted(s)
    ensures var r := Truncate(Insert(s, x), capacity);
      && (forall y :: y in r ==> y in s || y == x)
      && (forall y :: (y in s || y == x) && y !in r ==> |r| == capacity && r[capacity - 1].dist <= y.dist)
  {
    var t := Insert(s, x);
    var r := Truncate(t, capacity);
    InsertMembers(s, x);
    TruncatedInsert(capacity, s, x);
    forall y | y in r ensures y in s || y == x {
      assert y in multiset(t);
    }
    forall y | (y in s || y == x) && y !in r ensures |r| == capacity && r[capacity - 1].dist <= y.dist {
      assert y in multiset(t);
      assert |s| == capacity;
      var last: Item :| t == r + [last] && r[capacity - 1].dist <= last.dist;
    }
  }

  lemma FullInsertLowersWorst(capacity: nat, s: seq<Item>, x: Item)
    requires 0 < capacity == |s| && Sorted(s)
    ensures Insert(s, x)[capacity - 1].dist <= s[capacity - 1].dist
  {
    var p := InsertPlace(s, x);
    InsertSorted(s, x);
    assert Insert(s, x)[capacity] == if p == capacity then x else s[capacity - 1];
    assert p == capacity ==> Insert(s, x)[capacity - 1] == s[capacity - 1];
  }

  // An offer keeps the contents consistent, never raises the worst distance, and drops only points
  // that are at least as far as the new worst distance.
  lemma OfferStep(p: Policy, s: seq<Item>, x: Item)
    requires Consistent(p, s) && x.dist < p.limit
    requires Distinct(s) && x.index !in Indices(s)
    ensures OfferGuarantee(p, s, x, Offer(p, s, x))
  {
    match p
    case Nearest(capacity, limit) => NearestStep(capacity, limit, s, x);
    case Within(radius) =>
  }

  // Bounded insertion entry by entry, for an insertion place p.
  lemma OfferAt(capacity: nat, limit: real, s: seq<Item>, x: Item, p: nat)
    requires |s| <= capacity && p <= |s|
    requires p == 0 || s[p - 1].dist <= x.dist
    requires forall j :: p <= j < |s| ==> s[j].dist > x.dist
    ensures var r := Offer(Nearest(capacity, limit), s, x);
      && |r| == (if |s| < capacity then |s| + 1 else |s|)
      && (forall j :: 0 <= j < p && j < |r| ==> r[j] == s[j])
      && (p < |r| ==> r[p] == x)
      && (forall j :: p < j < |r| ==> r[j] == s[j - 1])
  {
    InsertSplits(s, x, p);
  }

  // ----- Buffers

  // The first slots of two buffers hold the entries; the last slot holds the limit until the buffers are full.
  ghost predicate Held(items: seq<Item>, dists: seq<real>, indices: seq<nat>, capacity: nat, limit: real) {
    && |items| <= capacity <= |dists| && capacity <= |indices|
    && (|items| < capacity ==> dists[capacity - 1] == limit)
    && (forall j :: 0 <= j < |items| ==> dists[j] == items[j].dist && indices[j] == items[j].index)
  }

  // Two buffers while the entries from i on, which are farther than dist, have moved one slot up.
  ghost predicate Shifted(items: seq<Item>, dists: seq<real>, indices: seq<nat>, capacity: nat, limit: real,
                          dist: real, i: nat)
  {
    && i <= |items| <= capacity <= |dists| && capacity <= |indices|
    && (|items| + 1 < capacity ==> dists[capacity - 1] == limit)
    && (forall j :: 0 <= j < i ==> dists[j] == items[j].dist && indices[j] == items[j].index)
    && (forall j :: i < j <= |items| && j < capacity ==> dists[j] == items[j - 1].dist && indices[j] == items[j - 1].index)
    && (forall j :: i <= j < |items| ==> items[j].dist > dist)
  }

  lemma NothingShifted(items: seq<Item>, dists: seq<real>, indices: seq<nat>, capacity: nat, limit: real, dist: real)
    requires Held(items, dists, indices, capacity, limit)
    ensures |items| > 0 ==> dists[|items| - 1] == items[|items| - 1].dist
    ensures Shifted(items, dists, indices, capacity, limit, dist, |items|)
  {
  }

  // One more entry moves; the last one of full buffers is dropped.
  lemma ShiftOne(items: seq<Item>, dists: seq<real>, indices: seq<nat>, capacity: nat, limit: real, dist: real, i: nat)
    requires Shifted(items, dists, indices, capacity, limit, dist, i) && 0 < i && dists[i - 1] > dist
    ensures i > 1 ==> dists[i - 2] == items[i - 2].dist
    ensures if i < capacity
            then Shifted(items, dists[i := dists[i - 1]], indices[i := indices[i - 1]], capacity, limit, dist, i - 1)
            else Shifted(items, dists, indices, capacity, limit, dist, i - 1)
  {
  }

  // The new entry takes the slot that has become free; behind full buffers there is none.
  lemma PutInSlot(items: seq<Item>, dists: seq<real>, indices: seq<nat>, capacity: nat, limit: real, x: Item, i: nat)
    requires 0 < capacity && Shifted(items, dists, indices, capacity, limit, x.dist, i)
    requires i == 0 || items[i - 1].dist <= x.dist
    ensures var all := Offer(Nearest(capacity, limit), items, x);
      && |all| == (if |items| < capacity then |items| + 1 else |items|)
      && if i < capacity then Held(all, dists[i := x.dist], indices[i := x.index], capacity, limit)
         else Held(all, dists, indices, capacity, limit)
  {
    OfferAt(capacity, limit, items, x, i);
    hide Offer;
  }

  // ----- The classes

  class KNNResultSet {
    var indices: array<nat>
    var dists: array<real>
    var capacity: nat
    var count: nat
    const maxDist: real  // the largest value of the distance type
    ghost var items: seq<Item>  // the entries found so far

    ghost predicate Valid()
      reads this, indices, dists
    {
      && Stored()
      && Consistent(Nearest(capacity, maxDist), items)
    }

    // The buffers hold the entries.
    ghost predicate Stored()
      reads this, indices, dists
    {
      0 < capacity && |items| == count && Held(items, dists[..], indices[..], capacity, maxDist)
    }

    // The constructor and init together: the caller's buffers become the storage.
    constructor (capacity: nat, indices: array<nat>, dists: array<real>, maxDist: real)
      requires 0 < capacity <= indices.Length && capacity <= dists.Length
      modifies dists
      ensures Valid() && items == [] && this.capacity == capacity && this.maxDist == maxDist
      ensures this.indices == indices && this.dists == dists
    {
      this.capacity, this.count := capacity, 0;
      this.indices, this.dists, this.maxDist := indices, dists, maxDist;
      this.items := [];
      new;
      dists[capacity - 1] := maxDist;
    }

    // The loop of addPoint: moves every farther entry one slot up, dropping what leaves the buffers.
    method MakeRoom(dist: real) returns (i: nat)
      requires Stored()
      modifies indices, dists
      ensures i <= count && (i == 0 || items[i - 1].dist <= dist)
      ensures Shifted(items, dists[..], indices[..], capacity, maxDist, dist, i)
    {
      hide Held, Shifted;
      NothingShifted(items, dists[..], indices[..], capacity, maxDist, dist);
      SlotsThere(items, dists[..], indices[..], capacity, maxDist, dist, count);
      i := count;
      while i > 0 && dists[i - 1] > dist
        invariant 0 <= i <= count && Shifted(items, dists[..], indices[..], capacity, maxDist, dist, i)
        invariant i > 0 ==> i <= dists.Length && dists[i - 1] == items[i - 1].dist
      {
        ghost var d, x := dists[..], indices[..];
        ShiftOne(items, d, x, capacity, maxDist, dist, i);
        if i < capacity {
          dists[i] := dists[i - 1];
          indices[i] := indices[i - 1];
          assert dists[..] == d[i := d[i - 1]] && indices[..] == x[i := x[i - 1]];
        }
        i := i - 1;
      }
    }

    method AddPoint(dist: real, index: nat)
      requires Stored()
      modifies indices, dists, this`count, this`items
      ensures Stored()
      ensures items == Offer(Nearest(capacity, maxDist), old(items), Item(dist, index))
    {
      hide Offer, Held, Shifted;
      var i := MakeRoom(dist);
      ghost var d, x, all := dists[..], indices[..], Offer(Nearest(capacity, maxDist), items, Item(dist, index));
      PutInSlot(items, d, x, capacity, maxDist, Item(dist, index), i);
      SlotsThere(items, d, x, capacity, maxDist, dist, i);
      if i < capacity {
        dists[i] := dist;
        indices[i] := index;
        assert dists[..] == d[i := dist] && indices[..] == x[i := index];
      }
      if count < capacity {
        count := count + 1;
      }
      items := all;
    }

    lemma SlotsThere(items: seq<Item>, d: seq<real>, x: seq<nat>, capacity: nat, limit: real, dist: real, i: nat)
      requires Shifted(items, d, x, capacity, limit, dist, i)
      ensures i <= |items| <= capacity <= |d| && capacity <= |x|
    {
    }

    method WorstDist() returns (d: real)
      requires Valid()
      ensures d == WorstOf(Nearest(capacity, maxDist), items)
    {
      d := dists[capacity - 1];
    }

    method Full() returns (b: bool)
      requires Valid()
      ensures b <==> |items| == capacity
    {
      b := count == capacity;
    }
  }

  class RadiusResultSet {
    const radius: real
    var found: seq<Item>

    constructor (radius: real)
      ensures this.radius == radius && found == []
    {
      this.radius := radius;
      this.found := [];
    }

    method AddPoint(dist: real, index: nat)
      modifies this`found
      ensures found == Offer(Within(radius), old(found), Item(dist, index))
    {
      if dist < radius {
        found := found + [Item(dist, index)];
      }
    }
  }

  // The RESULTSET template parameter of a search.
  datatype ResultSet = Knn(knn: KNNResultSet) | Radius(rad: RadiusResultSet) {

    ghost function Repr(): set<object>
      reads if Knn? then {knn as object} else {}
    {
      match this
      case Knn(k) => {k, k.indices, k.dists}
      case Radius(r) => {r}
    }

    ghost predicate Valid()
      reads Objects(), Repr()
    {
      match this
      case Knn(k) => k.Valid()
      case Radius(r) => Consistent(Within(r.radius), r.found)
    }

    ghost function Objects(): set<object> {
      match this
      case Knn(k) => {k}
      case Radius(r) => {r}
    }

    ghost function Policy(): Policy
      reads Objects()
    {
      match this
      case Knn(k) => Nearest(k.capacity, k.maxDist)
      case Radius(r) => Within(r.radius)
    }

    ghost function Items(): seq<Item>
      reads Objects()
    {
      match this
      case Knn(k) => k.items
      case Radius(r) => r.found
    }

    method AddPoint(dist: real, index: nat)
      requires Valid() && dist < Policy().limit
      requires Distinct(Items()) && index !in Indices(Items())
      modifies Repr()
      ensures Valid() && Repr() == old(Repr()) && Policy() == old(Policy())
      ensures Items() == Offer(Policy(), old(Items()), Item(dist, index))
    {
      ghost var p, s := Policy(), Items();
      OfferStep(p, s, Item(dist, index));
      match this
      case Knn(k) =>
        k.AddPoint(dist, index);
      case Radius(r) =>
        r.AddPoint(dist, index);
    }

    method WorstDist() returns (d: real)
      requires Valid()
      ensures d == WorstOf(Policy(), Items())
    {
      match this
      case Knn(k) =>
        d := k.WorstDist();
      case Radius(r) =>
        d := r.radius;
    }

    method Full() returns (b: bool)
      requires Valid()
      ensures b <==> Policy().Nearest? ==> |Items()| == Policy().capacity
    {
      match this
      case Knn(k) =>
        b := k.Full();
      case Radius(r) =>
        b := true;
    }
  }
}
