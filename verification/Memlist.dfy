/** The region lists of the test framework (memlist.c): doubly linked, recycled through a
    pool, searched with early exits. */
module Memlist {
  import opened Spans

  class MemRegion {
    var start: nat
    var end: nat
    var data: nat
    var next: MemRegion?
    var prev: MemRegion?

    constructor ()
      ensures next == null && prev == null
    {
      start, end, data, next, prev := 0, 0, 0, null, null;
    }

    function ToSpan(): Span
      reads this`start, this`end, this`data
    {
      Span(start, end, data)
    }
  }

  function At(ns: seq<MemRegion>, i: int): MemRegion? {
    if 0 <= i < |ns| then ns[i] else null
  }

  function SpansOf(ns: seq<MemRegion>): (rs: seq<Span>)
    reads ns
    ensures |rs| == |ns|
    ensures forall i | 0 <= i < |ns| :: rs[i] == ns[i].ToSpan()
  {
    seq(|ns|, i requires 0 <= i < |ns| reads ns => ns[i].ToSpan())
  }

  predicate RegionsOverlap(a: MemRegion, b: MemRegion)
    reads a, b
  {
    !(a.end <= b.start || a.start >= b.end)
  }

  datatype AddResult =
    | Added(region: MemRegion)
    | Invalid            // start >= end
    | Overlapping        // the new region meets an existing one
    | Unreachable        // the end of the search

  /** The list after inserting `r` at position `p`. */
  function InsertAt<T>(s: seq<T>, p: nat, r: T): (t: seq<T>)
    requires p <= |s|
    ensures |t| == |s| + 1 && t[p] == r
    ensures forall i | 0 <= i < |t| && i != p :: t[i] == s[if i < p then i else i - 1]
  {
    s[..p] + [r] + s[p..]
  }

  ghost predicate Distinct(ns: seq<MemRegion>) {
    forall i, j | 0 <= i < j < |ns| :: ns[i] != ns[j]
  }

  lemma InsertDistinct(ns: seq<MemRegion>, p: nat, x: MemRegion)
    requires p <= |ns| && Distinct(ns) && x !in ns
    ensures Distinct(InsertAt(ns, p, x))
  {
  }

  class RegionList {
    var head: MemRegion?
    var tail: MemRegion?
    ghost var Nodes: seq<MemRegion>
    ghost var Repr: set<MemRegion>

    constructor ()
      ensures Valid() && Nodes == [] && Repr == {}
    {
      head, tail, Nodes, Repr := null, null, [], {};
    }

    /** Both directions of the links visit exactly `Nodes`. */
    ghost predicate Valid()
      reads this, Repr
    {
      && Distinct(Nodes) && (forall i | 0 <= i < |Nodes| :: Nodes[i] in Repr)
      && (Nodes == [] ==> head == null && tail == null)
      && (Nodes != [] ==>
            && head == Nodes[0] && tail == Nodes[|Nodes| - 1]
            && head.prev == null && tail.next == null)
      && (forall i {:trigger Nodes[i].next} | 0 <= i < |Nodes| - 1 :: Nodes[i].next == Nodes[i + 1])
      && (forall i {:trigger Nodes[i].prev} | 0 < i < |Nodes| :: Nodes[i].prev == Nodes[i - 1])
    }

    ghost function Contents(): seq<Span>
      requires Valid()
      reads this, Repr
    {
      SpansOf(Nodes)
    }

    /** As written, with the exit test that stops at a region entirely before the new one.
        What it returns on a hit is its own argument. */
    method FindOverlap(region: MemRegion) returns (found: MemRegion?)
      requires Valid()
      ensures found == null || found == region
      ensures found != null <==> Spans.FindOverlap(Contents(), region.ToSpan())
    {
      if head == null || region.end <= head.start || region.start >= tail.end {
        return null;
      }
      var tmp := head;
      ghost var i := 0;
      while tmp != null
        invariant 0 <= i <= |Nodes| && tmp == (if i < |Nodes| then Nodes[i] else null)
        invariant Walk(Contents()[i..], region.ToSpan()) == Walk(Contents(), region.ToSpan())
        decreases |Nodes| - i
      {
        assert Contents()[i..][0] == tmp.ToSpan() && Contents()[i..][1..] == Contents()[i + 1..];
        if RegionsOverlap(tmp, region) {
          return region;
        }
        if tmp.end <= region.start {
          return null;
        }
        tmp := tmp.next;
        i := i + 1;
      }
      return null;
    }

    /** The same walk with the exit test in its intended direction. */
    method FindOverlapIntended(region: MemRegion) returns (found: MemRegion?)
      requires Valid()
      ensures found == null || found == region
      ensures found != null <==> Spans.FindOverlapIntended(Contents(), region.ToSpan())
    {
      if head == null || region.end <= head.start || region.start >= tail.end {
        return null;
      }
      var tmp := head;
      ghost var i := 0;
      while tmp != null
        invariant 0 <= i <= |Nodes| && tmp == (if i < |Nodes| then Nodes[i] else null)
        invariant WalkIntended(Contents()[i..], region.ToSpan()) == WalkIntended(Contents(), region.ToSpan())
        decreases |Nodes| - i
      {
        assert Contents()[i..][0] == tmp.ToSpan() && Contents()[i..][1..] == Contents()[i + 1..];
        if RegionsOverlap(tmp, region) {
          return region;
        }
        if tmp.start >= region.end {
          return null;
        }
        tmp := tmp.next;
        i := i + 1;
      }
      return null;
    }

    method FindOverlapUnsorted(region: MemRegion) returns (found: MemRegion?)
      requires Valid()
      ensures found == null || found == region
      ensures found != null <==> AnyMeets(Contents(), region.ToSpan())
    {
      var tmp := head;
      ghost var i := 0;
      while tmp != null
        invariant 0 <= i <= |Nodes| && tmp == (if i < |Nodes| then Nodes[i] else null)
        invariant forall j | 0 <= j < i :: !Meets(Contents()[j], region.ToSpan())
        decreases |Nodes| - i
      {
        if RegionsOverlap(tmp, region) {
          assert Contents()[i] in Contents();
          return region;
        }
        tmp := tmp.next;
        i := i + 1;
      }
      return null;
    }

    /** On a sorted list the early exit loses nothing: the answer is the member that contains
        the address, and NULL exactly when no member does. */
    method Find(ptr: nat) returns (found: MemRegion?, ghost k: nat)
      requires Valid() && Sorted(Contents())
      ensures k <= |Nodes| && found == At(Nodes, k)
      ensures forall j | 0 <= j < k :: !(Nodes[j].start <= ptr < Nodes[j].end)
      ensures found != null ==> found.start <= ptr < found.end
    {
      found := head;
      k := 0;
      while found != null && ptr >= found.start
        invariant 0 <= k <= |Nodes| && found == At(Nodes, k)
        invariant forall j | 0 <= j < k :: !(Nodes[j].start <= ptr < Nodes[j].end)
        decreases |Nodes| - k
      {
        if ptr >= found.start && ptr < found.end {
          return;
        }
        found := found.next;
        k := k + 1;
      }
      forall j | k <= j < |Nodes| ensures !(Nodes[j].start <= ptr < Nodes[j].end) {
        assert k < j ==> Contents()[k].end <= Contents()[j].start && Contents()[k].start < Contents()[k].end;
      }
      return null, |Nodes|;
    }

    /** The source does not touch `new`'s `prev`: the object must come with it cleared. */
    method InsertFront(region: MemRegion)
      requires Valid() && region !in Repr && region.prev == null
      modifies this, Repr`next, Repr`prev, region`next, region`prev
      ensures Valid() && Nodes == [region] + old(Nodes) && Repr == old(Repr) + {region}
    {
      region.next := head;
      if head != null {
        head.prev := region;
      }
      head := region;
      if tail == null {
        tail := region;
      }
      Nodes, Repr := [region] + Nodes, Repr + {region};
    }

    method InsertAfter(after: MemRegion, region: MemRegion, ghost k: nat)
      requires Valid() && region !in Repr && k < |Nodes| && Nodes[k] == after
      modifies this, Repr`next, Repr`prev, region`next, region`prev
      ensures Valid() && Nodes == InsertAt(old(Nodes), k + 1, region) && Repr == old(Repr) + {region}
    {
      InsertDistinct(Nodes, k + 1, region);
      hide Distinct;
      region.next := after.next;
      region.prev := after;
      after.next := region;
      if region.next != null {
        region.next.prev := region;
      } else {
        tail := region;
      }
      Nodes, Repr := InsertAt(Nodes, k + 1, region), Repr + {region};
    }

    /** Changes the fill byte of a member in place. */
    method SetData(region: MemRegion, data: nat, ghost k: nat)
      requires Valid() && k < |Nodes| && Nodes[k] == region
      modifies region`data
      ensures Valid() && Contents() == old(Contents())[k := Span(region.start, region.end, data)]
    {
      region.data := data;
    }

    /** Takes `obj` out and leaves it detached, as InsertFront needs it. */
    method Remove(obj: MemRegion, ghost k: nat)
      requires Valid() && k < |Nodes| && Nodes[k] == obj
      modifies this, Repr`next, Repr`prev
      ensures Valid() && Nodes == old(Nodes)[..k] + old(Nodes)[k + 1..] && Repr == old(Repr) - {obj}
      ensures obj.next == null && obj.prev == null
    {
      if obj.next != null {
        obj.next.prev := obj.prev;
      }
      if obj.prev != null {
        obj.prev.next := obj.next;
      }
      if head == obj {
        head := obj.next;
      }
      if tail == obj {
        tail := obj.prev;
      }
      obj.next := null;
      obj.prev := null;
      Nodes, Repr := Nodes[..k] + Nodes[k + 1..], Repr - {obj};
    }

    /** The list holds `region` at position `p` of the former contents `rs`, still sorted. */
    ghost predicate Gained(was: seq<MemRegion>, rs: seq<Span>, p: nat, region: MemRegion, s: Span)
      reads this, Repr
    {
      && Valid() && Sorted(Contents()) && p <= |was| == |rs|
      && Nodes == InsertAt(was, p, region) && Contents() == InsertAt(rs, p, s)
    }

    method PlaceFront(region: MemRegion)
      requires Valid() && Sorted(Contents())
      requires region !in Repr && region.prev == null && region.start < region.end
      requires |Nodes| > 0 ==> region.end <= Nodes[0].start
      modifies this, Repr`next, Repr`prev, region`next, region`prev
      ensures Gained(old(Nodes), old(Contents()), 0, region, old(region.ToSpan())) && Repr == old(Repr) + {region}
      ensures !AnyMeets(old(Contents()), old(region.ToSpan()))
    {
      ghost var was, rs, s := Nodes, Contents(), region.ToSpan();
      InsertFront(region);
      hide Valid;
      assert Nodes == InsertAt(was, 0, region);
      InsertedSorted(was, rs, 0, region, s);
    }

    method PlaceAfter(after: MemRegion, region: MemRegion, ghost k: nat)
      requires Valid() && Sorted(Contents())
      requires region !in Repr && region.start < region.end
      requires k < |Nodes| && Nodes[k] == after && after.end <= region.start
      requires k + 1 < |Nodes| ==> region.end <= Nodes[k + 1].start
      modifies this, Repr`next, Repr`prev, region`next, region`prev
      ensures Gained(old(Nodes), old(Contents()), k + 1, region, old(region.ToSpan())) && Repr == old(Repr) + {region}
      ensures !AnyMeets(old(Contents()), old(region.ToSpan()))
    {
      ghost var was, rs, s := Nodes, Contents(), region.ToSpan();
      InsertAfter(after, region, k);
      hide Valid;
      InsertedSorted(was, rs, k + 1, region, s);
    }

    /** The search of memlist_add_region: an error exactly when the new region meets a member,
        else the list gains the object in the one place that keeps it sorted. The end of the
        search is never reached. */
    method Place(region: MemRegion) returns (r: AddResult, ghost p: nat)
      requires Valid() && Sorted(Contents())
      requires region !in Repr && region.prev == null && region.start < region.end
      modifies this, Repr`next, Repr`prev, region`next, region`prev
      ensures r == if AnyMeets(old(Contents()), old(region.ToSpan())) then Overlapping else Added(region)
      ensures r.Added? ==> Gained(old(Nodes), old(Contents()), p, region, old(region.ToSpan()))
      ensures r.Added? ==> Repr == old(Repr) + {region}
    {
      p := 0;
      if head == null || region.end <= head.start {
        PlaceFront(region);
        return Added(region), 0;
      } else if region.start >= tail.end {
        p := |Nodes|;
        PlaceAfter(tail, region, |Nodes| - 1);
        return Added(region), p;
      }
      var cursor := head;
      while cursor != null
        invariant 0 <= p < |Nodes| && cursor == Nodes[p] && cursor.start < region.end
        invariant p > 0 ==> Nodes[p - 1].end <= region.start
        decreases |Nodes| - p
      {
        if RegionsOverlap(region, cursor) {
          assert Contents()[p] in Contents() && Meets(Contents()[p], region.ToSpan());
          return Overlapping, p;
        }
        if region.start >= cursor.end && (cursor.next == null || cursor.next.start >= region.end) {
          PlaceAfter(cursor, region, p);
          return Added(region), p + 1;
        }
        cursor := cursor.next;
        p := p + 1;
      }
      return Unreachable, p;
    }
  }

  /** Adds [start, start + len) to a sorted list with an object from the pool. */
  method AddRegion(list: RegionList, pool: RegionList, start: nat, len: nat)
    returns (r: AddResult, ghost p: nat)
    requires list.Valid() && Sorted(list.Contents())
    requires pool != list && pool.Valid() && pool.Repr !! list.Repr
    modifies list, list.Repr, pool, pool.Repr
    ensures r.Invalid? <==> len == 0
    ensures len > 0 ==> (r.Overlapping? <==> AnyMeets(old(list.Contents()), Span(start, start + len, 0)))
    ensures !r.Unreachable?
    ensures r.Added? ==>
              list.Gained(old(list.Nodes), old(list.Contents()), p, r.region, Span(start, start + len, r.region.data))
    ensures r.Added? ==> pool.Valid() && pool.Repr !! list.Repr && list.Repr == old(list.Repr) + {r.region}
    ensures r.Added? ==> fresh(pool.Repr + list.Repr - old(pool.Repr + list.Repr))
  {
    hide RegionList.Valid, RegionList.Gained, Sorted, RegionList.Contents;
    var end := start + len;
    p := 0;
    if start >= end {
      return Invalid, 0;
    }
    ghost var rs := list.Contents();
    var region := AllocRegionObject(pool, start, end);
    assert list.Contents() == rs && region.ToSpan() == Span(start, end, region.data);
    r, p := list.Place(region);
  }

  /** Inserting a non-empty region where everything before ends at or before its start and
      everything after starts at or after its end: no member meets it, and the list stays
      sorted. */
  lemma InsertedSorted(was: seq<MemRegion>, rs: seq<Span>, p: nat, region: MemRegion, s: Span)
    requires Sorted(rs) && p <= |rs| == |was| && s.start < s.end
    requires region.ToSpan() == s && forall i | 0 <= i < |rs| :: was[i].ToSpan() == rs[i]
    requires p > 0 ==> rs[p - 1].end <= s.start
    requires p < |rs| ==> s.end <= rs[p].start
    ensures SpansOf(InsertAt(was, p, region)) == InsertAt(rs, p, s)
    ensures Sorted(InsertAt(rs, p, s)) && !AnyMeets(rs, s)
  {
    forall i | 0 <= i < |rs| ensures if i < p then rs[i].end <= s.start else s.end <= rs[i].start {
      assert i + 1 < p ==> rs[i].end <= rs[p - 1].start && rs[p - 1].start < rs[p - 1].end;
      assert i > p ==> rs[p].end <= rs[i].start && rs[p].start < rs[p].end;
    }
  }

  /** Refills an empty pool: one 16-page mapping holds 1638 objects of 40 bytes. */
  method PopulateFreelist(pool: RegionList)
    requires pool.Valid() && pool.head == null && pool.Repr == {}
    modifies pool
    ensures pool.Valid() && |pool.Nodes| == 4096 * 16 / 40 && fresh(pool.Repr)
  {
    var n := 4096 * 16 / 40;
    var i := 0;
    while i < n
      invariant 0 <= i <= n && pool.Valid() && |pool.Nodes| == i && fresh(pool.Repr)
    {
      var region := new MemRegion();
      pool.InsertFront(region);
      i := i + 1;
    }
  }

  /** Takes an object from the pool, refilling it first when it is empty. The object comes
      back detached; the rest of the pool stays in order. */
  method AllocRegionObject(pool: RegionList, start: nat, end: nat) returns (ret: MemRegion)
    requires pool.Valid()
    modifies pool, pool.Repr
    ensures pool.Valid() && ret !in pool.Repr && ret.next == null && ret.prev == null
    ensures ret.start == start && ret.end == end
    ensures (ret in old(pool.Repr) || fresh(ret)) && fresh(pool.Repr - old(pool.Repr))
    ensures if old(pool.Nodes) == [] then fresh(ret) && fresh(pool.Repr)
            else ret == old(pool.Nodes)[0] && pool.Nodes == old(pool.Nodes)[1..] && pool.Repr == old(pool.Repr) - {ret}
  {
    if pool.head == null {
      pool.Repr := {};
      PopulateFreelist(pool);
    }
    ret := pool.head;
    pool.Remove(ret, 0);
    ret.start := start;
    ret.end := end;
  }

  /** Puts a detached object back into the pool: the next allocation gets it again. */
  method FreeRegionObject(pool: RegionList, obj: MemRegion)
    requires pool.Valid() && obj !in pool.Repr && obj.prev == null
    modifies pool, pool.Repr, obj
    ensures pool.Valid() && pool.Nodes == [obj] + old(pool.Nodes) && pool.Repr == old(pool.Repr) + {obj}
  {
    pool.InsertFront(obj);
  }
}
