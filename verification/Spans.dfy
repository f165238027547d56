/** Region lists of the test framework as plain sequences (memlist.c). */
module Spans {

  /** A region [start, end) and the byte its contents were filled with. */
  datatype Span = Span(start: nat, end: nat, data: nat)

  predicate Meets(a: Span, b: Span) {
    !(a.end <= b.start || a.start >= b.end)
  }

  /** Non-empty, in address order, pairwise disjoint. */
  ghost predicate Sorted(rs: seq<Span>) {
    && (forall i | 0 <= i < |rs| :: rs[i].start < rs[i].end)
    && (forall i, j | 0 <= i < j < |rs| :: rs[i].end <= rs[j].start)
  }

  ghost predicate AnyMeets(rs: seq<Span>, r: Span) {
    exists m <- rs :: Meets(m, r)
  }

  /** The search with the exit test as the source has it: it stops at a region that lies
      entirely before `r`, although a later one may still meet it. */
  predicate FindOverlap(rs: seq<Span>, r: Span) {
    if rs == [] || r.end <= rs[0].start || r.start >= rs[|rs|-1].end then false
    else Walk(rs, r)
  }

  predicate Walk(rs: seq<Span>, r: Span) {
    if rs == [] then false
    else if Meets(rs[0], r) then true
    else if rs[0].end <= r.start then false
    else Walk(rs[1..], r)
  }

  /** The same search with the exit test in its intended direction: stop at a region that
      lies entirely after `r`. */
  predicate FindOverlapIntended(rs: seq<Span>, r: Span) {
    if rs == [] || r.end <= rs[0].start || r.start >= rs[|rs|-1].end then false
    else WalkIntended(rs, r)
  }

  predicate WalkIntended(rs: seq<Span>, r: Span) {
    if rs == [] then false
    else if Meets(rs[0], r) then true
    else if rs[0].start >= r.end then false
    else WalkIntended(rs[1..], r)
  }

  /** Whatever the list, a hit of the search is a real overlap. */
  lemma {:induction false} WalkFindsMembers(rs: seq<Span>, r: Span)
    ensures Walk(rs, r) ==> AnyMeets(rs, r)
  {
    if rs != [] {
      WalkFindsMembers(rs[1..], r);
      assert forall m :: m in rs[1..] ==> m in rs;
    }
  }

  lemma SearchFindsMembers(rs: seq<Span>, r: Span)
    ensures FindOverlap(rs, r) ==> AnyMeets(rs, r)
  {
    WalkFindsMembers(rs, r);
  }

  /** What the written search decides: whether the first region meets `r`. */
  lemma WrittenSearchSeesTheHeadOnly(rs: seq<Span>, r: Span)
    requires Sorted(rs) && r.start < r.end
    ensures FindOverlap(rs, r) <==> rs != [] && Meets(rs[0], r)
  {
    if rs != [] {
      assert rs[|rs|-1].start < rs[|rs|-1].end;
      assert |rs| > 1 ==> rs[0].end <= rs[|rs|-1].start;
    }
  }

  /** Hence it agrees with the full scan exactly when a hit anywhere implies a hit at the head. */
  lemma WrittenSearchAgreesIff(rs: seq<Span>, r: Span)
    requires Sorted(rs) && r.start < r.end
    ensures (FindOverlap(rs, r) <==> AnyMeets(rs, r)) <==>
            (rs != [] && rs[0].end <= r.start ==> !AnyMeets(rs[1..], r))
  {
    WrittenSearchSeesTheHeadOnly(rs, r);
    if rs != [] {
      assert forall m :: m in rs <==> m == rs[0] || m in rs[1..];
      if r.end <= rs[0].start {
        assert !AnyMeets(rs, r);
      }
    }
  }

  /** A list on which the written search misses an overlap that the full scan finds. */
  lemma WrittenSearchMisses()
    ensures exists rs: seq<Span>, r: Span :: Sorted(rs) && r.start < r.end && AnyMeets(rs, r) && !FindOverlap(rs, r)
  {
    var rs := [Span(0, 8, 0), Span(16, 24, 0)];
    var r := Span(16, 32, 0);
    assert Meets(rs[1], r) && rs[1] in rs;
    WrittenSearchSeesTheHeadOnly(rs, r);
  }

  lemma {:induction false} WalkIntendedScans(rs: seq<Span>, r: Span)
    requires Sorted(rs) && r.start < r.end
    ensures WalkIntended(rs, r) <==> AnyMeets(rs, r)
  {
    if rs != [] {
      assert forall m :: m in rs <==> m == rs[0] || m in rs[1..];
      assert Sorted(rs[1..]);
      WalkIntendedScans(rs[1..], r);
      if rs[0].start >= r.end {
        forall m | m in rs ensures !Meets(m, r) {
          var i :| 0 <= i < |rs| && rs[i] == m;
          assert i > 0 ==> rs[0].end <= rs[i].start;
        }
      }
    }
  }

  /** With the intended exit test the early-exit search is the full scan. */
  lemma IntendedSearchIsFullScan(rs: seq<Span>, r: Span)
    requires Sorted(rs) && r.start < r.end
    ensures FindOverlapIntended(rs, r) <==> AnyMeets(rs, r)
  {
    WalkIntendedScans(rs, r);
    if rs != [] {
      forall m | m in rs && Meets(m, r)
        ensures r.end > rs[0].start && r.start < rs[|rs|-1].end
      {
        var i :| 0 <= i < |rs| && rs[i] == m;
        assert i > 0 ==> rs[0].end <= rs[i].start;
        assert i < |rs| - 1 ==> rs[i].end <= rs[|rs|-1].start;
        assert rs[0].start < rs[0].end && rs[|rs|-1].start < rs[|rs|-1].end;
      }
    }
  }
}
