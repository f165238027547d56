/** The globals of main.cpp and the critical sections that update them, for its four
    sections A, B, E and F. Each method is one step of Metro.dfy. */
module Stations {
  import opened Metro

  // ---------------------------------------------------------------- the listing of waiting trains

  // std::priority_queue with `greater` is a multiset of ids whose top is its least element.

  /** Copies the queue and moves the copy into the priority queue, front by front. */
  method AddSectionQueue(pq: multiset<nat>, q: seq<Train>) returns (r: multiset<nat>)
    ensures r == pq + multiset(IdsOf(q))
  {
    r := pq;
    var temp := q;
    while temp != []
      invariant r + multiset(IdsOf(temp)) == pq + multiset(IdsOf(q))
      decreases |temp|
    {
      assert IdsOf(temp) == [temp[0].id] + IdsOf(temp[1..]);
      r := r + multiset{temp[0].id};
      temp := temp[1..];
    }
  }

  lemma {:induction false} LeastExists(pq: multiset<nat>) returns (x: nat)
    requires pq != multiset{}
    ensures x in pq && forall y <- pq :: x <= y
    decreases |pq|
  {
    x :| x in pq;
    var first, rest := x, pq - multiset{x};
    forall z | z in pq ensures z == first || z in rest {
      assert z != first ==> rest[z] == pq[z];
    }
    if rest != multiset{} {
      var y := LeastExists(rest);
      x := if x < y then x else y;
    }
  }

  method Top(pq: multiset<nat>) returns (x: nat)
    requires pq != multiset{}
    ensures x in pq && forall y <- pq :: x <= y
  {
    ghost var least := LeastExists(pq);
    x :| x in pq && forall y <- pq :: x <= y;
  }

  /** Lines 88-96: the priority queue is emptied from the top, which sorts it. */
  method Drain(pq: multiset<nat>) returns (ids: seq<nat>)
    ensures Ascending(ids) && multiset(ids) == pq
  {
    ids := [];
    var rest := pq;
    while rest != multiset{}
      invariant multiset(ids) + rest == pq && Ascending(ids)
      invariant forall x <- ids, y <- rest :: x <= y
      decreases |rest|
    {
      var x := Top(rest);
      forall i | 0 <= i < |ids| ensures ids[i] <= x {
        assert ids[i] in ids;
      }
      ids := ids + [x];
      rest := rest - multiset{x};
    }
  }

  /** There is only one ascending listing of a multiset. */
  lemma {:induction false} AscendingUnique(a: seq<nat>, b: seq<nat>)
    requires Ascending(a) && Ascending(b) && multiset(a) == multiset(b)
    ensures a == b
    decreases |a|
  {
    assert |a| == |multiset(a)| && |b| == |multiset(b)|;
    if a != [] {
      SameHead(a, b);
      assert a == [a[0]] + a[1..] && b == [b[0]] + b[1..];
      assert multiset(a[1..]) == multiset(a) - multiset{a[0]};
      assert multiset(b[1..]) == multiset(b) - multiset{b[0]};
      AscendingUnique(a[1..], b[1..]);
    }
  }

  lemma SameHead(a: seq<nat>, b: seq<nat>)
    requires Ascending(a) && Ascending(b) && multiset(a) == multiset(b) && a != [] && b != []
    ensures a[0] == b[0]
  {
    assert a[0] in multiset(b) && b[0] in multiset(a);
  }

  lemma FourLengths(a: seq<Train>, b: seq<Train>, c: seq<Train>, d: seq<Train>)
    ensures Waiting([a, b, c, d]) == |a| + |b| + |c| + |d|
  {
    assert [a, b, c, d][1..] == [b, c, d] && [b, c, d][1..] == [c, d] && [c, d][1..] == [d];
    assert Waiting([d]) == |d|;
    assert Waiting([c, d]) == |c| + |d|;
    assert Waiting([b, c, d]) == |b| + |c| + |d|;
  }

  lemma FourIds(a: seq<Train>, b: seq<Train>, c: seq<Train>, d: seq<Train>)
    ensures QueueIds([a, b, c, d]) ==
            multiset(IdsOf(a)) + multiset(IdsOf(b)) + multiset(IdsOf(c)) + multiset(IdsOf(d))
  {
    hide IdsOf;
    assert [a, b, c, d][1..] == [b, c, d] && [b, c, d][1..] == [c, d] && [c, d][1..] == [d] && [d][1..] == [];
    assert QueueIds([d]) == multiset(IdsOf(d)) + QueueIds([]);
    assert QueueIds([c, d]) == multiset(IdsOf(c)) + QueueIds([d]);
    assert QueueIds([b, c, d]) == multiset(IdsOf(b)) + QueueIds([c, d]);
    assert QueueIds([a, b, c, d]) == multiset(IdsOf(a)) + QueueIds([b, c, d]);
  }

  class Station {
    var section1Queue: seq<Train>
    var section2Queue: seq<Train>
    var section3Queue: seq<Train>
    var section4Queue: seq<Train>
    var clearance: bool
    var trainId: int
    var records: map<nat, Record>
    var log: seq<Event>

    constructor ()
      ensures Valid() && View() == Init(4).sh
    {
      section1Queue, section2Queue, section3Queue, section4Queue := [], [], [], [];
      clearance, trainId, records, log := false, -1, map[], [];
      new;
      assert Queues() == seq(4, _ => []);
    }

    ghost predicate Valid()
      reads this
    {
      trainId >= -1
    }

    function Queues(): seq<seq<Train>>
      reads this
    {
      [section1Queue, section2Queue, section3Queue, section4Queue]
    }

    ghost function View(): Shared
      requires Valid()
      reads this
    {
      Shared(Queues(), clearance, trainId + 1, records, log)
    }

    /** Lines 80-98: every waiting id once, in ascending order. */
    method TrainsWaiting() returns (ids: seq<nat>)
      ensures ids == WaitingIds(Queues())
    {
      hide WaitingIds, QueueIds, IdsOf, Ascending;
      var pq: multiset<nat> := multiset{};
      pq := AddSectionQueue(pq, section1Queue);
      pq := AddSectionQueue(pq, section2Queue);
      pq := AddSectionQueue(pq, section3Queue);
      pq := AddSectionQueue(pq, section4Queue);
      ids := Drain(pq);
      FourIds(section1Queue, section2Queue, section3Queue, section4Queue);
      WaitingIdsOk(Queues());
      AscendingUnique(ids, WaitingIds(Queues()));
    }

    /** Lines 107-109. */
    method TestEmpty() returns (allEmpty: bool)
      ensures allEmpty <==> Waiting(Queues()) == 0
    {
      FourLengths(section1Queue, section2Queue, section3Queue, section4Queue);
      allEmpty := section1Queue == [] && section2Queue == [] && section3Queue == [] && section4Queue == [];
    }

    /** Lines 195-209. */
    method CheckForOverload() returns (overload: bool)
      requires Valid()
      modifies this
      ensures Valid() && (View(), overload) == CheckOverload(old(View()))
    {
      FourLengths(section1Queue, section2Queue, section3Queue, section4Queue);
      overload := |section1Queue| + |section2Queue| + |section3Queue| + |section4Queue| > 10;
      if overload {
        if !clearance {
          var waiting := TrainsWaiting();
          log := log + [Overload(waiting)];
        }
        clearance := true;
      }
    }

    /** Lines 233-254. */
    method PushTrain(source: nat, length: nat)
      requires Valid() && source < 4
      modifies this
      ensures Valid() && View() == Push(old(View()), source, length)
    {
      trainId := trainId + 1;
      var train := Train(trainId, source, length);
      if source == 0 {
        section1Queue := section1Queue + [train];
      } else if source == 1 {
        section2Queue := section2Queue + [train];
      } else if source == 2 {
        section3Queue := section3Queue + [train];
      } else {
        section4Queue := section4Queue + [train];
      }
      records := records[train.id := Record(train, false)];
    }

    static function Max(a: nat, b: nat): nat {
      if a < b then b else a
    }

    /** Lines 118-140. */
    method PopLongest() returns (train: Train)
      requires Valid() && Waiting(Queues()) > 0
      modifies this
      ensures Valid() && (View(), train) == Pop(old(View()))
    {
      ghost var qs, i := Queues(), Longest(Queues());
      LongestNotEmpty(qs);
      assert qs[0] == section1Queue && qs[1] == section2Queue && qs[2] == section3Queue && qs[3] == section4Queue;
      FourLengths(section1Queue, section2Queue, section3Queue, section4Queue);
      var maxQueueSize := Max(|section1Queue|, Max(|section2Queue|, Max(|section3Queue|, |section4Queue|)));
      if maxQueueSize == |section1Queue| {
        train := section1Queue[0];
        section1Queue := section1Queue[1..];
        assert i == 0 && Queues() == qs[0 := qs[0][1..]];
      } else if maxQueueSize == |section2Queue| {
        train := section2Queue[0];
        section2Queue := section2Queue[1..];
        assert i == 1 && Queues() == qs[1 := qs[1][1..]];
      } else if maxQueueSize == |section3Queue| {
        train := section3Queue[0];
        section3Queue := section3Queue[1..];
        assert i == 2 && Queues() == qs[2 := qs[2][1..]];
      } else {
        train := section4Queue[0];
        section4Queue := section4Queue[1..];
        assert i == 3 && Queues() == qs[3 := qs[3][1..]];
      }
    }

    /** Lines 174-176. */
    method RecordArrival(train: Train)
      requires Valid()
      modifies this
      ensures Valid() && View() == Arrive(old(View()), train)
      ensures train.id in records && records[train.id].arrived
      ensures forall id <- old(records) | id != train.id :: id in records && records[id] == old(records)[id]
      ensures train.id in old(records) ==> records[train.id].train == old(records)[train.id].train
    {
      var known := if train.id in records then records[train.id].train else train;
      records := records[train.id := Record(known, true)];
    }
  }
}
