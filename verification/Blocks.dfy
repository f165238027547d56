/** Address intervals and what it means for a set of them to tile a range. */
module Blocks {

  datatype Block = Block(addr: nat, size: nat) {
    function End(): nat {
      addr + size
    }
  }

  ghost predicate Apart(a: Block, b: Block) {
    a.End() <= b.addr || b.End() <= a.addr
  }

  ghost predicate Holds(b: Block, x: int) {
    b.addr <= x < b.End()
  }

  ghost predicate Covered(bs: set<Block>, x: int) {
    exists b <- bs :: Holds(b, x)
  }

  /** Non-empty blocks inside [lo, hi); sizes and distances from `lo` are multiples of 8. */
  ghost predicate Shaped(bs: set<Block>, lo: nat, hi: nat) {
    && lo <= hi
    && (forall b <- bs :: b.size > 0 && b.size % 8 == 0 && (b.addr - lo) % 8 == 0)
    && (forall b <- bs :: lo <= b.addr && b.End() <= hi)
  }

  ghost predicate AllApart(bs: set<Block>) {
    forall a <- bs, b <- bs | a != b :: Apart(a, b)
  }

  ghost predicate Covers(bs: set<Block>, lo: nat, hi: nat) {
    forall x: int | lo <= x < hi :: Covered(bs, x)
  }

  /** Every byte of [lo, hi) lies in exactly one block, and no block leaves the range. */
  ghost predicate Tiles(bs: set<Block>, lo: nat, hi: nat) {
    Shaped(bs, lo, hi) && AllApart(bs) && Covers(bs, lo, hi)
  }

  function SetOf(s: seq<Block>): set<Block> {
    set b | b in s
  }

  ghost predicate NoDup<T>(s: seq<T>) {
    forall i, j | 0 <= i < j < |s| :: s[i] != s[j]
  }

  function Without<T>(s: seq<T>, k: nat): (r: seq<T>)
    requires k < |s|
    ensures |r| == |s| - 1
    ensures forall i | 0 <= i < |r| :: r[i] == s[if i < k then i else i + 1]
  {
    s[..k] + s[k+1..]
  }

  /** Removing one position of a duplicate-free sequence removes exactly that element. */
  lemma WithoutSet(s: seq<Block>, k: nat)
    requires k < |s| && NoDup(s)
    ensures NoDup(Without(s, k))
    ensures SetOf(Without(s, k)) == SetOf(s) - {s[k]}
  {
    var r := Without(s, k);
    forall b | b in SetOf(s) - {s[k]} ensures b in r {
      var i :| 0 <= i < |s| && s[i] == b;
      assert r[if i < k then i else i - 1] == b;
    }
    forall b | b in r ensures b in s && b != s[k] {
      var i :| 0 <= i < |r| && r[i] == b;
      assert b == s[if i < k then i else i + 1];
    }
  }

  /** Replacing one position replaces exactly that element. */
  lemma UpdateSet(s: seq<Block>, k: nat, b: Block)
    requires k < |s| && NoDup(s) && b !in s
    ensures NoDup(s[k := b])
    ensures SetOf(s[k := b]) == SetOf(s) - {s[k]} + {b}
  {
    var r := s[k := b];
    forall x | x in SetOf(s) - {s[k]} + {b} ensures x in r {
      if x == b {
        assert r[k] == x;
      } else {
        var i :| 0 <= i < |s| && s[i] == x;
        assert r[i] == x;
      }
    }
  }

  lemma TilesExtend(bs: set<Block>, lo: nat, hi: nat, b: Block)
    requires Tiles(bs, lo, hi) && b.addr == hi && b.size > 0 && b.size % 8 == 0 && (hi - lo) % 8 == 0
    ensures b !in bs
    ensures Tiles(bs + {b}, lo, b.End())
  {
    forall x: int | lo <= x < b.End() ensures Covered(bs + {b}, x) {
      if x < hi {
        assert Covered(bs, x);
        var c :| c in bs && Holds(c, x);
        assert c in bs + {b};
      } else {
        assert b in bs + {b} && Holds(b, x);
      }
    }
  }

  lemma TilesDropLast(bs: set<Block>, lo: nat, hi: nat, b: Block)
    requires Tiles(bs, lo, hi) && b in bs && b.End() == hi
    ensures Tiles(bs - {b}, lo, b.addr)
  {
    forall x: int | lo <= x < b.addr ensures Covered(bs - {b}, x) {
      assert Covered(bs, x);
      var c :| c in bs && Holds(c, x);
      assert c in bs - {b};
    }
  }

  ghost predicate CutInto(b: Block, l: Block, r: Block) {
    l.addr == b.addr && l.End() == r.addr && r.End() == b.End() && 0 < l.size < b.size
  }

  lemma CutCovers(bs: set<Block>, lo: nat, hi: nat, b: Block, l: Block, r: Block)
    requires Covers(bs, lo, hi) && b in bs && CutInto(b, l, r)
    ensures Covers(bs - {b} + {l, r}, lo, hi)
  {
    var cs := bs - {b} + {l, r};
    forall x: int | lo <= x < hi ensures Covered(cs, x) {
      assert Covered(bs, x);
      var c :| c in bs && Holds(c, x);
      if c == b {
        assert l in cs && r in cs;
        assert Holds(l, x) || Holds(r, x);
      } else {
        assert c in cs;
      }
    }
  }

  lemma CutApart(bs: set<Block>, b: Block, l: Block, r: Block)
    requires AllApart(bs) && b in bs && CutInto(b, l, r)
    ensures AllApart(bs - {b} + {l, r})
  {
    forall c | c in bs && c != b ensures Apart(c, l) && Apart(c, r) {
      assert Apart(c, b);
    }
  }

  lemma CutShaped(bs: set<Block>, lo: nat, hi: nat, b: Block, l: Block, r: Block)
    requires Shaped(bs, lo, hi) && b in bs && CutInto(b, l, r) && l.size % 8 == 0
    ensures Shaped(bs - {b} + {l, r}, lo, hi)
  {
  }

  /** Cutting a block in two keeps the tiling. */
  lemma TilesCut(bs: set<Block>, lo: nat, hi: nat, b: Block, l: Block, r: Block)
    requires Tiles(bs, lo, hi) && b in bs && CutInto(b, l, r) && l.size % 8 == 0
    ensures Tiles(bs - {b} + {l, r}, lo, hi)
  {
    CutCovers(bs, lo, hi, b, l, r);
    CutApart(bs, b, l, r);
    CutShaped(bs, lo, hi, b, l, r);
    hide Shaped, Covers, AllApart;
  }

  lemma JoinCovers(bs: set<Block>, lo: nat, hi: nat, l: Block, r: Block)
    requires Covers(bs, lo, hi) && l in bs && r in bs && l.End() == r.addr
    ensures Covers(bs - {l, r} + {Block(l.addr, l.size + r.size)}, lo, hi)
  {
    var b := Block(l.addr, l.size + r.size);
    var cs := bs - {l, r} + {b};
    forall x: int | lo <= x < hi ensures Covered(cs, x) {
      assert Covered(bs, x);
      var c :| c in bs && Holds(c, x);
      if c == l || c == r {
        assert b in cs && Holds(b, x);
      } else {
        assert c in cs;
      }
    }
  }

  lemma JoinApart(bs: set<Block>, l: Block, r: Block)
    requires AllApart(bs) && (forall c <- bs :: c.size > 0)
    requires l in bs && r in bs && l.End() == r.addr
    ensures Block(l.addr, l.size + r.size) !in bs
    ensures AllApart(bs - {l, r} + {Block(l.addr, l.size + r.size)})
  {
    var b := Block(l.addr, l.size + r.size);
    assert !Apart(b, l);
    forall c | c in bs - {l, r} ensures Apart(c, b) {
      assert Apart(c, l) && Apart(c, r);
    }
  }

  /** Joining two neighbouring blocks keeps the tiling. */
  lemma TilesJoin(bs: set<Block>, lo: nat, hi: nat, l: Block, r: Block)
    requires Tiles(bs, lo, hi) && l in bs && r in bs && l.End() == r.addr
    ensures Block(l.addr, l.size + r.size) !in bs
    ensures Tiles(bs - {l, r} + {Block(l.addr, l.size + r.size)}, lo, hi)
  {
    JoinCovers(bs, lo, hi, l, r);
    JoinApart(bs, l, r);
    hide Covers, AllApart;
  }

  /** The byte length of a tiling is a multiple of 8. */
  lemma {:induction false} TilesAligned(bs: set<Block>, lo: nat, hi: nat)
    requires Tiles(bs, lo, hi)
    ensures (hi - lo) % 8 == 0
  {
    if hi > lo {
      assert Covered(bs, hi - 1);
      var b :| b in bs && Holds(b, hi - 1);
    }
  }

  // ---------------------------------------------------------------- byte counts

  ghost function Bytes(bs: set<Block>): nat {
    if bs == {} then 0 else
      var b :| b in bs;
      b.size + Bytes(bs - {b})
  }

  lemma {:induction false} BytesRemove(bs: set<Block>, b: Block)
    requires b in bs
    ensures Bytes(bs) == b.size + Bytes(bs - {b})
  {
    var c :| c in bs && Bytes(bs) == c.size + Bytes(bs - {c});
    if c != b {
      BytesRemove(bs - {c}, b);
      BytesRemove(bs - {b}, c);
      assert bs - {c} - {b} == bs - {b} - {c};
    }
  }

  lemma {:induction false} BytesUnion(xs: set<Block>, ys: set<Block>)
    requires xs !! ys
    ensures Bytes(xs + ys) == Bytes(xs) + Bytes(ys)
  {
    if xs == {} {
      assert xs + ys == ys;
    } else {
      var b :| b in xs;
      BytesRemove(xs, b);
      BytesRemove(xs + ys, b);
      assert xs + ys - {b} == (xs - {b}) + ys;
      BytesUnion(xs - {b}, ys);
    }
  }

  /** The sizes of the blocks of a tiling add up to the length of the range. */
  lemma {:induction false} TilesBytes(bs: set<Block>, lo: nat, hi: nat)
    requires Tiles(bs, lo, hi)
    ensures Bytes(bs) == hi - lo
    decreases hi - lo
  {
    if hi == lo {
      assert bs == {};
    } else {
      assert Covered(bs, hi - 1);
      var b :| b in bs && Holds(b, hi - 1);
      assert b.End() == hi;
      TilesDropLast(bs, lo, hi, b);
      TilesBytes(bs - {b}, lo, b.addr);
      BytesRemove(bs, b);
    }
  }
}
