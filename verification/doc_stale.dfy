/** The list of stale regions of a file (src/filemgr.cc).  Its lengths are 32-bit words. */
module DocStale {
  import opened Arith
  import opened DocLayout

  predicate Adjacent(stale: seq<Region>, r: Region) {
    stale != [] && stale[|stale| - 1].pos + stale[|stale| - 1].len == r.pos
  }

  /** `filemgr_add_stale_block`: a region next to the last one is merged into it. */
  function AddStale(stale: seq<Region>, r: Region): seq<Region> {
    if Adjacent(stale, r) then
      stale[..|stale| - 1] + [Region(stale[|stale| - 1].pos, U32(stale[|stale| - 1].len + r.len))]
    else stale + [Region(r.pos, U32(r.len))]
  }

  /** Whether the length that is stored fits. */
  predicate AddFits(stale: seq<Region>, r: Region) {
    (if Adjacent(stale, r) then stale[|stale| - 1].len else 0) + r.len < TWO32
  }

  lemma U32Facts(n: nat)
    ensures U32(n) <= n && (n < TWO32 <==> U32(n) == n)
  {
    DivFacts(n, TWO32);
  }

  /** A byte is counted once more at most, and exactly so if the length fits. */
  lemma AddStaleCount(stale: seq<Region>, r: Region, x: int)
    ensures Count(AddStale(stale, r), x) <= Count(stale, x) + if In(r, x) then 1 else 0
    ensures AddFits(stale, r) ==> Count(AddStale(stale, r), x) == Count(stale, x) + if In(r, x) then 1 else 0
  {
    hide U32, Count;
    if Adjacent(stale, r) {
      var init, last := stale[..|stale| - 1], stale[|stale| - 1];
      assert stale == init + [last];
      U32Facts(last.len + r.len);
      var both := Region(last.pos, U32(last.len + r.len));
      CountConcat(init, [last], x);
      CountConcat(init, [both], x);
      CountOne(last, x);
      CountOne(both, x);
    } else {
      U32Facts(r.len);
      CountConcat(stale, [Region(r.pos, U32(r.len))], x);
      CountOne(Region(r.pos, U32(r.len)), x);
    }
  }

  lemma AddStaleLoses(stale: seq<Region>, r: Region) returns (x: int)
    requires !AddFits(stale, r)
    ensures Count(AddStale(stale, r), x) < Count(stale, x) + if In(r, x) then 1 else 0
  {
    hide U32, Count;
    if Adjacent(stale, r) {
      var init, last := stale[..|stale| - 1], stale[|stale| - 1];
      assert stale == init + [last];
      U32Facts(last.len + r.len);
      var both := Region(last.pos, U32(last.len + r.len));
      x := both.pos + both.len;
      CountConcat(init, [last], x);
      CountConcat(init, [both], x);
      CountOne(last, x);
      CountOne(both, x);
    } else {
      U32Facts(r.len);
      x := r.pos + U32(r.len);
      CountConcat(stale, [Region(r.pos, U32(r.len))], x);
      CountOne(Region(r.pos, U32(r.len)), x);
    }
  }

  /** Adding a region counts exactly its bytes once more if and only if the stored length
      fits into 32 bits. */
  lemma AddStaleExact(stale: seq<Region>, r: Region)
    ensures AddFits(stale, r) <==>
              forall x :: Count(AddStale(stale, r), x) == Count(stale, x) + if In(r, x) then 1 else 0
  {
    hide AddFits, AddStale, Count;
    if AddFits(stale, r) {
      forall x ensures Count(AddStale(stale, r), x) == Count(stale, x) + if In(r, x) then 1 else 0 {
        AddStaleCount(stale, r, x);
      }
    } else {
      var x := AddStaleLoses(stale, r);
    }
  }

  // ----- a run of additions -----

  function AddAll(stale: seq<Region>, rs: seq<Region>): seq<Region>
    decreases rs
  {
    if rs == [] then stale else AddAll(AddStale(stale, rs[0]), rs[1..])
  }

  /** Whether every length that is stored on the way fits. */
  predicate AllFit(stale: seq<Region>, rs: seq<Region>)
    decreases rs
  {
    rs == [] || (AddFits(stale, rs[0]) && AllFit(AddStale(stale, rs[0]), rs[1..]))
  }

  lemma {:induction false} AddAllConcat(stale: seq<Region>, a: seq<Region>, b: seq<Region>)
    ensures AddAll(stale, a + b) == AddAll(AddAll(stale, a), b)
    decreases a
  {
    if a == [] {
      assert a + b == b;
    } else {
      assert (a + b)[0] == a[0] && (a + b)[1..] == a[1..] + b;
      AddAllConcat(AddStale(stale, a[0]), a[1..], b);
    }
  }

  lemma {:induction false} AddAllCount(stale: seq<Region>, rs: seq<Region>, x: int)
    ensures Count(AddAll(stale, rs), x) <= Count(stale, x) + Count(rs, x)
    ensures AllFit(stale, rs) ==> Count(AddAll(stale, rs), x) == Count(stale, x) + Count(rs, x)
    decreases rs
  {
    if rs != [] {
      hide AddStale, AddFits;
      AddStaleCount(stale, rs[0], x);
      AddAllCount(AddStale(stale, rs[0]), rs[1..], x);
    }
  }

  lemma {:induction false} AddAllLoses(stale: seq<Region>, rs: seq<Region>) returns (x: int)
    requires !AllFit(stale, rs)
    ensures Count(AddAll(stale, rs), x) < Count(stale, x) + Count(rs, x)
    decreases rs
  {
    hide AddStale, AddFits;
    var stale' := AddStale(stale, rs[0]);
    if AddFits(stale, rs[0]) {
      x := AddAllLoses(stale', rs[1..]);
      AddStaleCount(stale, rs[0], x);
    } else {
      x := AddStaleLoses(stale, rs[0]);
      AddAllCount(stale', rs[1..], x);
    }
  }

  function Sum(rs: seq<Region>): nat {
    if rs == [] then 0 else Sum(rs[..|rs| - 1]) + rs[|rs| - 1].len
  }

  lemma SumPut(rs: seq<Region>, r: Region)
    ensures Sum(rs + [r]) == Sum(rs) + r.len
  {
    assert (rs + [r])[..|rs|] == rs;
  }

  lemma {:induction false} SumConcat(a: seq<Region>, b: seq<Region>)
    ensures Sum(a + b) == Sum(a) + Sum(b)
    decreases b
  {
    if b == [] {
      assert a + b == a;
    } else {
      var init, r := b[..|b| - 1], b[|b| - 1];
      assert a + b == (a + init) + [r];
      SumPut(a + init, r);
      SumConcat(a, init);
    }
  }

  /** Fewer than 2^32 stale bytes in all always fit. */
  lemma {:induction false} FewFit(stale: seq<Region>, rs: seq<Region>)
    requires Sum(stale) + Sum(rs) < TWO32
    ensures AllFit(stale, rs)
    decreases rs
  {
    if rs != [] {
      hide AddStale, AddFits, Sum;
      var r := rs[0];
      assert rs == [r] + rs[1..] && [r] == [] + [r];
      SumConcat([r], rs[1..]);
      SumPut([], r);
      AddSum(stale, r);
      FewFit(AddStale(stale, r), rs[1..]);
    }
  }

  lemma AddSum(stale: seq<Region>, r: Region)
    ensures Sum(AddStale(stale, r)) <= Sum(stale) + r.len
    ensures Sum(stale) + r.len < TWO32 ==> AddFits(stale, r)
  {
    hide U32;
    if Adjacent(stale, r) {
      var init, last := stale[..|stale| - 1], stale[|stale| - 1];
      U32Facts(last.len + r.len);
      SumPut(init, Region(last.pos, U32(last.len + r.len)));
    } else {
      U32Facts(r.len);
      SumPut(stale, Region(r.pos, U32(r.len)));
    }
  }

  // ----- tiling -----

  /** If the regions given up complete a tiling then so does the stale list, if and only if
      no length stored on the way needed more than 32 bits. */
  lemma TiledExact(blocks: set<int>, bs: nat, rs: seq<Region>, gone: seq<Region>, rest: seq<Region>)
    requires bs > 0 && Tiles(blocks, bs, rs + gone + rest)
    ensures Tiles(blocks, bs, rs + AddAll([], gone) + rest) <==> AllFit([], gone)
  {
    hide Count, Byte, AddAll, AllFit;
    var stale := AddAll([], gone);
    if AllFit([], gone) {
      forall b, p: nat | p < bs + META
        ensures Count(rs + stale + rest, Byte(bs, b, p)) == if b in blocks then 1 else 0
      {
        var x := Byte(bs, b, p);
        Count3(rs, gone, rest, x);
        Count3(rs, stale, rest, x);
        AddAllCount([], gone, x);
        NoneCounted(x);
      }
    } else {
      var x := AddAllLoses([], gone);
      NoneCounted(x);
      Count3(rs, gone, rest, x);
      Count3(rs, stale, rest, x);
      var b, p := x / (bs + META), x % (bs + META);
      ByteAt(bs, x);
      assert Count(rs + gone + rest, Byte(bs, b, p)) > Count(rs + stale + rest, Byte(bs, b, p));
    }
  }

  lemma ByteAt(bs: nat, x: int)
    ensures Byte(bs, x / (bs + META), x % (bs + META)) == x
  {
    DivFacts(x, bs + META);
  }
}
