/** Taking reusable blocks out of the merge tree (`fdb_get_reusable_block` in
    src/staleblock.cc). */
module StaleBlocks {
  import opened Arith
  import opened DocLayout
  import opened StaleMerge

  /** count consecutive blocks from bid on. */
  datatype Run = Run(bid: int, count: nat)

  ghost predicate InRun(r: Run, bs: nat, x: int) {
    r.bid * bs <= x < (r.bid + r.count) * bs
  }

  ghost predicate InRuns(rs: seq<Run>, bs: nat, x: int) {
    exists i :: 0 <= i < |rs| && InRun(rs[i], bs, x)
  }

  /** The bytes up to the next block boundary. */
  function FrontMargin(pos: int, bs: nat): nat
    requires bs > 0
  {
    if pos % bs != 0 then bs - pos % bs else 0
  }

  predicate HasBlock(item: Region, bs: nat)
    requires bs > 0
  {
    item.len >= bs && item.len - FrontMargin(item.pos, bs) >= bs
  }

  function RunOf(item: Region, bs: nat): Run
    requires bs > 0 && HasBlock(item, bs)
  {
    Run((item.pos + FrontMargin(item.pos, bs)) / bs, (item.len - FrontMargin(item.pos, bs)) / bs)
  }

  /** What stays of an item: the parts before the first and behind the last whole block. */
  function RestOf(item: Region, bs: nat): seq<Region>
    requires bs > 0
  {
    if !HasBlock(item, bs) then [item]
    else
      var margin, run := FrontMargin(item.pos, bs), RunOf(item, bs);
      var left := (item.len - margin) % bs;
      (if margin > 0 then [Region(item.pos, margin)] else [])
          + (if left > 0 then [Region((run.bid + run.count) * bs, left)] else [])
  }

  function Runs(items: seq<Region>, bs: nat): seq<Run>
    requires bs > 0
  {
    if items == [] then []
    else Runs(items[..|items| - 1], bs) + if HasBlock(items[|items| - 1], bs) then [RunOf(items[|items| - 1], bs)]
         else []
  }

  function Rests(items: seq<Region>, bs: nat): seq<Region>
    requires bs > 0
  {
    if items == [] then [] else Rests(items[..|items| - 1], bs) + RestOf(items[|items| - 1], bs)
  }

  // ----- one item -----

  /** The numbers of an item: k is its first block boundary and m its last one. */
  lemma Boundaries(item: Region, bs: nat) returns (k: int, m: int)
    requires bs > 0
    ensures item.pos <= k * bs < item.pos + bs && m * bs <= End(item) < m * bs + bs
    ensures FrontMargin(item.pos, bs) == k * bs - item.pos
    ensures HasBlock(item, bs) <==> (k + 1) * bs <= End(item)
    ensures HasBlock(item, bs) ==> RunOf(item, bs).bid == k && k < m && RunOf(item, bs).count == m - k
    ensures HasBlock(item, bs) ==> (item.len - FrontMargin(item.pos, bs)) % bs == End(item) - m * bs
  {
    DivFacts(item.pos, bs);
    DivFacts(End(item), bs);
    k := if item.pos % bs == 0 then item.pos / bs else item.pos / bs + 1;
    m := End(item) / bs;
    Distribute(item.pos / bs, bs);
    Distribute(k, bs);
    assert FrontMargin(item.pos, bs) == k * bs - item.pos;
    if HasBlock(item, bs) {
      BlockNumbers(item, bs, k, m);
    }
  }

  lemma BlockNumbers(item: Region, bs: nat, k: int, m: int)
    requires bs > 0 && HasBlock(item, bs) && FrontMargin(item.pos, bs) == k * bs - item.pos
             && m * bs <= End(item) < m * bs + bs
    ensures RunOf(item, bs).bid == k && k < m && RunOf(item, bs).count == m - k
    ensures (item.len - FrontMargin(item.pos, bs)) % bs == End(item) - m * bs
  {
    hide RunOf, HasBlock, FrontMargin;
    MulDiv(k, bs);
    var len := item.len - FrontMargin(item.pos, bs);
    DivFacts(len, bs);
    var c := len / bs;
    RunNumbers(item, bs);
    Factor(k, c, bs);
    if k + c < m { MulGap(k + c, m, bs); }
    if m < k + c { MulGap(m, k + c, bs); }
  }

  lemma RunNumbers(item: Region, bs: nat)
    requires bs > 0 && HasBlock(item, bs)
    ensures RunOf(item, bs) == Run((item.pos + FrontMargin(item.pos, bs)) / bs,
                                   (item.len - FrontMargin(item.pos, bs)) / bs)
    ensures (item.len - FrontMargin(item.pos, bs)) / bs > 0
  {
    DivFacts(item.len - FrontMargin(item.pos, bs), bs);
  }

  /** The part of an item between two of its boundaries. */
  ghost function Pieces(item: Region, k: int, m: int): seq<Region>
    requires item.pos <= k && m <= End(item)
  {
    (if k > item.pos then [Region(item.pos, k - item.pos)] else [])
        + (if End(item) > m then [Region(m, End(item) - m)] else [])
  }

  lemma RestPieces(item: Region, bs: nat, k: int, m: int)
    requires bs > 0 && HasBlock(item, bs) && FrontMargin(item.pos, bs) == k * bs - item.pos && k * bs >= item.pos
             && m * bs <= End(item)
    requires RunOf(item, bs).bid == k && k < m && RunOf(item, bs).count == m - k
             && (item.len - FrontMargin(item.pos, bs)) % bs == End(item) - m * bs
    ensures RestOf(item, bs) == Pieces(item, k * bs, m * bs)
  {
    hide RunOf, HasBlock, FrontMargin;
  }

  lemma CoversNone(x: int)
    ensures !Covers([], x)
  {
  }

  lemma PiecesFacts(item: Region, k: int, m: int, x: int)
    requires item.pos <= k < m <= End(item)
    ensures Covers(Pieces(item, k, m), x) <==> In(item, x) && !(k <= x < m)
    ensures Normal(Pieces(item, k, m))
    ensures forall i :: 0 <= i < |Pieces(item, k, m)| ==> var r := Pieces(item, k, m)[i];
            r.len > 0 && item.pos <= r.pos && End(r) <= End(item)
    ensures forall i :: 0 <= i < |Pieces(item, k, m)| ==> var r := Pieces(item, k, m)[i];
            r.len <= (if k - item.pos > End(item) - m then k - item.pos else End(item) - m)
  {
    hide Covers;
    CoversNone(x);
    var a, b := if k > item.pos then [Region(item.pos, k - item.pos)]
        else [], if End(item) > m then [Region(m, End(item) - m)] else [];
    CoversConcat(a, b, x);
    CoversOne(Region(item.pos, k - item.pos), x);
    if End(item) > m { CoversOne(Region(m, End(item) - m), x); }
  }

  /** Does the item hold the whole block? */
  ghost predicate Whole(item: Region, bs: nat, b: int) {
    item.pos <= b * bs && (b + 1) * bs <= End(item)
  }

  /** An item's bytes are split into its whole blocks and what stays of it. */
  lemma CarveBytes(item: Region, bs: nat, x: int)
    requires bs > 0
    ensures In(item, x) <==> Covers(RestOf(item, bs), x) || (HasBlock(item, bs) && InRun(RunOf(item, bs), bs, x))
    ensures !(Covers(RestOf(item, bs), x) && HasBlock(item, bs) && InRun(RunOf(item, bs), bs, x))
  {
    hide RunOf, FrontMargin, Covers, Pieces;
    var k, m := Boundaries(item, bs);
    if HasBlock(item, bs) {
      RestPieces(item, bs, k, m);
      MulOrder(k, m, bs);
      PiecesFacts(item, k * bs, m * bs, x);
    } else {
      CoversOne(item, x);
    }
  }

  /** Exactly the whole blocks of an item are in its run. */
  lemma CarveWhole(item: Region, bs: nat, b: int)
    requires bs > 0
    ensures Whole(item, bs, b) <==>
              HasBlock(item, bs) && RunOf(item, bs).bid <= b < RunOf(item, bs).bid + RunOf(item, bs).count
  {
    hide RunOf, HasBlock, FrontMargin;
    var k, m := Boundaries(item, bs);
    Distribute(b, bs);
    Distribute(k, bs);
    Distribute(m, bs);
    MulOrder(b, k, bs);
    MulOrder(k, b, bs);
    MulOrder(m, b + 1, bs);
    MulOrder(b, m, bs);
    if k > b { MulGap(b, k, bs); }
    if b >= m { Distribute(m, bs); MulOrder(m, b, bs); }
  }

  /** What stays of an item lies inside it, in normal form, and holds no whole block. */
  lemma CarveRest(item: Region, bs: nat)
    requires bs > 0 && item.len > 0
    ensures Normal(RestOf(item, bs))
    ensures forall i :: 0 <= i < |RestOf(item, bs)| ==> var r := RestOf(item, bs)[i];
            r.len > 0 && item.pos <= r.pos && End(r) <= End(item)
    ensures forall i, b :: 0 <= i < |RestOf(item, bs)| ==> !Whole(RestOf(item, bs)[i], bs, b)
  {
    hide RunOf, FrontMargin, Pieces, Normal;
    var k, m := Boundaries(item, bs);
    if HasBlock(item, bs) {
      RestPieces(item, bs, k, m);
      MulOrder(k, m, bs);
      PiecesFacts(item, k * bs, m * bs, 0);
      forall i, b | 0 <= i < |RestOf(item, bs)| ensures !Whole(RestOf(item, bs)[i], bs, b) {
        Distribute(b, bs);
      }
    } else {
      NormalOne(item);
      forall b ensures !Whole(item, bs, b) { CarveWhole(item, bs, b); }
    }
  }

  lemma NormalOne(item: Region)
    ensures Normal([item])
  {
  }

  // ----- the whole tree -----

  lemma InRunsConcat(a: seq<Run>, b: seq<Run>, bs: nat, x: int)
    ensures InRuns(a + b, bs, x) <==> InRuns(a, bs, x) || InRuns(b, bs, x)
  {
    hide InRun;
    if InRuns(a, bs, x) {
      var i :| 0 <= i < |a| && InRun(a[i], bs, x);
      assert InRun((a + b)[i], bs, x);
    }
    if InRuns(b, bs, x) {
      var i :| 0 <= i < |b| && InRun(b[i], bs, x);
      assert InRun((a + b)[|a| + i], bs, x);
    }
  }

  lemma InRunsOne(r: Run, bs: nat, x: int)
    ensures InRuns([r], bs, x) <==> InRun(r, bs, x)
  {
    assert [r][0] == r;
  }

  lemma Snoc(items: seq<Region>, x: int)
    requires items != [] && Normal(items)
    ensures var init, last := items[..|items| - 1], items[|items| - 1];
            && Normal(init) && (Covers(items, x) <==> Covers(init, x) || In(last, x))
               && !(Covers(init, x) && In(last, x))
  {
    var init, last := items[..|items| - 1], items[|items| - 1];
    assert items == init + [last];
    CoversConcat(init, [last], x);
    CoversOne(last, x);
  }

  /** Extraction conserves bytes: the stale bytes are the disjoint union of the returned
      blocks and the remaining items. */
  lemma {:induction false} ExtractBytes(items: seq<Region>, bs: nat, x: int)
    requires bs > 0 && Normal(items)
    ensures Covers(items, x) <==> Covers(Rests(items, bs), x) || InRuns(Runs(items, bs), bs, x)
    ensures !(Covers(Rests(items, bs), x) && InRuns(Runs(items, bs), bs, x))
    decreases items
  {
    hide Covers, InRuns, InRun, Normal, RestOf, RunOf, HasBlock;
    if items == [] {
      NothingCovered(bs, x);
    } else {
      var init, last := items[..|items| - 1], items[|items| - 1];
      Snoc(items, x);
      ExtractBytes(init, bs, x);
      CarveBytes(last, bs, x);
      CoversConcat(Rests(init, bs), RestOf(last, bs), x);
      var run := if HasBlock(last, bs) then [RunOf(last, bs)] else [];
      InRunsConcat(Runs(init, bs), run, bs, x);
      if HasBlock(last, bs) { InRunsOne(RunOf(last, bs), bs, x); } else { NothingCovered(bs, x); }
    }
  }

  lemma NothingCovered(bs: nat, x: int)
    ensures !Covers([], x) && !InRuns([], bs, x)
  {
  }

  /** Every remaining and every returned part lies inside the tree's span, the remaining
      items are in normal form and nonempty, and none holds a whole block. */
  lemma {:induction false} ExtractRests(items: seq<Region>, bs: nat)
    requires bs > 0 && Normal(items) && forall i :: 0 <= i < |items| ==> items[i].len > 0
    ensures Normal(Rests(items, bs))
    ensures forall i :: 0 <= i < |Rests(items, bs)| ==>
              items != [] && Rests(items, bs)[i].len > 0 && End(Rests(items, bs)[i]) <= End(items[|items| - 1])
    ensures forall i, b :: 0 <= i < |Rests(items, bs)| ==> !Whole(Rests(items, bs)[i], bs, b)
    decreases items
  {
    hide RestOf, Whole;
    if items != [] {
      var init, last := items[..|items| - 1], items[|items| - 1];
      ExtractRests(init, bs);
      CarveRest(last, bs);
      NormalConcat(Rests(init, bs), RestOf(last, bs));
      RestsStep(items, bs);
    }
  }

  lemma RestsStep(items: seq<Region>, bs: nat)
    requires bs > 0 && items != []
    ensures Rests(items, bs) == Rests(items[..|items| - 1], bs) + RestOf(items[|items| - 1], bs)
  {
  }

  ghost function RunEnd(r: Run, bs: nat): int {
    (r.bid + r.count) * bs
  }

  /** The returned runs ascend and never touch. */
  ghost predicate RunsApart(rs: seq<Run>) {
    forall i, j :: 0 <= i < j < |rs| ==> rs[i].bid + rs[i].count < rs[j].bid
  }

  ghost predicate RunsWithin(rs: seq<Run>, bs: nat, end: int) {
    forall i :: 0 <= i < |rs| ==> rs[i].count > 0 && RunEnd(rs[i], bs) <= end
  }

  /** A run behind the others. */
  lemma RunsPut(rs: seq<Run>, run: Run, bs: nat, end: int)
    requires bs > 0 && RunsApart(rs) && RunsWithin(rs, bs, end) && end < run.bid * bs && run.count > 0
    ensures RunsApart(rs + [run]) && RunsWithin(rs + [run], bs, RunEnd(run, bs))
  {
    hide RunEnd;
    EndOfRun(run, bs);
    MulMono(run.bid, run.bid + run.count, bs);
    forall i | 0 <= i < |rs| ensures rs[i].bid + rs[i].count < run.bid {
      EndOfRun(rs[i], bs);
      MulOrder(rs[i].bid + rs[i].count, run.bid, bs);
    }
  }

  lemma RunsWiden(rs: seq<Run>, bs: nat, end: int, end': int)
    requires RunsWithin(rs, bs, end) && end <= end'
    ensures RunsWithin(rs, bs, end')
  {
    hide RunEnd;
  }

  /** The runs are in order, not empty and not adjacent, and lie inside the items. */
  lemma {:induction false} ExtractRuns(items: seq<Region>, bs: nat)
    requires bs > 0 && Normal(items)
    ensures RunsApart(Runs(items, bs))
    ensures items == [] ==> Runs(items, bs) == []
    ensures items != [] ==> RunsWithin(Runs(items, bs), bs, End(items[|items| - 1]))
    decreases items
  {
    hide HasBlock, RunOf, RunEnd, RunsApart, RunsWithin, Runs;
    if items == [] {
      ExtractStart(bs);
      NoRuns(bs, 0);
    } else {
      var init, last := items[..|items| - 1], items[|items| - 1];
      NormalLast(items);
      ExtractRuns(init, bs);
      ExtractStep(items, bs);
      var end := if init == [] then last.pos - 1 else End(init[|init| - 1]);
      NoRuns(bs, end);
      if HasBlock(last, bs) {
        RunInside(last, bs);
        RunsPut(Runs(init, bs), RunOf(last, bs), bs, end);
        RunsWiden(Runs(items, bs), bs, RunEnd(RunOf(last, bs), bs), End(last));
      } else {
        assert Runs(items, bs) == Runs(init, bs);
        RunsWiden(Runs(items, bs), bs, end, End(last));
      }
    }
  }

  lemma NoRuns(bs: nat, end: int)
    ensures RunsApart([]) && RunsWithin([], bs, end)
  {
  }

  /** A carved run lies inside its item. */
  lemma RunInside(item: Region, bs: nat)
    requires bs > 0 && HasBlock(item, bs)
    ensures var run := RunOf(item, bs); run.count > 0 && item.pos <= run.bid * bs && RunEnd(run, bs) <= End(item)
  {
    hide HasBlock, RunOf;
    var k, m := Boundaries(item, bs);
    MulOrder(k, m, bs);
  }

  lemma EndOfRun(r: Run, bs: nat)
    ensures RunEnd(r, bs) == (r.bid + r.count) * bs
  {
  }

  /** A span of stale bytes lies in a single item. */
  lemma OneItem(items: seq<Region>, a: int, b: int)
    requires Normal(items) && a < b && forall x :: a <= x < b ==> Covers(items, x)
    ensures exists i :: 0 <= i < |items| && items[i].pos <= a && b <= End(items[i])
  {
    assert Covers(items, a);
    var i :| 0 <= i < |items| && In(items[i], a);
    GapBehind(items, i);
    assert b <= End(items[i]);
  }

  /** The byte behind an item is not stale. */
  lemma GapBehind(items: seq<Region>, i: nat)
    requires Normal(items) && i < |items|
    ensures !Covers(items, End(items[i]))
  {
    forall j | 0 <= j < |items| ensures !In(items[j], End(items[i])) {}
  }

  ghost predicate Returned(rs: seq<Run>, b: int) {
    exists i :: 0 <= i < |rs| && rs[i].bid <= b < rs[i].bid + rs[i].count
  }

  lemma {:induction false} RunsWhole(items: seq<Region>, bs: nat, b: int)
    requires bs > 0
    ensures Returned(Runs(items, bs), b) <==> exists i :: 0 <= i < |items| && Whole(items[i], bs, b)
    decreases items
  {
    hide HasBlock, RunOf, Whole;
    if items != [] {
      var init, last := items[..|items| - 1], items[|items| - 1];
      RunsWhole(init, bs, b);
      CarveWhole(last, bs, b);
      assert forall i :: 0 <= i < |init| ==> items[i] == init[i];
      ReturnedStep(items, bs, b);
    }
  }

  lemma ReturnedStep(items: seq<Region>, bs: nat, b: int)
    requires bs > 0 && items != []
    ensures var init, last := items[..|items| - 1], items[|items| - 1];
            Returned(Runs(items, bs), b) <==>
                  Returned(Runs(init, bs), b)
                  || (HasBlock(last, bs) && RunOf(last, bs).bid <= b < RunOf(last, bs).bid + RunOf(last, bs).count)
  {
    hide HasBlock, RunOf;
    var init, last := items[..|items| - 1], items[|items| - 1];
    var rs, r0 := Runs(items, bs), Runs(init, bs);
    if Returned(r0, b) {
      var i :| 0 <= i < |r0| && r0[i].bid <= b < r0[i].bid + r0[i].count;
      assert rs[i] == r0[i];
    }
    if HasBlock(last, bs) {
      assert rs[|r0|] == RunOf(last, bs);
    }
  }

  /** A block is returned exactly when all its bytes are stale. */
  lemma ExtractWhole(items: seq<Region>, bs: nat, b: int)
    requires bs > 0 && Normal(items)
    ensures Returned(Runs(items, bs), b) <==> forall x :: b * bs <= x < (b + 1) * bs ==> Covers(items, x)
  {
    hide Runs, Returned;
    RunsWhole(items, bs, b);
    Distribute(b, bs);
    if forall x :: b * bs <= x < (b + 1) * bs ==> Covers(items, x) {
      OneItem(items, b * bs, (b + 1) * bs);
    }
  }

  // ----- the tree as an object -----

  /** The merge tree of a file. */
  class MergeTree {
    var items: seq<Region>

    constructor ()
      ensures items == []
    {
      items := [];
    }

    /** `_insert_n_merge` */
    method InsertMerge(pos: int, len: nat)
      requires Sorted(items)
      modifies this
      ensures items == Merged(old(items), pos, len)
    {
      hide Joined, Sorted;
      var i := Place(pos, len);
      JoinAround(i);
    }

    /** The item for the new region: the one at the same position, made long enough, or a
        new one. */
    method Place(pos: int, len: nat) returns (i: nat)
      modifies this
      ensures i < |items| && Merged(old(items), pos, len) == Joined(items[..i], items[i], items[i + 1..], false)
    {
      hide Joined;
      i := Rank(items, pos);
      ghost var old_ := items;
      if i < |items| && items[i].pos == pos {
        if items[i].len < len {
          items := items[i := Region(pos, len)];
        }
        assert items[i] == Region(pos, if old_[i].len < len then len else old_[i].len);
        assert items[..i] == old_[..i] && items[i + 1..] == old_[i + 1..];
      } else {
        items := items[..i] + [Region(pos, len)] + items[i..];
        assert items[..i] == old_[..i] && items[i + 1..] == old_[i..];
      }
    }

    /** Merging the item with its neighbours. */
    method JoinAround(at: nat)
      requires at < |items|
      modifies this
      ensures items == Joined(old(items)[..at], old(items)[at], old(items)[at + 1..], false)
    {
      hide Grow;
      var i := at;
      ghost var left, item, right := items[..i], items[i], items[i + 1..];
      assert i > 0 ==> left[|left| - 1] == items[i - 1] && left[..|left| - 1] == items[..i - 1];
      if i > 0 && End(items[i - 1]) >= items[i].pos {
        items := items[..i - 1] + [Grow(items[i - 1], items[i], false)] + items[i + 1..];
        i := i - 1;
      }
      assert items[i + 1..] == right;
      if i + 1 < |items| && End(items[i]) >= items[i + 1].pos {
        assert items[i + 1] == right[0] && items[i + 2..] == right[1..];
        items := items[..i] + [Grow(items[i], items[i + 1], false)] + items[i + 2..];
      }
    }

    /** The extraction loop of `fdb_get_reusable_block`. */
    method Extract(bs: nat) returns (blocks: seq<Run>)
      requires bs > 0
      modifies this
      ensures blocks == Runs(old(items), bs) && items == Rests(old(items), bs)
    {
      hide HasBlock, RunOf, RestOf, Runs, Rests;
      blocks := [];
      ghost var all := items;
      var i := 0;
      ghost var k := 0;
      ExtractStart(bs);
      while i < |items|
        invariant 0 <= k <= |all| && 0 <= i <= |items| && items[..i] == Rests(all[..k], bs) && items[i..] == all[k..]
                  && blocks == Runs(all[..k], bs)
        decreases |all| - k
      {
        var item := items[i];
        assert item == all[k] && all[..k + 1][..k] == all[..k] && all[..k + 1][k] == all[k];
        ExtractStep(all[..k + 1], bs);
        ghost var tail := items[i + 1..];
        assert tail == all[k + 1..];
        var rest := RestOf(item, bs);
        if HasBlock(item, bs) {
          blocks := blocks + [RunOf(item, bs)];
        } else {
          Untouched(item, bs);
        }
        items := items[..i] + rest + items[i + 1..];
        i := i + |rest|;
        k := k + 1;
        assert items[i..] == tail;
      }
      assert all[..k] == all;
    }
  }

  lemma ExtractStart(bs: nat)
    requires bs > 0
    ensures Runs([], bs) == [] && Rests([], bs) == []
  {
  }

  lemma ExtractStep(items: seq<Region>, bs: nat)
    requires bs > 0 && items != []
    ensures var init, last := items[..|items| - 1], items[|items| - 1];
            && Runs(items, bs) == Runs(init, bs) + (if HasBlock(last, bs) then [RunOf(last, bs)] else [])
            && Rests(items, bs) == Rests(init, bs) + RestOf(last, bs)
  {
  }

  lemma Untouched(item: Region, bs: nat)
    requires bs > 0 && !HasBlock(item, bs)
    ensures RestOf(item, bs) == [item]
  {
  }
}
