/** The cross-shard flush of the block cache (`_flush_dirty_blocks` in src/blockcache.cc)
    with direct I/O, sync and flush_all: the dirty blocks of all shards are merged into
    one ascending stream and written in batches of consecutive blocks. */
module CacheFlush {
  import opened Arith
  import opened Options
  import opened Sets
  import opened CacheBlock

  datatype Dirty = Dirty(bid: int, data: Bytes)

  /** One write: the blocks from bid start on. */
  datatype Batch = Batch(start: int, blocks: seq<Bytes>)

  /** The blocks of one shard's tree, in order. */
  type Tree = seq<Dirty>

  ghost predicate Ascending(t: Tree) {
    forall i, j :: 0 <= i < j < |t| ==> t[i].bid < t[j].bid
  }

  /** Every tree is in order and holds only the blocks of its shard. */
  ghost predicate Sharded(ts: seq<Tree>) {
    && |ts| > 0
    && (forall s :: 0 <= s < |ts| ==> Ascending(ts[s]))
    && (forall s, i :: 0 <= s < |ts| && 0 <= i < |ts[s]| ==> ts[s][i].bid % |ts| == s)
  }

  ghost predicate Has(ts: seq<Tree>, d: Dirty) {
    exists s :: 0 <= s < |ts| && d in ts[s]
  }

  // ----- batches -----

  /** The writes a run of buffered blocks stands for. */
  ghost function Expand(start: int, blocks: seq<Bytes>): seq<Dirty> {
    seq(|blocks|, i requires 0 <= i < |blocks| => Dirty(start + i, blocks[i]))
  }

  ghost function ExpandAll(bs: seq<Batch>): seq<Dirty> {
    if bs == [] then [] else ExpandAll(bs[..|bs| - 1]) + Expand(bs[|bs| - 1].start, bs[|bs| - 1].blocks)
  }

  /** The buffer being filled: its first bid, the last bid, the blocks, and what is
      written already. */
  datatype Filler = Filler(written: seq<Batch>, start: Option<int>, prev: Option<int>, buf: seq<Bytes>)

  ghost predicate BatchesFit(bs: seq<Batch>, size: nat, unit: nat) {
    forall i :: 0 <= i < |bs| ==> 0 < |bs[i].blocks| && |bs[i].blocks| * size <= unit
  }

  ghost predicate Full(b: Batch, size: nat, unit: nat) {
    |b.blocks| * size >= unit
  }

  /** A batch that is not full is followed by a gap. */
  ghost predicate Tight(bs: seq<Batch>, size: nat, unit: nat) {
    forall i :: 0 <= i < |bs| - 1 ==> Full(bs[i], size, unit) || bs[i + 1].start != bs[i].start + |bs[i].blocks|
  }

  ghost predicate FillerOk(f: Filler, size: nat, unit: nat) {
    && BatchesFit(f.written, size, unit)
    && Tight(f.written, size, unit)
    && (f.written != [] ==>
          var b := f.written[|f.written| - 1];
          Full(b, size, unit) || (f.start.Some? && f.start.value != b.start + |b.blocks|))
    && |f.buf| * size < unit
    && (f.buf != [] ==> f.start.Some? && f.prev == Some(f.start.value + |f.buf| - 1))
    && (f.buf == [] ==> f.start.None? && f.prev.None?)
  }

  /** All blocks pushed so far, in order. */
  ghost function Pushed(f: Filler): seq<Dirty> {
    ExpandAll(f.written) + if f.buf == [] || f.start.None? then [] else Expand(f.start.value, f.buf)
  }

  lemma ExpandPut(bs: seq<Batch>, b: Batch)
    ensures ExpandAll(bs + [b]) == ExpandAll(bs) + Expand(b.start, b.blocks)
  {
    assert (bs + [b])[..|bs|] == bs;
  }

  lemma ExpandSnoc(start: int, blocks: seq<Bytes>, data: Bytes)
    ensures Expand(start, blocks + [data]) == Expand(start, blocks) + [Dirty(start + |blocks|, data)]
  {
  }

  /** The part of the loop body that fills the buffer and writes full or interrupted
      batches. */
  method Push(f: Filler, bid: int, data: Bytes, size: nat, unit: nat) returns (r: Filler)
    requires FillerOk(f, size, unit) && size > 0 && unit > 0 && unit % size == 0
    ensures FillerOk(r, size, unit) && Pushed(r) == Pushed(f) + [Dirty(bid, data)]
  {
    hide ExpandAll, Expand, Full, Tight, BatchesFit;
    var consecutive := f.prev.None? || bid == f.prev.value + 1;
    var written, start, buf := f.written, f.start, f.buf;
    if start.None? {
      start := Some(bid);
    }
    if |buf| > 0 && !consecutive {
      ExpandPut(written, Batch(start.value, buf));
      BatchPut(written, Batch(start.value, buf), size, unit);
      written := written + [Batch(start.value, buf)];
      buf := [];
      start := Some(bid);
    }
    NothingBuffered(start.value);
    ExpandSnoc(start.value, buf, data);
    OneMore(|buf|, size, unit);
    ghost var before := Filler(written, start, f.prev, buf);
    assert Pushed(before) == Pushed(f);
    buf := buf + [data];
    if |buf| * size >= unit {
      ExpandPut(written, Batch(start.value, buf));
      FullIs(Batch(start.value, buf), size, unit);
      BatchPut(written, Batch(start.value, buf), size, unit);
      r := Filler(written + [Batch(start.value, buf)], None, None, []);
    } else {
      r := Filler(written, start, Some(bid), buf);
    }
  }

  lemma BatchPut(bs: seq<Batch>, b: Batch, size: nat, unit: nat)
    requires BatchesFit(bs, size, unit) && Tight(bs, size, unit) && 0 < |b.blocks| && |b.blocks| * size <= unit
    requires bs != [] ==> var c := bs[|bs| - 1]; Full(c, size, unit) || b.start != c.start + |c.blocks|
    ensures BatchesFit(bs + [b], size, unit) && Tight(bs + [b], size, unit)
  {
    hide Full;
  }

  lemma FullIs(b: Batch, size: nat, unit: nat)
    ensures Full(b, size, unit) <==> |b.blocks| * size >= unit
  {
  }

  lemma NothingBuffered(start: int)
    ensures Expand(start, []) == []
  {
  }

  /** A buffer of whole blocks that is not full has room for one more. */
  lemma OneMore(n: nat, size: nat, unit: nat)
    requires size > 0 && unit % size == 0 && n * size < unit
    ensures (n + 1) * size <= unit
  {
    var q := unit / size;
    assert unit == q * size;
    if q <= n { MulMono(q, n, size); }
    if n + 1 <= q { MulMono(n + 1, q, size); }
  }

  // ----- merging the shards -----

  /** The first block of every shard that has one. */
  ghost predicate HeadsOf(heads: set<int>, ts: seq<Tree>) {
    && (forall s :: 0 <= s < |ts| && ts[s] != [] ==> ts[s][0].bid in heads)
    && (forall b :: b in heads ==> exists s :: 0 <= s < |ts| && ts[s] != [] && ts[s][0].bid == b)
  }

  /** The scan over all shards that refills the cross-shard list. */
  method Load(ts: seq<Tree>) returns (heads: set<int>)
    ensures HeadsOf(heads, ts)
  {
    heads := {};
    for i := 0 to |ts|
      invariant forall s :: 0 <= s < i && ts[s] != [] ==> ts[s][0].bid in heads
      invariant forall b :: b in heads ==> exists s :: 0 <= s < |ts| && ts[s] != [] && ts[s][0].bid == b
    {
      if ts[i] != [] {
        heads := heads + {ts[i][0].bid};
      }
    }
  }

  ghost function Total(ts: seq<Tree>): nat {
    if ts == [] then 0 else Total(ts[..|ts| - 1]) + |ts[|ts| - 1]|
  }

  lemma {:induction false} TotalDrop(ts: seq<Tree>, s: nat)
    requires s < |ts| && ts[s] != []
    ensures Total(ts[s := ts[s][1..]]) == Total(ts) - 1
    decreases ts
  {
    var ts' := ts[s := ts[s][1..]];
    if s == |ts| - 1 {
      assert ts'[..|ts| - 1] == ts[..|ts| - 1];
    } else {
      TotalDrop(ts[..|ts| - 1], s);
      assert ts'[..|ts| - 1] == ts[..|ts| - 1][s := ts[s][1..]];
    }
  }

  /** Everything written so far comes before everything left, and together they are the
      blocks there were. */
  ghost predicate Merging(all: seq<Tree>, done: seq<Dirty>, ts: seq<Tree>) {
    && Sharded(ts)
    && Ascending(done)
    && (forall i, s, j :: 0 <= i < |done| && 0 <= s < |ts| && 0 <= j < |ts[s]| ==> done[i].bid < ts[s][j].bid)
    && (forall d :: Has(all, d) <==> d in done || Has(ts, d))
  }

  /** The least head is the first block of its own shard and precedes all other blocks. */
  lemma LeastHead(heads: set<int>, ts: seq<Tree>, b: int)
    requires Sharded(ts) && HeadsOf(heads, ts) && b in heads && forall x :: x in heads ==> b <= x
    ensures var s := b % |ts|; ts[s] != [] && ts[s][0].bid == b
    ensures forall s, j :: 0 <= s < |ts| && 0 <= j < |ts[s]| ==> b <= ts[s][j].bid
    ensures forall s, j :: 0 <= s < |ts| && 0 <= j < |ts[s]| && (s != b % |ts| || j > 0) ==> b < ts[s][j].bid
  {
    var s0 :| 0 <= s0 < |ts| && ts[s0] != [] && ts[s0][0].bid == b;
    assert ts[s0][0].bid % |ts| == s0;
    forall s, j | 0 <= s < |ts| && 0 <= j < |ts[s]| ensures b <= ts[s][j].bid
        && (s != s0 || j > 0 ==> b < ts[s][j].bid) {
      assert ts[s][0].bid in heads && ts[s][0].bid <= ts[s][j].bid;
      assert ts[s][j].bid % |ts| == s;
    }
  }

  lemma TakeMerging(all: seq<Tree>, done: seq<Dirty>, ts: seq<Tree>, s: nat)
    requires Merging(all, done, ts) && s < |ts| && ts[s] != []
    requires forall k, j :: 0 <= k < |ts| && 0 <= j < |ts[k]| && (k != s || j > 0) ==> ts[s][0].bid < ts[k][j].bid
    ensures Merging(all, done + [ts[s][0]], ts[s := ts[s][1..]])
  {
    hide Has;
    var ts', d0 := ts[s := ts[s][1..]], ts[s][0];
    TakeSharded(ts, s);
    forall d ensures Has(ts, d) <==> d == d0 || Has(ts', d) { TakeHas(ts, s, d); }
    forall k, j | 0 <= k < |ts'| && 0 <= j < |ts'[k]|
      ensures d0.bid < ts'[k][j].bid && forall i :: 0 <= i < |done| ==> done[i].bid < ts'[k][j].bid
    {
      assert ts'[k][j] == if k == s then ts[k][j + 1] else ts[k][j];
    }
    assert forall i :: 0 <= i < |done| ==> done[i].bid < ts[s][0].bid;
  }

  lemma TakeSharded(ts: seq<Tree>, s: nat)
    requires Sharded(ts) && s < |ts| && ts[s] != []
    ensures Sharded(ts[s := ts[s][1..]])
  {
  }

  lemma TakeHas(ts: seq<Tree>, s: nat, d: Dirty)
    requires s < |ts| && ts[s] != []
    ensures Has(ts, d) <==> d == ts[s][0] || Has(ts[s := ts[s][1..]], d)
  {
    var ts' := ts[s := ts[s][1..]];
    assert ts[s] == [ts[s][0]] + ts[s][1..];
    if Has(ts, d) {
      var k :| 0 <= k < |ts| && d in ts[k];
      assert d == ts[s][0] || d in ts'[k];
    }
    if Has(ts', d) {
      var k :| 0 <= k < |ts'| && d in ts'[k];
      assert d in ts[k];
    }
    assert ts[s][0] in ts[s];
  }

  /** After the least head was taken its shard's next block takes its place. */
  lemma HeadsStep(heads: set<int>, ts: seq<Tree>, b: int)
    requires Sharded(ts) && HeadsOf(heads, ts) && b in heads && ts[b % |ts|] != [] && ts[b % |ts|][0].bid == b
    ensures var s := b % |ts|; HeadsOf(heads - {b} + (if |ts[s]| > 1 then {ts[s][1].bid} else {}), ts[s := ts[s][1..]])
  {
    var s := b % |ts|;
    var ts': seq<Tree> := ts[s := ts[s][1..]];
    var heads' := heads - {b} + if |ts[s]| > 1 then {ts[s][1].bid} else {};
    forall k | 0 <= k < |ts'| && ts'[k] != [] ensures ts'[k][0].bid in heads' {
      assert ts'[k][0] == if k == s then ts[s][1] else ts[k][0];
      assert k != s ==> ts[k][0].bid % |ts| == k;
    }
    forall x | x in heads' ensures exists k :: 0 <= k < |ts'| && ts'[k] != [] && ts'[k][0].bid == x {
      if x in heads && x != b {
        var k :| 0 <= k < |ts| && ts[k] != [] && ts[k][0].bid == x;
        assert k != s && ts'[k] == ts[k];
      } else {
        assert ts'[s][0].bid == x;
      }
    }
  }

  ghost function Stamped(ds: seq<Dirty>): seq<Dirty> {
    seq(|ds|, i requires 0 <= i < |ds| => Dirty(ds[i].bid, Stamp(ds[i].data)))
  }

  lemma StampedPut(ds: seq<Dirty>, d: Dirty)
    ensures Stamped(ds + [d]) == Stamped(ds) + [Dirty(d.bid, Stamp(d.data))]
  {
  }

  lemma StartMerging(ts: seq<Tree>)
    requires Sharded(ts)
    ensures Merging(ts, [], ts)
  {
  }

  /** With nothing left, what was written is what there was. */
  lemma MergingDone(all: seq<Tree>, done: seq<Dirty>, ts: seq<Tree>, heads: set<int>)
    requires Merging(all, done, ts) && HeadsOf(heads, ts) && heads == {}
    ensures Ascending(done) && forall d :: Has(all, d) <==> d in done
  {
    assert forall s :: 0 <= s < |ts| ==> ts[s] == [];
  }

  /** One pass: all data trees, or all index trees. */
  method Pass(trees: seq<Tree>, f0: Filler, size: nat, unit: nat) returns (f: Filler, ghost done: seq<Dirty>)
    requires Sharded(trees) && FillerOk(f0, size, unit) && size > 0 && unit > 0 && unit % size == 0
    ensures FillerOk(f, size, unit) && Pushed(f) == Pushed(f0) + Stamped(done)
    ensures Ascending(done) && forall d :: Has(trees, d) <==> d in done
  {
    hide Sharded, HeadsOf, Merging, FillerOk, Pushed, Stamped, Has, Ascending, Stamp;
    var ts := trees;
    f, done := f0, [];
    NoneStamped();
    StartMerging(ts);
    var heads := Load(ts);
    MergeSharded(trees, done, ts);
    while heads != {}
      invariant Merging(trees, done, ts) && HeadsOf(heads, ts) && |ts| == |trees|
      invariant FillerOk(f, size, unit) && Pushed(f) == Pushed(f0) + Stamped(done)
      decreases Total(ts)
    {
      MergeSharded(trees, done, ts);
      LeastExists(heads);
      var b :| b in heads && forall x :: x in heads ==> b <= x;
      LeastHead(heads, ts, b);
      var s := b % |ts|;
      var block := ts[s][0];
      HeadsStep(heads, ts, b);
      TakeMerging(trees, done, ts, s);
      TotalDrop(ts, s);
      heads := heads - {b};
      if |ts[s]| > 1 {
        heads := heads + {ts[s][1].bid};
      } else {
        assert heads + {} == heads;
      }
      ts := ts[s := ts[s][1..]];
      StampedPut(done, block);
      f := Push(f, block.bid, Stamp(block.data), size, unit);
      done := done + [block];
    }
    MergingDone(trees, done, ts, heads);
  }

  lemma NoneStamped()
    ensures Stamped([]) == []
  {
  }

  lemma MergeSharded(all: seq<Tree>, done: seq<Dirty>, ts: seq<Tree>)
    requires Merging(all, done, ts)
    ensures Sharded(ts) && |ts| > 0
  {
  }

  /** Every dirty block is written exactly once at its own place, data blocks before index
      blocks, each in ascending order, in batches of consecutive blocks that fit into the
      buffer. */
  method FlushAll(data: seq<Tree>, index: seq<Tree>, size: nat, unit: nat)
    returns (batches: seq<Batch>, ghost dataOrder: seq<Dirty>, ghost indexOrder: seq<Dirty>)
    requires Sharded(data) && Sharded(index) && size > 0 && unit > 0 && unit % size == 0
    ensures ExpandAll(batches) == Stamped(dataOrder) + Stamped(indexOrder)
    ensures Ascending(dataOrder) && (forall d :: Has(data, d) <==> d in dataOrder)
    ensures Ascending(indexOrder) && (forall d :: Has(index, d) <==> d in indexOrder)
    ensures BatchesFit(batches, size, unit) && Tight(batches, size, unit)
  {
    hide Sharded, Stamped, Has, Ascending, ExpandAll, Expand;
    var f := Filler([], None, None, []);
    NoBatches();
    assert Pushed(f) == [];
    f, dataOrder := Pass(data, f, size, unit);
    assert Pushed(f) == Stamped(dataOrder);
    f, indexOrder := Pass(index, f, size, unit);
    batches := f.written;
    assert f.buf == [] ==> Pushed(f) == ExpandAll(batches);
    if |f.buf| > 0 {
      ExpandPut(batches, Batch(f.start.value, f.buf));
      batches := batches + [Batch(f.start.value, f.buf)];
    }
  }

  lemma NoBatches()
    ensures ExpandAll([]) == []
  {
  }
}
