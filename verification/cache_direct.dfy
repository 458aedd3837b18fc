/** The batches of a direct-I/O flush and the block-by-block flush leave the same disk
    (src/blockcache.cc). */
module CacheDirect {
  import opened CacheBlock
  import opened CacheState
  import opened CacheStep
  import opened CacheFlush
  import opened Cache

  /** The disk after the blocks were written to file f in order. */
  ghost function WriteAll(disk: map<Key, Bytes>, f: int, ds: seq<Dirty>): map<Key, Bytes> {
    if ds == [] then disk
    else WriteAll(disk, f, ds[..|ds| - 1])[Key(f, ds[|ds| - 1].bid) := ds[|ds| - 1].data]
  }

  ghost predicate Names(f: int, ds: seq<Dirty>, k: Key) {
    exists i :: 0 <= i < |ds| && k == Key(f, ds[i].bid)
  }

  /** Blocks that are written as wanted, in whatever order and however often. */
  lemma {:induction false} WriteAllIs(disk: map<Key, Bytes>, f: int, ds: seq<Dirty>, want: map<Key, Bytes>)
    requires forall i :: 0 <= i < |ds| ==> Key(f, ds[i].bid) in want && want[Key(f, ds[i].bid)] == ds[i].data
    ensures forall k :: k in WriteAll(disk, f, ds) <==> k in disk || Names(f, ds, k)
    ensures forall k :: k in WriteAll(disk, f, ds) ==>
              (if Names(f, ds, k) then k in want && WriteAll(disk, f, ds)[k] == want[k]
               else WriteAll(disk, f, ds)[k] == disk[k])
    decreases ds
  {
    if ds != [] {
      var init, last := ds[..|ds| - 1], ds[|ds| - 1];
      WriteAllIs(disk, f, init, want);
      forall k ensures Names(f, ds, k) <==> Names(f, init, k) || k == Key(f, last.bid) {
        if Names(f, init, k) {
          var i :| 0 <= i < |init| && k == Key(f, init[i].bid);
          assert k == Key(f, ds[i].bid);
        }
        if Names(f, ds, k) {
          var i :| 0 <= i < |ds| && k == Key(f, ds[i].bid);
          assert i < |init| ==> k == Key(f, init[i].bid);
        }
      }
    }
  }

  /** The trees of a file's shards hold its dirty blocks among ks with their bytes. */
  ghost predicate TreesOf(ts: seq<Tree>, s: State, ks: set<Key>, f: int) {
    && Sharded(ts)
    && forall d :: Has(ts, d) <==>
         Key(f, d.bid) in ks && Cached(s, Key(f, d.bid)) && d.data == s.items[s.hash[Key(f, d.bid)]].data
  }

  /** The two streams of a flush name exactly the dirty blocks, with their stamped bytes. */
  lemma StreamIs(s: State, f: int, data: seq<Tree>, index: seq<Tree>, a: seq<Dirty>, b: seq<Dirty>)
    requires TreesOf(data, s, s.data, f) && TreesOf(index, s, s.index, f)
    requires (forall d :: Has(data, d) <==> d in a) && (forall d :: Has(index, d) <==> d in b)
    ensures WriteAll(s.disk, f, CacheFlush.Stamped(a) + CacheFlush.Stamped(b)) == s.disk + FileDirty(s, f)
  {
    hide Has, Sharded, WriteAll, Names, Stamp;
    var ds, want := CacheFlush.Stamped(a) + CacheFlush.Stamped(b), FileDirty(s, f);
    forall i | 0 <= i < |ds| ensures Key(f, ds[i].bid) in want && want[Key(f, ds[i].bid)] == ds[i].data {
      var d := if i < |a| then a[i] else b[i - |a|];
      assert d in a || d in b;
      assert ds[i] == Dirty(d.bid, Stamp(d.data));
    }
    forall k ensures Names(f, ds, k) <==> k in want {
      StreamNames(s, f, data, index, a, b, k);
    }
    WriteAllIs(s.disk, f, ds, want);
  }

  lemma StreamNames(s: State, f: int, data: seq<Tree>, index: seq<Tree>, a: seq<Dirty>, b: seq<Dirty>, k: Key)
    requires TreesOf(data, s, s.data, f) && TreesOf(index, s, s.index, f)
    requires (forall d :: Has(data, d) <==> d in a) && (forall d :: Has(index, d) <==> d in b)
    ensures Names(f, CacheFlush.Stamped(a) + CacheFlush.Stamped(b), k) <==> k in FileDirty(s, f)
  {
    hide Has, Sharded, Stamp;
    var ds := CacheFlush.Stamped(a) + CacheFlush.Stamped(b);
    if k in FileDirty(s, f) {
      var d := Dirty(k.bid, s.items[s.hash[k]].data);
      assert k == Key(f, d.bid);
      assert d in a || d in b;
      if d in a {
        var i :| 0 <= i < |a| && a[i] == d;
        assert ds[i].bid == k.bid;
      } else {
        var i :| 0 <= i < |b| && b[i] == d;
        assert ds[|a| + i].bid == k.bid;
      }
    }
    if Names(f, ds, k) {
      var i :| 0 <= i < |ds| && k == Key(f, ds[i].bid);
      var d := if i < |a| then a[i] else b[i - |a|];
      assert d in a || d in b;
    }
  }

  /** Writing the batches of the merged shards leaves the disk that flushing the blocks one
      by one leaves.  First come, in order, the blocks that did not become dirty as index
      nodes, then those that did, and a batch ends only where it is full or at a gap. */
  method FlushBoth(c: BlockCache, f: int, data: seq<Tree>, index: seq<Tree>)
    returns (batches: seq<Batch>, ghost a: seq<Dirty>, ghost b: seq<Dirty>)
    requires c.Valid() && TreesOf(data, c.s, c.s.data, f) && TreesOf(index, c.s, c.s.index, f)
    requires c.size > 0 && c.unit > 0 && c.unit % c.size == 0
    modifies c
    ensures c.Valid() && BatchesFit(batches, c.size, c.unit) && Tight(batches, c.size, c.unit)
    ensures WriteAll(old(c.s).disk, f, ExpandAll(batches)) == old(c.s).disk + FileDirty(old(c.s), f) == c.s.disk
    ensures ExpandAll(batches) == CacheFlush.Stamped(a) + CacheFlush.Stamped(b) && Ascending(a) && Ascending(b)
    ensures forall d :: d in a ==> Key(f, d.bid) in old(c.h).born && old(c.h).born[Key(f, d.bid)] != BNODE
    ensures forall d :: d in b ==> Key(f, d.bid) in old(c.h).born && old(c.h).born[Key(f, d.bid)] == BNODE
  {
    hide Ok, WriteAll, FileDirty, Quiet, Outside, Progress, ExpandAll, BatchesFit, Tight, Ascending;
    batches, a, b := FlushAll(data, index, c.size, c.unit);
    StreamIs(c.s, f, data, index, a, b);
    StreamKinds(c.s, c.h, c.n, c.size, f, data, index, a, b);
    ghost var x, y := c.Flush(f, true);
  }

  /** No block that became dirty as an index node is in the first stream, and only such
      blocks are in the second. */
  lemma StreamKinds(s: State, h: Trace, n: nat, size: nat, f: int, data: seq<Tree>, index: seq<Tree>, a: seq<Dirty>,
                    b: seq<Dirty>)
    requires Ok(s, h, n, size) && TreesOf(data, s, s.data, f) && TreesOf(index, s, s.index, f)
    requires (forall d :: Has(data, d) <==> d in a) && (forall d :: Has(index, d) <==> d in b)
    ensures forall d :: d in a ==> Key(f, d.bid) in h.born && h.born[Key(f, d.bid)] != BNODE
    ensures forall d :: d in b ==> Key(f, d.bid) in h.born && h.born[Key(f, d.bid)] == BNODE
  {
    hide HashOk, FreeOk, CleanOk, DirtyOk, CountOk, Synced, Recent, Sharded, Has;
  }
}
