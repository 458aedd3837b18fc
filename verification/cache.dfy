/** The block cache (src/blockcache.cc), one operation at a time. */
module Cache {
  import opened Arith
  import opened Options
  import opened Sets
  import opened CacheBlock
  import opened CacheOrder
  import opened CacheState
  import opened CacheStep

  /** Work an eviction may have to do before it finds a victim. */
  ghost function Weight(it: Item): nat {
    if it.free then 0 else (if it.dirty then 1 else 0) + it.score
  }

  ghost function Weights(items: seq<Item>): nat {
    if items == [] then 0 else Weights(items[..|items| - 1]) + Weight(items[|items| - 1])
  }

  lemma {:induction false} WeightsSet(items: seq<Item>, i: nat, it: Item)
    requires i < |items|
    ensures Weights(items[i := it]) == Weights(items) - Weight(items[i]) + Weight(it)
    decreases items
  {
    var init := items[..|items| - 1];
    if i < |init| {
      WeightsSet(init, i, it);
      assert items[i := it][..|items| - 1] == init[i := it];
    } else {
      assert items[i := it][..|items| - 1] == init;
    }
  }

  class BlockCache {
    /** Shards per file, bytes per block, bytes per batch. */
    const n: nat
    const size: nat
    const unit: nat
    /** Whether document blocks stay cached after a flush. */
    const cacheDocs: bool

    var s: State
    ghost var h: Trace

    ghost predicate Valid()
      reads this
    {
      Ok(s, h, n, size)
    }

    /** `bcache_init`: every item is free. */
    constructor (nblock: nat, n: nat, size: nat, unit: nat, cacheDocs: bool, disk: map<Key, Bytes>)
      requires n > 0 && size > CRC_OFFSET + CRC_LEN && forall k :: k in disk ==> |disk[k]| == size
      ensures Valid() && |s.items| == nblock && s.disk == disk && h == Trace(disk, {}, map[])
      ensures this.n == n && this.size == size && this.unit == unit && this.cacheDocs == cacheDocs
    {
      this.n, this.size, this.unit, this.cacheDocs := n, size, unit, cacheDocs;
      var items: seq<Item>, freelist: seq<int>, count := [], [], 0;
      for i := 0 to nblock
        invariant |items| == |freelist| == count == i && (forall j :: 0 <= j < i ==> items[j].free)
        invariant Distinct(freelist) && forall j :: j in freelist <==> 0 <= j < i
      {
        items := items + [Item(Key(0, 0), [], false, false, true, 0)];
        PushDistinct(freelist, i);
        freelist, count := [i] + freelist, count + 1;
      }
      s := State(items, freelist, count, map[], map[], {}, {}, map[], disk);
      h := Trace(disk, {}, map[]);
      new;
      EmptyOk(s, n, size);
    }

    /** A free item takes the block: the miss path of `bcache_write`. */
    method Take(k: Key, buf: Bytes, dirty: bool, final: bool)
      requires Valid() && k !in s.hash && s.freelist != [] && |buf| == size
               && (dirty || (k in s.disk && s.disk[k] == buf))
      modifies this
      ensures Valid() && 0 <= old(s).freelist[0] < |old(s).items| && s == TakeS(old(s), n, k, buf, dirty, final)
      ensures h == if dirty then Wrote(old(h), k, buf, true) else old(h)
      ensures n > 0 && s.hash[k] == old(s).freelist[0] && s.items[s.hash[k]].data == buf && s.disk == old(s).disk
      ensures s.index == (if dirty && Marker(buf) == BNODE then old(s).index + {k} else old(s).index)
      ensures s.data == (if dirty && Marker(buf) != BNODE then old(s).data + {k} else old(s).data)
      ensures !dirty ==> ListOf(s.clean, Shard(k, n)) == [s.hash[k]] + ListOf(old(s).clean, Shard(k, n))
    {
      hide Ok, Shard, Marker, Score, Wrote;
      OkNumbers(s, h, n, size);
      FreeHead(s, h, n, size);
      TakeOk(s, h, n, size, k, buf, dirty, final);
      var i := s.freelist[0];
      var it := Item(k, buf, dirty, false, false, Score(buf));
      s := s.(freelist := s.freelist[1..], freecount := s.freecount - 1);
      s := s.(hash := s.hash[k := i], nitems := s.nitems[k.file := NItems(s.nitems, k.file) + 1]);
      if dirty {
        if Marker(buf) == BNODE {
          s := s.(index := s.index + {k});
        } else {
          it := it.(immutable := final);
          s := s.(data := s.data + {k});
        }
        h := Wrote(h, k, buf, true);
      } else {
        s := s.(clean := s.clean[Shard(k, n) := [i] + ListOf(s.clean, Shard(k, n))]);
      }
      s := s.(items := s.items[i := it]);
    }

    /** The hit path of `bcache_write`.  A clean request overwrites a dirty block too. */
    method Store(k: Key, buf: Bytes, dirty: bool, final: bool)
      requires Valid() && k in s.hash && |buf| == size && (dirty || (k in s.disk && s.disk[k] == buf))
      modifies this
      ensures Valid() && n > 0 && Cached(old(s), k)
      ensures var it := old(s).items[old(s).hash[k]];
              && s == StoreS(old(s), n, k, Rewritten(it, buf, dirty, final), Marker(buf) == BNODE)
              && h == (if dirty || it.dirty then Wrote(old(h), k, buf, !it.dirty) else old(h))
              && s.hash == old(s).hash && s.items[s.hash[k]].data == buf && s.disk == old(s).disk
              && s.index == (if dirty && !it.dirty && Marker(buf) == BNODE then old(s).index + {k} else old(s).index)
              && s.data == (if dirty && !it.dirty && Marker(buf) != BNODE then old(s).data + {k} else old(s).data)
              && (!it.dirty && !dirty ==>
                    ListOf(s.clean, Shard(k, n)) == [s.hash[k]] + Without(ListOf(old(s).clean, Shard(k, n)), s.hash[k]))
    {
      hide Ok, Shard, Marker, Score, Without, Recent, HashOk, Relist;
      ghost var s0 := s;
      OkNumbers(s, h, n, size);
      CachedFacts(s, h, n, size, k);
      var i, q := s.hash[k], Shard(k, n);
      var it := s.items[i];
      ghost var it0 := it;
      if !it.dirty {
        s := s.(clean := s.clean[q := Without(ListOf(s.clean, q), i)]);
        if dirty {
          if Marker(buf) == BNODE {
            s := s.(index := s.index + {k});
          } else {
            it := it.(immutable := it.immutable || final);
            s := s.(data := s.data + {k});
          }
        } else {
          s := s.(clean := s.clean[q := [i] + s.clean[q]]);
        }
      }
      it := it.(data := buf, dirty := it.dirty || dirty, score := Score(buf));
      s := s.(items := s.items[i := it]);
      OkRecent(s0, h, n, size);
      StoreRecent(s0.items, s0.hash, s0.disk, h.last, h.touched, size, k, it);
      Relisted(s0, n, k, it);
      ghost var h' := if it.dirty then Wrote(h, k, buf, !it0.dirty) else h;
      StoreOk(s0, h, n, size, k, it, Marker(buf) == BNODE, h');
      h := h';
    }

    /** One block of `_flush_dirty_blocks`: written, and clean or free afterwards. */
    method FlushOne(k: Key)
      requires Valid() && (k in s.data || k in s.index)
      modifies this
      ensures Valid() && Quiet(old(h), h) && |s.items| == |old(s).items| && Weights(s.items) < Weights(old(s).items)
      ensures s.data == old(s).data - {k} && s.index == old(s).index - {k} && |s.freelist| >= |old(s).freelist|
      ensures Cached(old(s), k) && n > 0 && Outside(old(s), s)
      ensures var data := old(s).items[old(s).hash[k]].data;
              && s.disk == old(s).disk[k := Stamp(data)]
              && s == (if cacheDocs || Marker(Stamp(data)) == BNODE then FlushS(old(s), n, k)
                       else FlushDropS(old(s), k))
              && (k in s.hash <==> cacheDocs || Marker(data) == BNODE)
              && (k in s.hash ==> FirstOf(s, n, k) && Cached(s, k) && !s.items[s.hash[k]].immutable)
              && (k !in s.hash ==> s.freelist == [old(s).hash[k]] + old(s).freelist)
    {
      hide Ok, Shard, Marker, Stamp, Weights, Quiet, Stamped;
      ghost var s0 := s;
      OkNumbers(s, h, n, size);
      DirtyFacts(s, h, n, size, k);
      StampQuiet(s, h, n, size, k);
      CachedFacts(s, h, n, size, k);
      StampMarker(s.items[s.hash[k]].data);
      var i := s.hash[k];
      var it := s.items[i].(data := Stamp(s.items[i].data), dirty := false, immutable := false);
      s := s.(data := s.data - {k}, index := s.index - {k}, disk := s.disk[k := it.data]);
      if !cacheDocs && Marker(it.data) != BNODE {
        FlushDropOk(s0, h, n, size, k);
        it := it.(free := true, score := 0);
        s := s.(nitems := s.nitems[k.file := NItems(s.nitems, k.file) - 1], hash := s.hash - {k});
        s := s.(freelist := [i] + s.freelist, freecount := s.freecount + 1);
      } else {
        FlushOk(s0, h, n, size, k);
        s := s.(clean := s.clean[Shard(k, n) := [i] + ListOf(s.clean, Shard(k, n))]);
      }
      WeightsSet(s.items, i, it);
      s := s.(items := s.items[i := it]);
      h := Stamped(h, k, s0.items[i].data);
    }

    /** `_flush_dirty_blocks` with sync: data blocks, then index blocks, in ascending order.
        Without all it stops at the first gap, after a batch, or after the data blocks.  a and
        b are the data and index blocks written. */
    method Flush(f: int, all: bool) returns (ghost a: seq<Key>, ghost b: seq<Key>)
      requires Valid()
      modifies this
      ensures Valid() && Quiet(old(h), h) && |s.items| == |old(s).items| && |s.freelist| >= |old(s).freelist|
      ensures FlushOrder(old(s), f, all, size, unit, a, b) && s == FlushAllS(old(s), n, cacheDocs, a + b)
      ensures Left(old(s).data, s.data, a) && Left(old(s).index, s.index, b)
      ensures all ==> NoneOf(s.data, f) && NoneOf(s.index, f)
      ensures Weights(s.items) <= Weights(old(s).items)
      ensures (exists k: Key :: k.file == f && (k in old(s).data || k in old(s).index)) ==>
                Weights(s.items) < Weights(old(s).items)
      ensures s.data <= old(s).data && s.index <= old(s).index && Outside(old(s), s)
      ensures Progress(old(s), s, f)
      ensures all ==> s.disk == old(s).disk + FileDirty(old(s), f)
    {
      hide Ok, Quiet, Weights, Outside, Progress, FileDirty, Swept, FlushAllS, FlushOrder, Under, NoneOf;
      ghost var s0, h0 := s, h;
      a, b := FlushLoop(f, all);
      UnderFacts(s0, h0, f, a, b);
      NoneDirty(s0, f);
      if all {
        NoneDirty(s, f);
        AllFlushed(s0, s, f);
      }
    }

    method FlushLoop(f: int, all: bool) returns (ghost a: seq<Key>, ghost b: seq<Key>)
      requires Valid()
      modifies this
      ensures Under(old(s), old(h), f, a, b) && FlushOrder(old(s), f, all, size, unit, a, b)
      ensures all ==> NoneOf(s.data, f) && NoneOf(s.index, f)
      ensures |a| + |b| == 0 ==> NoneOf(s.data, f) && NoneOf(s.index, f)
    {
      hide Ok, Swept, Running, FlushOrder, Under, Bids, NoneOf, FlushAllS, Quiet, Outside, Progress, Weights, Paused;
      ghost var s0, h0 := s, h;
      var completed, count, prev: Option<int> := false, 0, None;
      a, b := [], [];
      UnderStart(f);
      PausedStart(s, f, all, size, unit);
      while true
        invariant Under(s0, h0, f, a, b) && count == |a| + |b| && Paused(s0, s, f, all, size, unit, a, b, completed)
        invariant prev == LastBid(a, b)
        decreases |s.data| + |s.index|, if completed then 0 else 1
      {
        var bids := Bids(if completed then s.index else s.data, f);
        if bids == {} {
          NoBids(if completed then s.index else s.data, f);
          if completed {
            FlushDone(s0, s, f, all, size, unit, a, b);
            return;
          }
          if count > 0 && !all {
            FlushedData(s0, s, f, size, unit, a, b);
            return;
          }
          completed := true;
          PausedOver(s0, s, f, all, size, unit, a, b);
        } else {
          LeastExists(bids);
          var bid :| bid in bids && forall x :: x in bids ==> bid <= x;
          LeastKey(if completed then s.index else s.data, f, bid);
          if prev.Some? && bid != prev.value + 1 && !all {
            FlushStopped(s0, s, f, size, unit, a, b, completed, bid);
            return;
          }
          prev := Some(bid);
          FewerKeys(s.data, s.index, Key(f, bid));
          a, b := FlushLeast(Key(f, bid), completed, s0, h0, a, b, all);
          count := count + 1;
          if count * size >= unit && !all {
            return;
          }
        }
      }
    }

    /** Where a flush of file f that began in s0 is, having written a and then b. */
    ghost predicate Under(s0: State, h0: Trace, f: int, a: seq<Key>, b: seq<Key>)
      reads this
    {
      && Valid() && Quiet(h0, h) && |s.items| == |s0.items| && |s.freelist| >= |s0.freelist|
      && Weights(s.items) <= Weights(s0.items) && Outside(s0, s)
      && (if a + b == [] then s == s0 else Weights(s.items) < Weights(s0.items))
      && Progress(s0, s, f)
      && Left(s0.data, s.data, a) && Left(s0.index, s.index, b)
      && s == FlushAllS(s0, n, cacheDocs, a + b)
    }

    lemma UnderStart(f: int)
      requires Valid()
      ensures Under(s, h, f, [], [])
    {
      hide Ok, Quiet, Weights, Outside, Progress, FlushAllS;
      QuietSelf(h);
      ProgressSelf(s, h, n, size, f);
      OutsideSelf(s);
      NothingFlushed(s, n, cacheDocs);
    }

    lemma UnderFacts(s0: State, h0: Trace, f: int, a: seq<Key>, b: seq<Key>)
      requires Under(s0, h0, f, a, b)
      ensures Valid() && Quiet(h0, h) && |s.items| == |s0.items| && |s.freelist| >= |s0.freelist|
      ensures Weights(s.items) <= Weights(s0.items) && Outside(s0, s) && Progress(s0, s, f)
      ensures if |a| + |b| == 0 then s == s0 else Weights(s.items) < Weights(s0.items)
      ensures s == FlushAllS(s0, n, cacheDocs, a + b)
      ensures s.data <= s0.data && s.index <= s0.index
      ensures Left(s0.data, s.data, a) && Left(s0.index, s.index, b)
    {
      hide Ok, Quiet, Weights, Outside, Progress, FlushAllS;
    }

    /** The least dirty block of the tree in turn is flushed. */
    method FlushLeast(k: Key, completed: bool, ghost s0: State, ghost h0: Trace, ghost a: seq<Key>, ghost b: seq<Key>,
                      ghost all: bool)
      returns (ghost a': seq<Key>, ghost b': seq<Key>)
      requires Under(s0, h0, k.file, a, b) && Paused(s0, s, k.file, all, size, unit, a, b, completed)
      requires k in (if completed then s.index else s.data)
      requires forall x :: x in (if completed then s.index else s.data) && x.file == k.file ==> k.bid <= x.bid
      requires !all && LastBid(a, b).Some? ==> k.bid == LastBid(a, b).value + 1
      modifies this
      ensures Under(s0, h0, k.file, a', b') && s.data == old(s).data - {k} && s.index == old(s).index - {k}
      ensures LastBid(a', b') == Some(k.bid) && |a'| + |b'| == |a| + |b| + 1
      ensures if !all && (|a'| + |b'|) * size >= unit then FlushOrder(s0, k.file, all, size, unit, a', b')
              else Paused(s0, s, k.file, all, size, unit, a', b', completed)
    {
      hide Ok, Quiet, Weights, Outside, Progress, Swept, FlushAllS, Running, FlushS, FlushDropS, Stamp, Marker, NoneOf,
           FlushOrder, FirstRun, Left;
      ghost var s1, h1 := s, h;
      DirtyApart(s, h, n, size);
      FlushOne(k);
      QuietMore(h0, h1, h);
      OutsideMore(s0, s1, s);
      OneItemEach(s1, h1, n, size);
      ProgressStep(s0, s1, s, n, k.file, k);
      a', b' := if completed then a else a + [k], if completed then b + [k] else b;
      TakeOne(s0, s1, s, k.file, all, size, unit, a, b, completed, k.bid);
      FlushAllPut(s0, n, cacheDocs, a + b, k);
      assert a' + b' == a + b + [k];
      LeftStep(s0.data, s1.data, a, k);
      LeftStep(s0.index, s1.index, b, k);
    }

    /** The last item of a clean list is freed: the end of `_bcache_evict`. */
    method DropLast(q: Key)
      requires Valid() && q in s.clean && s.clean[q] != []
      modifies this
      ensures Valid() && h == old(h) && |s.items| == |old(s).items| && |s.freelist| == |old(s).freelist| + 1
              && Outside(old(s), s) && s.data == old(s).data && s.index == old(s).index
      ensures var e := old(s).clean[q][|old(s).clean[q]| - 1];
              && 0 <= e < |old(s).items| && n > 0 && Cached(old(s), old(s).items[e].key)
              && s == DropS(old(s), n, old(s).items[e].key) && Freed(old(s), s, q, e)
    {
      hide Ok, Shard, Without;
      OkNumbers(s, h, n, size);
      ghost var s0 := s;
      LastFacts(s, h, n, size, q);
      var l := s.clean[q];
      var e := l[|l| - 1];
      var k := s.items[e].key;
      DropOk(s, h, n, size, k);
      s := s.(clean := s.clean[q := l[..|l| - 1]], nitems := s.nitems[k.file := NItems(s.nitems, k.file) - 1],
              hash := s.hash - {k});
      s := s.(freelist := [e] + s.freelist, freecount := s.freecount + 1,
              items := s.items[e := s.items[e].(free := true, score := 0)]);
      assert s == DropS(s0, n, k);
    }

    /** The last item of a clean list gets a second chance. */
    method Spare(q: Key)
      requires Valid() && q in s.clean && s.clean[q] != []
      requires 0 <= s.clean[q][|s.clean[q]| - 1] < |s.items| && s.items[s.clean[q][|s.clean[q]| - 1]].score > 0
      modifies this
      ensures Valid() && h == old(h) && |s.items| == |old(s).items| && s.freelist == old(s).freelist
              && Weights(s.items) < Weights(old(s).items)
      ensures Outside(old(s), s) && s.data == old(s).data && s.index == old(s).index
      ensures var e := old(s).clean[q][|old(s).clean[q]| - 1];
              0 <= e < |old(s).items| && Spared(old(s), s, q, e)
    {
      hide Ok, Shard, Without, Weights, Recent, HashOk;
      OkNumbers(s, h, n, size);
      ghost var s0 := s;
      LastFacts(s, h, n, size, q);
      var l := s.clean[q];
      var e := l[|l| - 1];
      var it := s.items[e].(score := s.items[e].score - 1);
      ghost var k := it.key;
      OkRecent(s, h, n, size);
      StoreRecent(s.items, s.hash, s.disk, h.last, h.touched, size, k, it);
      StoreOk(s, h, n, size, k, it, false, h);
      WeightsSet(s.items, e, it);
      s := s.(items := s.items[e := it], clean := s.clean[q := [e] + l[..|l| - 1]]);
      assert s == StoreS(s0, n, k, it, false);
    }

    /** `_bcache_evict` on a victim file: a round over the shards from a random one.  trail
        are the states it goes through, one more for each shard visited. */
    method Evict(f: int, start: nat) returns (ok: bool, ghost trail: seq<State>)
      requires Valid() && NItems(s.nitems, f) > 0
      modifies this
      ensures Valid() && Quiet(old(h), h) && |s.items| == |old(s).items|
      ensures Outside(old(s), s) && (ok ==> s.freelist != []) && s.data <= old(s).data && s.index <= old(s).index
      ensures !ok ==> Weights(s.items) < Weights(old(s).items)
      ensures n > 0 && Rounds(trail, old(s), s, f, start, n, size, unit, cacheDocs)
      ensures if ok then |trail| > 1 && Frees(trail[|trail| - 2], Key(f, Turn(start, |trail| - 2, n)), cacheDocs)
              else |trail| == n + 1 && !Frees(trail[n - 1], Key(f, Turn(start, n - 1, n)), cacheDocs)
    {
      hide Ok, Quiet, Weights, ShardEmpty, Turn, Outside, Frees, Visits, Rounds;
      OkNumbers(s, h, n, size);
      QuietSelf(h);
      OutsideSelf(s);
      trail := [s];
      RoundsStart(s, f, start, n, size, unit, cacheDocs);
      var i, visited := start % n, 0;
      while visited < n
        invariant Valid() && Quiet(old(h), h) && |s.items| == |old(s).items| && 0 <= visited <= n
                  && i == (start + visited) % n && Outside(old(s), s)
        invariant Weights(s.items) <= Weights(old(s).items) && s.data <= old(s).data && s.index <= old(s).index
        invariant Weights(s.items) == Weights(old(s).items) ==> s == old(s)
        invariant Weights(s.items) == Weights(old(s).items) ==> forall j :: 0 <= j < visited ==>
                    ShardEmpty(s, f, Turn(start, j, n), n)
        invariant |trail| == visited + 1 && Rounds(trail, old(s), s, f, start, n, size, unit, cacheDocs)
        invariant visited > 0 ==> !Frees(trail[visited - 1], Key(f, Turn(start, visited - 1, n)), cacheDocs)
      {
        NextTurn(start, visited, n);
        i := (i + 1) % n;
        visited := visited + 1;
        ghost var s1, h1 := s, h;
        var freed := Visit(f, i);
        QuietMore(old(h), h1, h);
        OutsideMore(old(s), s1, s);
        RoundsMore(trail, old(s), s1, s, f, start, n, size, unit, cacheDocs);
        trail := trail + [s];
        if freed {
          return true, trail;
        }
      }
      if Weights(s.items) == Weights(old(s).items) {
        SomeShard(s, h, n, size, f, start);
      }
      ok := false;
    }

    /** One shard of a round. */
    method Visit(f: int, i: int) returns (freed: bool)
      requires Valid() && n > 0
      modifies this
      ensures Valid() && Quiet(old(h), h) && |s.items| == |old(s).items| && Outside(old(s), s)
      ensures s.data <= old(s).data && s.index <= old(s).index && (freed ==> s.freelist != [])
      ensures Visits(old(s), s, Key(f, i), n, size, unit, cacheDocs) && (freed <==> Frees(old(s), Key(f, i), cacheDocs))
      ensures !freed ==> Weights(s.items) < Weights(old(s).items) || (s == old(s) && ShardEmpty(s, f, i, n))
    {
      hide Ok, Quiet, Weights, ShardEmpty, Outside, Frees, Visits, FlushOrder, FlushAllS, Freed, Spared, DropS,
           Progress;
      var q := Key(f, i);
      ghost var s1 := s;
      QuietSelf(h);
      OutsideSelf(s);
      LastThere(s, h, n, size, q);
      freed := false;
      if ShardEmpty(s, f, i, n) {
        EmptyStays(s, f, i, n, size, unit, cacheDocs);
      } else if ListOf(s.clean, q) == [] {
        DirtyShard(s, f, i, n);
        ghost var a, b := Flush(f, false);
        VisitFlush(s1, s, q, n, size, unit, cacheDocs, a, b);
      } else {
        var e := s.clean[q][|s.clean[q]| - 1];
        LastFacts(s, h, n, size, q);
        if s.items[e].score == 0 || !cacheDocs {
          DropLast(q);
          VisitFrees(s1, s, q, n, size, unit, cacheDocs);
          freed := true;
        } else {
          Spare(q);
          VisitSpares(s1, s, q, n, size, unit, cacheDocs);
        }
      }
    }

    /** The loop of `bcache_write` that evicts until an item is free.  It ends, because an
        eviction that frees nothing has flushed a block or used up a second chance. */
    method MakeRoom()
      requires Valid() && s.items != []
      modifies this
      ensures Valid() && Quiet(old(h), h) && |s.items| == |old(s).items| && s.freelist != [] && Outside(old(s), s)
      ensures s.data <= old(s).data && s.index <= old(s).index && (old(s).freelist != [] ==> s == old(s))
    {
      hide Ok, Quiet, Weights, Outside;
      QuietSelf(h);
      OutsideSelf(s);
      while s.freelist == []
        invariant Valid() && Quiet(old(h), h) && |s.items| == |old(s).items| && Outside(old(s), s)
        invariant s.data <= old(s).data && s.index <= old(s).index && (old(s).freelist != [] ==> s == old(s))
        decreases Weights(s.items)
      {
        Victim(s, h, n, size);
        var f :| NItems(s.nitems, f) > 0;
        var start: nat := *;
        ghost var s1, h1 := s, h;
        var ok;
        ghost var trail;
        ok, trail := Evict(f, start);
        QuietMore(old(h), h1, h);
        OutsideMore(old(s), s1, s);
        if ok { break; }
      }
    }

    /** `bcache_write`.  A clean request brings the bytes just read from disk; it counts as a
        write of them exactly when the block is cached dirty. */
    method Write(k: Key, buf: Bytes, dirty: bool, final: bool, ignoreIfExist: bool) returns (r: nat)
      requires Valid() && s.items != [] && |buf| == size && (dirty || (k in s.disk && s.disk[k] == buf))
      modifies this
      ensures Valid() && |s.items| == |old(s).items| && r == if ignoreIfExist && k in old(s).hash then 0 else size
      ensures r == 0 ==> s == old(s) && h == old(h)
      ensures r != 0 && (dirty || DirtyHit(old(s), k)) ==>
                exists h1 :: Quiet(old(h), h1) && h == Wrote(h1, k, buf, !DirtyHit(old(s), k))
      ensures r != 0 && !(dirty || DirtyHit(old(s), k)) ==> Quiet(old(h), h)
      ensures k in s.hash && SameDisk(old(s), s, k)
      ensures r != 0 && !DirtyHit(old(s), k) ==>
                (k in s.index <==> dirty && Marker(buf) == BNODE) && (k in s.data <==> dirty && Marker(buf) != BNODE)
      ensures r != 0 && DirtyHit(old(s), k) ==>
                (k in s.index <==> k in old(s).index) && (k in s.data <==> k in old(s).data)
      ensures s.index <= old(s).index + {k} && s.data <= old(s).data + {k}
      ensures r != 0 ==> Holds(s, k, buf, dirty || DirtyHit(old(s), k)) && n > 0
      ensures r != 0 && !dirty && !DirtyHit(old(s), k) ==> FirstOf(s, n, k)
      ensures r != 0 ==>
                (s.items[s.hash[k]].immutable <==>
                   || (Cached(old(s), k) && old(s).items[old(s).hash[k]].immutable)
                   || (dirty && final && Marker(buf) != BNODE && !DirtyHit(old(s), k)))
    {
      hide Ok, Quiet, Outside, Wrote;
      OkNumbers(s, h, n, size);
      QuietSelf(h);
      if k in s.hash { CachedFacts(s, h, n, size, k); }
      TreesApart(s, h, n, size, k);
      if k in s.hash {
        if ignoreIfExist {
          return 0;
        }
        Store(k, buf, dirty, final);
      } else {
        MakeRoom();
        StillOutside(old(s), s, k);
        TreesApart(s, h, n, size, k);
        Take(k, buf, dirty, final);
      }
      r := size;
    }

    /** `bcache_write_partial`: only a cached block is patched. */
    method WritePartial(k: Key, buf: Bytes, offset: nat, final: bool) returns (r: nat)
      requires Valid() && offset + |buf| <= size
      modifies this
      ensures Valid() && |s.items| == |old(s).items| && s.disk == old(s).disk && s.hash == old(s).hash
              && r == if k in old(s).hash then |buf| else 0
      ensures k !in old(s).hash ==> s == old(s) && h == old(h)
      ensures k in old(s).hash ==>
                k in old(h).last && |old(h).last[k]| == size
                && h == old(h).(last := old(h).last[k := Patch(old(h).last[k], offset, buf)], born := h.born)
      ensures k in old(s).hash ==>
                && Cached(old(s), k) && n > 0
                && var it, it' := old(s).items[old(s).hash[k]], s.items[old(s).hash[k]];
                && h.born == (if it.dirty then old(h).born else old(h).born[k := Marker(it.data)])
                && s.index == (if !it.dirty && Marker(it.data) == BNODE then old(s).index + {k} else old(s).index)
                && s.data == (if !it.dirty && Marker(it.data) != BNODE then old(s).data + {k} else old(s).data)
                && |it.data| == size && Holds(s, k, Patch(it.data, offset, buf), true)
                && it'.immutable == (it.immutable || (final && (it.dirty || Marker(it.data) != BNODE)))
                && s == old(s).(items := old(s).items[old(s).hash[k] := it'], index := s.index, data := s.data,
                                clean := s.clean)
    {
      hide Ok, Shard, Marker, Without, Recent, HashOk, Relist, Patch;
      if k !in s.hash {
        return 0;
      }
      ghost var s0 := s;
      OkNumbers(s, h, n, size);
      CachedFacts(s, h, n, size, k);
      var i, q := s.hash[k], Shard(k, n);
      var it := s.items[i];
      var node := Marker(it.data) == BNODE;
      if !it.dirty {
        s := s.(clean := s.clean[q := Without(ListOf(s.clean, q), i)]);
        if node {
          s := s.(index := s.index + {k});
        } else {
          s := s.(data := s.data + {k});
          it := it.(immutable := it.immutable || final);
        }
      } else if !it.immutable {
        it := it.(immutable := final);
      }
      it := it.(data := Patch(it.data, offset, buf), dirty := true);
      it := it.(score := Score(it.data));
      s := s.(items := s.items[i := it]);
      OkRecent(s0, h, n, size);
      PatchRecent(s0.items, s0.hash, s0.disk, h.last, h.touched, size, k, it, offset, buf);
      Relisted(s0, n, k, it);
      ghost var it0 := s0.items[i];
      ghost var h' := h.(last := h.last[k := Patch(h.last[k], offset, buf)],
                         born := if it0.dirty then h.born else h.born[k := Marker(it0.data)]);
      StoreOk(s0, h, n, size, k, it, node, h');
      h := h';
      r := |buf|;
    }

    /** `bcache_read`: a hit moves a clean block to the front of its list. */
    method Read(k: Key) returns (r: Option<Bytes>)
      requires Valid()
      modifies this
      ensures Valid() && h == old(h) && s.hash == old(s).hash && s.disk == old(s).disk && |s.items| == |old(s).items|
      ensures r.Some? <==> k in old(s).hash
      ensures r.Some? ==> Cached(old(s), k) && r.value == old(s).items[old(s).hash[k]].data
      ensures r.None? ==> s == old(s)
      ensures r.Some? ==>
                && n > 0
                && var i, q := old(s).hash[k], Shard(k, n);
                var it := old(s).items[i];
                && s == old(s).(items := old(s).items[i := it.(score := if Marker(it.data) == BNODE then 1 else 0)],
                                clean := s.clean)
                && s.clean == (if it.dirty then old(s).clean
                               else old(s).clean[q := [i] + Without(ListOf(old(s).clean, q), i)])
    {
      hide Ok, Shard, Marker, Without, Recent, HashOk, Relist;
      if k !in s.hash {
        return None;
      }
      ghost var s0 := s;
      OkNumbers(s, h, n, size);
      CachedFacts(s, h, n, size, k);
      var i, q := s.hash[k], Shard(k, n);
      var it := s.items[i];
      if !it.dirty {
        s := s.(clean := s.clean[q := Without(ListOf(s.clean, q), i)]);
        s := s.(clean := s.clean[q := [i] + s.clean[q]]);
      }
      it := it.(score := Score(it.data));
      s := s.(items := s.items[i := it]);
      OkRecent(s0, h, n, size);
      StoreRecent(s0.items, s0.hash, s0.disk, h.last, h.touched, size, k, it);
      Relisted(s0, n, k, it);
      StoreOk(s0, h, n, size, k, it, false, h);
      r := Some(it.data);
    }

    /** `bcache_invalidate_block`: a clean block is dropped, a dirty one marked. */
    method Invalidate(k: Key) returns (r: bool)
      requires Valid()
      modifies this
      ensures Valid() && h == old(h) && s.disk == old(s).disk && |s.items| == |old(s).items|
      ensures r ==> k !in s.hash
      ensures r <==> Cached(old(s), k) && !old(s).items[old(s).hash[k]].dirty
      ensures k !in old(s).hash ==> s == old(s)
      ensures DirtyHit(old(s), k) ==>
                s == old(s).(items := old(s).items[old(s).hash[k] := old(s).items[old(s).hash[k]].(immutable := true)])
      ensures r ==> n > 0 && s.hash == old(s).hash - {k} && s.freelist == [old(s).hash[k]] + old(s).freelist
                    && s.data == old(s).data && s.index == old(s).index
                    && ListOf(s.clean, Shard(k, n)) == Without(ListOf(old(s).clean, Shard(k, n)), old(s).hash[k])
    {
      hide Ok, Shard, Without, Recent, HashOk, Relist;
      if k !in s.hash {
        return false;
      }
      ghost var s0 := s;
      OkNumbers(s, h, n, size);
      CachedFacts(s, h, n, size, k);
      var i, q := s.hash[k], Shard(k, n);
      var it := s.items[i];
      if !it.dirty {
        DropOk(s, h, n, size, k);
        s := s.(nitems := s.nitems[k.file := NItems(s.nitems, k.file) - 1], hash := s.hash - {k});
        s := s.(clean := s.clean[q := Without(ListOf(s.clean, q), i)], freelist := [i] + s.freelist,
                freecount := s.freecount + 1);
        s := s.(items := s.items[i := it.(free := true, score := 0)]);
        assert s == DropS(s0, n, k);
        r := true;
      } else {
        it := it.(immutable := true);
        s := s.(items := s.items[i := it]);
        OkRecent(s0, h, n, size);
        StoreRecent(s0.items, s0.hash, s0.disk, h.last, h.touched, size, k, it);
        Relisted(s0, n, k, it);
        StoreOk(s0, h, n, size, k, it, false, h);
        r := false;
      }
    }

    /** `filemgr_read` above the cache: a missed block is read from disk and cached clean. */
    method ReadBlock(k: Key) returns (r: Option<Bytes>)
      requires Valid() && s.items != []
      modifies this
      ensures Valid() && Quiet(old(h), h) && |s.items| == |old(s).items|
      ensures r.Some? <==> k in old(h).last
      ensures r.Some? ==> Same(r.value, old(h).last[k], k in old(h).touched)
      ensures k in s.hash <==>
              k in old(s).hash || (k in old(s).disk && (cacheDocs || Marker(old(s).disk[k]) == BNODE))
      ensures s.data <= old(s).data && s.index <= old(s).index
    {
      hide Ok, Quiet, Same, Marker;
      LastKnown(s, h, n, size, k);
      QuietSelf(h);
      r := Read(k);
      if r.None? {
        if k !in s.disk {
          return None;
        }
        var buf := s.disk[k];
        DiskBlock(s, h, n, size, k);
        if cacheDocs || Marker(buf) == BNODE {
          var wrote := Write(k, buf, false, false, false);
        }
        r := Some(buf);
      }
    }

    /** `filemgr_write_offset` above the cache: a part of a block that is not cached is
        merged with the block on disk.  A write of no bytes to a cached block looks like a
        miss too, and puts the block on disk back into the cache. */
    method WriteBlock(k: Key, offset: nat, buf: Bytes, final: bool)
      requires Valid() && s.items != [] && offset + |buf| <= size
      modifies this
      ensures forall x :: x in h.touched && x !in old(h).touched ==> x in old(h).last && Marker(old(h).last[x]) == BNODE
      ensures old(h).touched - {k} <= h.touched && (k in h.touched ==> k in old(h).touched)
      ensures |buf| == size ==> k !in h.touched
      ensures k in s.hash && SameDisk(old(s), s, k)
      ensures Valid() && |s.items| == |old(s).items| && k in h.last && |h.last[k]| == size
      ensures h.last[k][offset..offset + |buf|] == buf
      ensures (|buf| > 0 || k !in old(s).hash) && k in old(h).last ==>
                |old(h).last[k]| == size && Same(h.last[k], Patch(old(h).last[k], offset, buf), k in old(h).touched)
      ensures |buf| == 0 && k in old(s).hash && k in old(s).disk ==> h.last[k] == old(s).disk[k]
      ensures forall x :: x != k ==>
                (x in h.last <==> x in old(h).last) && (x in h.last ==> h.last[x] == old(h).last[x])
      ensures DirtyHit(old(s), k) ==> h.born == old(h).born
      ensures !DirtyHit(old(s), k) ==>
                var first := if |buf| < size && Cached(old(s), k) then old(s).items[old(s).hash[k]].data else h.last[k];
                h.born == old(h).born[k := Marker(first)]
      ensures s.index <= old(s).index + {k} && s.data <= old(s).data + {k}
    {
      hide Ok, Quiet, Same, Marker, Patch;
      OkNumbers(s, h, n, size);
      LastKnown(s, h, n, size, k);
      if |buf| == size {
        PatchAll(if k in h.last then h.last[k] else buf, buf, k in h.touched);
        var r := Write(k, buf, true, final, false);
        ghost var h1 :| Quiet(old(h), h1) && h == Wrote(h1, k, buf, !DirtyHit(old(s), k));
        QuietLast(old(h), h1);
        return;
      }
      var r := WritePartial(k, buf, offset, final);
      if r != 0 {
        PatchPart(old(h).last[k], offset, buf);
        SameAny(Patch(old(h).last[k], offset, buf), k in old(h).touched);
        return;
      }
      ghost var h2, s2 := h, s;
      var block: Bytes := *;
      if k in s.disk {
        block := s.disk[k];
        DiskBlock(s, h, n, size, k);
        if k !in old(s).hash {
          PatchSame(block, h.last[k], k in h.touched, offset, buf);
        }
      } else if |block| != size {
        block := seq(size, _ => 0);
      }
      PatchPart(block, offset, buf);
      block := Patch(block, offset, buf);
      r := Write(k, block, true, final, false);
      ghost var h1 :| Quiet(h2, h1) && h == Wrote(h1, k, block, !DirtyHit(s2, k));
      QuietLast(h2, h1);
    }
  }

  /** The item of a block after a request to write it. */
  function Rewritten(it: Item, buf: Bytes, dirty: bool, final: bool): Item {
    var enters := dirty && !it.dirty && Marker(buf) != BNODE;
    it.(data := buf, dirty := it.dirty || dirty, immutable := it.immutable || (enters && final), score := Score(buf))
  }

  /** The item of k has these bytes, and the score of their kind. */
  ghost predicate Holds(s: State, k: Key, data: Bytes, dirty: bool) {
    && Cached(s, k)
    && var it := s.items[s.hash[k]];
    it.data == data && it.dirty == dirty && it.score == if Marker(data) == BNODE then 1 else 0
  }

  /** The item of k is the first one of its clean list. */
  ghost predicate FirstOf(s: State, n: nat, k: Key)
    requires n > 0
  {
    k in s.hash && ListOf(s.clean, Shard(k, n)) != [] && ListOf(s.clean, Shard(k, n))[0] == s.hash[k]
  }

  lemma TreesApart(s: State, h: Trace, n: nat, size: nat, k: Key)
    requires Ok(s, h, n, size)
    ensures k !in s.hash || !DirtyHit(s, k) ==> k !in s.data && k !in s.index
    ensures k in s.hash && !DirtyHit(s, k) ==> Cached(s, k) && !s.items[s.hash[k]].dirty
  {
  }

  ghost predicate DirtyHit(s: State, k: Key) {
    Cached(s, k) && s.items[s.hash[k]].dirty
  }

  ghost predicate SameDisk(s: State, s': State, k: Key) {
    (k in s'.disk <==> k in s.disk) && (k in s.disk ==> s'.disk[k] == s.disk[k])
  }

  // ----- what a flush writes -----

  ghost predicate IsDirty(s: State, k: Key) {
    k in s.data || k in s.index
  }

  /** The stamped bytes of the dirty blocks of a file. */
  ghost function FileDirty(s: State, f: int): map<Key, Bytes> {
    map k | k in s.hash && Cached(s, k) && IsDirty(s, k) && k.file == f :: Stamp(s.items[s.hash[k]].data)
  }

  /** A flush of file f has come from s0 to s: the blocks that are dirty still are so with
      the same bytes, and the others of the file were written. */
  ghost predicate Progress(s0: State, s: State, f: int) {
    && (forall k :: IsDirty(s0, k) ==> Cached(s0, k))
    && (forall k :: IsDirty(s, k) ==>
          IsDirty(s0, k) && Cached(s, k) && s.items[s.hash[k]].data == s0.items[s0.hash[k]].data)
    && (forall k :: IsDirty(s0, k) && k.file != f ==> IsDirty(s, k))
    && (forall k :: k in s.disk <==> k in s0.disk || (IsDirty(s0, k) && !IsDirty(s, k)))
    && (forall k :: k in s.disk ==>
          s.disk[k] == if IsDirty(s0, k) && !IsDirty(s, k) then Stamp(s0.items[s0.hash[k]].data) else s0.disk[k])
  }

  lemma ProgressSelf(s: State, h: Trace, n: nat, size: nat, f: int)
    requires Ok(s, h, n, size)
    ensures Progress(s, s, f)
  {
    hide Ok;
    forall k | IsDirty(s, k) ensures Cached(s, k) { DirtyFacts(s, h, n, size, k); }
  }

  lemma ProgressStep(s0: State, s: State, s': State, n: nat, f: int, k: Key)
    requires Progress(s0, s, f) && n > 0 && IsDirty(s, k) && k.file == f && Cached(s, k)
    requires s' == FlushS(s, n, k) || s' == FlushDropS(s, k)
    requires forall x, y :: x in s.hash && y in s.hash && s.hash[x] == s.hash[y] ==> x == y
    ensures Progress(s0, s', f)
  {
    hide Stamp, FlushS, FlushDropS, IsDirty;
    FlushEffect(s, s', n, k);
  }

  lemma FlushEffect(s: State, s': State, n: nat, k: Key)
    requires n > 0 && Cached(s, k) && (s' == FlushS(s, n, k) || s' == FlushDropS(s, k))
    requires forall x, y :: x in s.hash && y in s.hash && s.hash[x] == s.hash[y] ==> x == y
    ensures forall x :: IsDirty(s', x) <==> IsDirty(s, x) && x != k
    ensures forall x :: Cached(s, x) && x != k ==> Cached(s', x) && s'.items[s'.hash[x]] == s.items[s.hash[x]]
    ensures s'.disk == s.disk[k := Stamp(s.items[s.hash[k]].data)]
  {
    hide Stamp, Shard;
  }

  lemma NothingFlushed(s: State, n: nat, docs: bool)
    ensures FlushAllS(s, n, docs, []) == s && FlushAllS(s, n, docs, [] + []) == s
  {
    var none: seq<Key> := [];
    assert none + none == none;
  }

  lemma DirtyApart(s: State, h: Trace, n: nat, size: nat)
    requires Ok(s, h, n, size)
    ensures s.data !! s.index && n > 0
  {
  }

  /** What is left of a tree without the blocks of out. */
  ghost predicate Left(ks: set<Key>, left: set<Key>, out: seq<Key>) {
    forall k :: k in left <==> k in ks && k !in out
  }

  lemma LeftStep(ks: set<Key>, left: set<Key>, out: seq<Key>, k: Key)
    requires Left(ks, left, out)
    ensures Left(ks, left - {k}, out + [k]) && (k !in left ==> Left(ks, left - {k}, out))
  {
    forall x ensures x in out + [k] <==> x in out || x == k {}
  }

  lemma NoneDirty(s: State, f: int)
    ensures NoneOf(s.data, f) && NoneOf(s.index, f) <==>
            !(exists k: Key :: k.file == f && (k in s.data || k in s.index))
  {
  }

  lemma LeastKey(ks: set<Key>, f: int, b: int)
    requires b in Bids(ks, f) && forall x :: x in Bids(ks, f) ==> b <= x
    ensures Key(f, b) in ks && forall k :: k in ks && k.file == f ==> b <= k.bid
  {
    BidIn(ks, f, b);
    forall k | k in ks && k.file == f ensures b <= k.bid {
      assert k.bid in Bids(ks, f);
    }
  }

  function LastBid(a: seq<Key>, b: seq<Key>): Option<int> {
    if b != [] then Some(b[|b| - 1].bid) else if a != [] then Some(a[|a| - 1].bid) else None
  }

  /** What is known between two blocks of a flush. */
  ghost predicate Paused(s0: State, s: State, f: int, all: bool, size: nat, unit: nat, a: seq<Key>, b: seq<Key>,
                         completed: bool) {
    && Swept(a, s0.data, s.data, f) && Swept(b, s0.index, s.index, f)
    && (if completed then NoneOf(s.data, f) else b == [])
    && (!all ==>
          && Running(a, f) && Running(b, f)
          && (completed ==> a == [])
          && (|a| + |b| > 0 ==> (|a| + |b|) * size < unit))
  }

  lemma PausedStart(s: State, f: int, all: bool, size: nat, unit: nat)
    ensures Paused(s, s, f, all, size, unit, [], [], false)
  {
    SweptStart(s.data, f);
    SweptStart(s.index, f);
  }

  lemma PausedOver(s0: State, s: State, f: int, all: bool, size: nat, unit: nat, a: seq<Key>, b: seq<Key>)
    requires Paused(s0, s, f, all, size, unit, a, b, false) && NoneOf(s.data, f) && (all || |a| + |b| == 0)
    ensures Paused(s0, s, f, all, size, unit, a, b, true)
  {
  }

  /** One more block: a full batch ends the flush, and otherwise it goes on. */
  lemma TakeOne(s0: State, s: State, s': State, f: int, all: bool, size: nat, unit: nat, a: seq<Key>, b: seq<Key>,
                completed: bool, bid: int)
    requires Paused(s0, s, f, all, size, unit, a, b, completed) && s.data !! s.index
    requires s'.data == s.data - {Key(f, bid)} && s'.index == s.index - {Key(f, bid)}
    requires Key(f, bid) in if completed then s.index else s.data
    requires forall k :: k in (if completed then s.index else s.data) && k.file == f ==> bid <= k.bid
    requires !all && LastBid(a, b).Some? ==> bid == LastBid(a, b).value + 1
    ensures var a', b' := if completed then a else a + [Key(f, bid)], if completed then b + [Key(f, bid)] else b;
            if !all && (|a'| + |b'|) * size >= unit then FlushOrder(s0, f, all, size, unit, a', b')
            else Paused(s0, s', f, all, size, unit, a', b', completed)
  {
    hide Swept, Running, NoneOf, FirstRun;
    if completed {
      SweptOther(a, s0.data, s.data, f, Key(f, bid));
      SweptStep(b, s0.index, s.index, f, bid);
      StillNone(s.data, Key(f, bid), f);
      if !all {
        RunStep(b, f, bid);
        if (|b| + 1) * size >= unit {
          RunEnd(b + [Key(f, bid)], s0.index, s'.index, f, size, unit);
          SweptNone(a, s0.data, s'.data, f, size, unit);
        }
      }
    } else {
      SweptStep(a, s0.data, s.data, f, bid);
      SweptOther(b, s0.index, s.index, f, Key(f, bid));
      if !all {
        RunStep(a, f, bid);
        if (|a| + 1) * size >= unit {
          RunEnd(a + [Key(f, bid)], s0.data, s'.data, f, size, unit);
        }
      }
    }
  }

  /** The data blocks are done, and index blocks are not asked for. */
  lemma FlushedData(s0: State, s: State, f: int, size: nat, unit: nat, a: seq<Key>, b: seq<Key>)
    requires Paused(s0, s, f, false, size, unit, a, b, false) && NoneOf(s.data, f) && |a| + |b| > 0
    ensures FlushOrder(s0, f, false, size, unit, a, b)
  {
    hide Swept, Running, FirstRun;
    SizeLess(|a|, size, unit);
    RunEnd(a, s0.data, s.data, f, size, unit);
  }

  /** Nothing is left in either tree. */
  lemma FlushDone(s0: State, s: State, f: int, all: bool, size: nat, unit: nat, a: seq<Key>, b: seq<Key>)
    requires Paused(s0, s, f, all, size, unit, a, b, true) && NoneOf(s.index, f)
    ensures FlushOrder(s0, f, all, size, unit, a, b) && NoneOf(s.data, f)
  {
    hide Swept, Running, FirstRun, Lists;
    if all {
      SweptEnd(a, s0.data, s.data, f);
      SweptEnd(b, s0.index, s.index, f);
    } else {
      SweptNone(a, s0.data, s.data, f, size, unit);
      if b == [] {
        SweptNone(b, s0.index, s.index, f, size, unit);
      } else {
        SizeLess(|b|, size, unit);
        RunEnd(b, s0.index, s.index, f, size, unit);
      }
    }
  }

  lemma SizeLess(n: nat, size: nat, unit: nat)
    requires n > 0 && n * size < unit
    ensures (n - 1) * size < unit
  {
    MulMono(n - 1, n, size);
  }

  /** The next block is not the one behind the last. */
  lemma FlushStopped(s0: State, s: State, f: int, size: nat, unit: nat, a: seq<Key>, b: seq<Key>, completed: bool,
                     bid: int)
    requires Paused(s0, s, f, false, size, unit, a, b, completed)
    requires LastBid(a, b).Some? && bid != LastBid(a, b).value + 1
    requires var left := if completed then s.index else s.data;
             Key(f, bid) in left && forall k :: k in left && k.file == f ==> bid <= k.bid
    ensures FlushOrder(s0, f, false, size, unit, a, b)
  {
    hide Running, FirstRun;
    var out, left := if completed then b else a, if completed then s.index else s.data;
    var ks := if completed then s0.index else s0.data;
    RunNext(out, f, left, bid);
    hide Swept;
    SizeLess(|out|, size, unit);
    RunEnd(out, ks, left, f, size, unit);
    if completed { SweptNone(a, s0.data, s.data, f, size, unit); }
  }

  lemma OneItemEach(s: State, h: Trace, n: nat, size: nat)
    requires Ok(s, h, n, size)
    ensures forall x, y :: x in s.hash && y in s.hash && s.hash[x] == s.hash[y] ==> x == y
  {
  }

  lemma AllFlushed(s0: State, s: State, f: int)
    requires Progress(s0, s, f) && forall k :: IsDirty(s, k) ==> k.file != f
    ensures s.disk == s0.disk + FileDirty(s0, f)
  {
    hide Stamp;
  }

  /** A write that no flush has followed, lost to a write of no bytes. */
  method LostWrite() returns (r: Option<Bytes>)
    ensures r == Some(seq(32, _ => 0))
  {
    var k, zeros, ones := Key(0, 0), seq(32, _ => 0), seq(32, _ => 1);
    var c := new BlockCache(1, 1, 32, 32, true, map[k := zeros]);
    c.WriteBlock(k, 0, ones, false);
    assert c.h.last[k] == ones by { assert c.h.last[k][0..32] == c.h.last[k]; }
    c.WriteBlock(k, 0, [], false);
    r := c.ReadBlock(k);
  }

  lemma EmptyOk(s: State, n: nat, size: nat)
    requires n > 0 && size > CRC_OFFSET + CRC_LEN && (forall k :: k in s.disk ==> |s.disk[k]| == size)
    requires s == State(s.items, s.freelist, |s.freelist|, map[], map[], {}, {}, map[], s.disk) && Distinct(s.freelist)
    requires (forall j :: 0 <= j < |s.items| ==> s.items[j].free) && forall j :: j in s.freelist <==> 0 <= j < |s.items|
    ensures Ok(s, Trace(s.disk, {}, map[]), n, size)
  {
    forall f ensures KeysOf(s.hash, f) == {} {}
  }

  /** Exactly the blocks in the cache or on disk have last bytes, and a read gives them. */
  lemma LastKnown(s: State, h: Trace, n: nat, size: nat, k: Key)
    requires Ok(s, h, n, size)
    ensures k in h.last <==> k in s.hash || k in s.disk
    ensures k in s.hash ==> Cached(s, k) && Same(s.items[s.hash[k]].data, h.last[k], k in h.touched)
    ensures k !in s.hash && k in s.disk ==> Same(s.disk[k], h.last[k], k in h.touched)
    ensures k in h.last ==> |h.last[k]| == size
  {
    hide FreeOk, CleanOk, DirtyOk, CountOk, Synced;
    if k in h.last {
      assert Same(View(s.items, s.hash, s.disk, k), h.last[k], k in h.touched);
    }
  }

  lemma DiskBlock(s: State, h: Trace, n: nat, size: nat, k: Key)
    requires Ok(s, h, n, size) && k in s.disk
    ensures |s.disk[k]| == size
  {
  }

  lemma PatchAll(a: Bytes, buf: Bytes, touched: bool)
    requires |a| == |buf|
    ensures Patch(a, 0, buf) == buf && Same(buf, Patch(a, 0, buf), touched) && buf[0..|buf|] == buf
  {
  }

  lemma PatchPart(a: Bytes, offset: nat, buf: Bytes)
    requires offset + |buf| <= |a|
    ensures Patch(a, offset, buf)[offset..offset + |buf|] == buf && (buf == [] ==> Patch(a, offset, buf) == a)
  {
  }

  lemma SameAny(a: Bytes, touched: bool)
    ensures Same(a, a, touched)
  {
  }

  lemma QuietLast(h: Trace, h': Trace)
    requires Quiet(h, h')
    ensures h'.last == h.last && h.touched <= h'.touched && h'.born == h.born
    ensures forall x :: x in h'.touched && x !in h.touched ==> x in h.last && Marker(h.last[x]) == BNODE
  {
  }

  lemma StillOutside(s: State, s': State, k: Key)
    requires Outside(s, s') && k !in s.hash
    ensures k !in s'.hash && SameDisk(s, s', k)
  {
  }

  /** The shard visited j steps after the first one of a round. */
  function Turn(start: nat, j: int, n: nat): int
    requires n > 0
  {
    (start + 1 + j) % n
  }

  /** `_shard_empty` */
  predicate ShardEmpty(s: State, f: int, i: int, n: nat)
    requires n > 0
  {
    && ListOf(s.clean, Key(f, i)) == []
    && (forall k :: k in s.data ==> !(k.file == f && k.bid % n == i))
    && (forall k :: k in s.index ==> !(k.file == f && k.bid % n == i))
  }

  /** Item e, the last one of clean list q, is free and the first one to be taken. */
  ghost predicate Freed(s: State, s': State, q: Key, e: int)
    requires 0 <= e < |s.items| && q in s.clean && s.clean[q] != []
  {
    var k := s.items[e].key;
    s' == s.(items := s.items[e := s.items[e].(free := true, score := 0)], hash := s.hash - {k},
             nitems := s.nitems[k.file := NItems(s.nitems, k.file) - 1],
             freelist := [e] + s.freelist, freecount := s.freecount + 1,
             clean := s.clean[q := s.clean[q][..|s.clean[q]| - 1]])
  }

  /** Item e, the last one of clean list q, is the first one now and has one chance less. */
  ghost predicate Spared(s: State, s': State, q: Key, e: int)
    requires 0 <= e < |s.items| && q in s.clean && s.clean[q] != []
  {
    var it := s.items[e];
    it.score > 0 && s' == s.(items := s.items[e := it.(score := it.score - 1)],
                             clean := s.clean[q := [e] + s.clean[q][..|s.clean[q]| - 1]])
  }

  /** The last item of clean list q has no second chance left, or none is given. */
  ghost predicate Frees(s: State, q: Key, docs: bool) {
    && ListOf(s.clean, q) != []
    && var e := s.clean[q][|s.clean[q]| - 1];
    0 <= e < |s.items| && (s.items[e].score == 0 || !docs)
  }

  /** One visit of an eviction: an empty shard stays, one without clean blocks leads to a
      batch of the file being written, and otherwise the last clean item is freed or spared. */
  ghost predicate Visits(s: State, s': State, q: Key, n: nat, size: nat, unit: nat, docs: bool)
    requires n > 0
  {
    if ShardEmpty(s, q.file, q.bid, n) then s' == s
    else if ListOf(s.clean, q) == [] then
      exists a, b :: FlushOrder(s, q.file, false, size, unit, a, b) && s' == FlushAllS(s, n, docs, a + b)
    else
      var e := s.clean[q][|s.clean[q]| - 1];
      0 <= e < |s.items| && if Frees(s, q, docs) then Freed(s, s', q, e) else Spared(s, s', q, e)
  }

  /** A round over the shards of f, which goes on after a visit exactly if nothing was freed. */
  ghost predicate Rounds(trail: seq<State>, s: State, s': State, f: int, start: nat, n: nat, size: nat, unit: nat,
                         docs: bool)
    requires n > 0
  {
    && 1 <= |trail| <= n + 1
    && trail[0] == s
    && trail[|trail| - 1] == s'
    && (forall j :: 0 <= j < |trail| - 1 ==>
          Visits(trail[j], trail[j + 1], Key(f, Turn(start, j, n)), n, size, unit, docs))
    && (forall j :: 0 <= j < |trail| - 2 ==> !Frees(trail[j], Key(f, Turn(start, j, n)), docs))
  }

  lemma RoundsStart(s: State, f: int, start: nat, n: nat, size: nat, unit: nat, docs: bool)
    requires n > 0
    ensures Rounds([s], s, s, f, start, n, size, unit, docs)
  {
  }

  lemma RoundsMore(trail: seq<State>, s0: State, s: State, s': State, f: int, start: nat, n: nat, size: nat, unit: nat,
                   docs: bool)
    requires n > 0 && Rounds(trail, s0, s, f, start, n, size, unit, docs) && |trail| <= n
    requires |trail| > 1 ==> !Frees(trail[|trail| - 2], Key(f, Turn(start, |trail| - 2, n)), docs)
    requires Visits(s, s', Key(f, Turn(start, |trail| - 1, n)), n, size, unit, docs)
    ensures trail[|trail| - 1] == s && Rounds(trail + [s'], s0, s', f, start, n, size, unit, docs)
  {
    hide Frees, Visits, Turn;
    var t := trail + [s'];
    forall j | 0 <= j < |t| - 1 ensures Visits(t[j], t[j + 1], Key(f, Turn(start, j, n)), n, size, unit, docs) {}
  }

  lemma LastThere(s: State, h: Trace, n: nat, size: nat, q: Key)
    requires Ok(s, h, n, size)
    ensures ListOf(s.clean, q) != [] ==> q in s.clean && 0 <= s.clean[q][|s.clean[q]| - 1] < |s.items|
  {
    hide Ok, Shard, Without;
    if ListOf(s.clean, q) != [] { LastFacts(s, h, n, size, q); }
  }

  lemma EmptyStays(s: State, f: int, i: int, n: nat, size: nat, unit: nat, docs: bool)
    requires n > 0 && ShardEmpty(s, f, i, n)
    ensures Visits(s, s, Key(f, i), n, size, unit, docs) && !Frees(s, Key(f, i), docs)
  {
  }

  lemma VisitFlush(s: State, s': State, q: Key, n: nat, size: nat, unit: nat, docs: bool, a: seq<Key>, b: seq<Key>)
    requires n > 0 && !ShardEmpty(s, q.file, q.bid, n) && ListOf(s.clean, q) == []
    requires FlushOrder(s, q.file, false, size, unit, a, b) && s' == FlushAllS(s, n, docs, a + b)
    ensures Visits(s, s', q, n, size, unit, docs) && !Frees(s, q, docs)
  {
    hide FlushOrder, FlushAllS, ShardEmpty;
  }

  lemma VisitFrees(s: State, s': State, q: Key, n: nat, size: nat, unit: nat, docs: bool)
    requires n > 0 && !ShardEmpty(s, q.file, q.bid, n) && ListOf(s.clean, q) != []
    requires var e := s.clean[q][|s.clean[q]| - 1];
             0 <= e < |s.items| && (s.items[e].score == 0 || !docs) && Freed(s, s', q, e)
    ensures Visits(s, s', q, n, size, unit, docs) && Frees(s, q, docs)
  {
    hide ShardEmpty, Freed;
  }

  lemma VisitSpares(s: State, s': State, q: Key, n: nat, size: nat, unit: nat, docs: bool)
    requires n > 0 && !ShardEmpty(s, q.file, q.bid, n) && ListOf(s.clean, q) != []
    requires var e := s.clean[q][|s.clean[q]| - 1];
             0 <= e < |s.items| && s.items[e].score > 0 && docs && Spared(s, s', q, e)
    ensures Visits(s, s', q, n, size, unit, docs) && !Frees(s, q, docs)
  {
    hide ShardEmpty, Spared;
  }

  lemma DirtyShard(s: State, f: int, i: int, n: nat)
    requires n > 0 && !ShardEmpty(s, f, i, n) && ListOf(s.clean, Key(f, i)) == []
    ensures exists k: Key :: k.file == f && (k in s.data || k in s.index)
  {
  }

  lemma {:induction false} PopBack(l: seq<int>)
    requires Distinct(l) && l != []
    ensures Without(l, l[|l| - 1]) == l[..|l| - 1]
    decreases l
  {
    if |l| > 1 {
      PopBack(l[1..]);
      assert l[1..][..|l| - 2] == l[1..|l| - 1];
    } else {
      assert l == [l[0]] && l[1..] == [];
    }
  }

  lemma LastFacts(s: State, h: Trace, n: nat, size: nat, q: Key)
    requires Ok(s, h, n, size) && q in s.clean && s.clean[q] != []
    ensures var l := s.clean[q];
            var e := l[|l| - 1];
            && 0 <= e < |s.items| && !s.items[e].dirty && Cached(s, s.items[e].key) && s.hash[s.items[e].key] == e
               && Shard(s.items[e].key, n) == q
            && Without(l, e) == l[..|l| - 1] && !s.items[e].free && |s.items[e].data| == size
  {
    hide Shard, Without;
    var l := s.clean[q];
    var e := l[|l| - 1];
    assert e in s.clean[q];
    PopBack(l);
  }

  lemma NextTurn(start: nat, j: nat, n: nat)
    requires n > 0
    ensures ((start + j) % n + 1) % n == Turn(start, j, n) == (start + (j + 1)) % n && 0 <= Turn(start, j, n) < n
  {
    ModStep(start + j, n);
  }

  lemma ModStep(x: int, n: nat)
    requires n > 0
    ensures (x % n + 1) % n == (x + 1) % n
  {
    var q := x / n;
    assert x == q * n + x % n;
    if x % n + 1 < n {
      ModUnique(x + 1, q, x % n + 1, n);
      ModUnique(x % n + 1, 0, x % n + 1, n);
    } else {
      ModUnique(x + 1, q + 1, 0, n);
      ModUnique(x % n + 1, 1, 0, n);
    }
  }

  /** A round from start passes every shard. */
  lemma ModCover(start: nat, r: int, n: nat) returns (j: int)
    requires n > 0 && 0 <= r < n
    ensures 0 <= j < n && Turn(start, j, n) == r
  {
    j := (r - start - 1) % n;
    var q := (r - start - 1) / n;
    assert r - start - 1 == q * n + j;
    assert start + 1 + j == (-q) * n + r;
    ModUnique(start + 1 + j, -q, r, n);
  }

  /** A file with items has a shard that is not empty. */
  lemma SomeShard(s: State, h: Trace, n: nat, size: nat, f: int, start: nat)
    requires Ok(s, h, n, size) && NItems(s.nitems, f) > 0
    ensures exists j :: 0 <= j < n && !ShardEmpty(s, f, Turn(start, j, n), n)
  {
    KeysSome(s, h, n, size, f);
    var k :| k in s.hash && k.file == f;
    CachedFacts(s, h, n, size, k);
    var j := ModCover(start, k.bid % n, n);
    hide Ok;
    NotEmpty(s, h, n, size, k);
  }

  lemma NotEmpty(s: State, h: Trace, n: nat, size: nat, k: Key)
    requires Ok(s, h, n, size) && k in s.hash
    ensures !ShardEmpty(s, k.file, k.bid % n, n)
  {
    CachedFacts(s, h, n, size, k);
    assert s.items[s.hash[k]].dirty ==> k in s.data || k in s.index;
  }

  lemma KeysSome(s: State, h: Trace, n: nat, size: nat, f: int)
    requires Ok(s, h, n, size) && NItems(s.nitems, f) > 0
    ensures exists k :: k in s.hash && k.file == f
  {
    hide HashOk, FreeOk, CleanOk, DirtyOk, Synced, Recent;
    NoKeys(s.hash, f);
  }

  lemma NoKeys(hash: map<Key, int>, f: int)
    ensures KeysOf(hash, f) == {} || exists k :: k in hash && k.file == f
  {
    if forall k :: k in hash ==> k.file != f {
      assert KeysOf(hash, f) == {};
    }
  }

  /** With no free item some file has items. */
  lemma Victim(s: State, h: Trace, n: nat, size: nat)
    requires Ok(s, h, n, size) && s.freelist == [] && s.items != []
    ensures exists f :: NItems(s.nitems, f) > 0
  {
    assert !s.items[0].free;
    var k := s.items[0].key;
    assert k in KeysOf(s.hash, k.file);
    assert NItems(s.nitems, k.file) == |KeysOf(s.hash, k.file)|;
  }

  /** The bids of a file's blocks in a set of blocks. */
  function Bids(ks: set<Key>, f: int): set<int> {
    set k | k in ks && k.file == f :: k.bid
  }

  lemma NoBids(ks: set<Key>, f: int)
    requires Bids(ks, f) == {}
    ensures NoneOf(ks, f) && forall k :: k in ks ==> k.file != f
  {
    forall k | k in ks ensures k.file != f {
      assert k.file == f ==> k.bid in Bids(ks, f);
    }
  }

  lemma BidIn(ks: set<Key>, f: int, b: int)
    requires b in Bids(ks, f)
    ensures Key(f, b) in ks
  {
    var k :| k in ks && k.file == f && k.bid == b;
    assert k == Key(f, b);
  }

  lemma FewerKeys(a: set<Key>, b: set<Key>, k: Key)
    requires k in a || k in b
    ensures |a - {k}| + |b - {k}| < |a| + |b|
  {
    assert |a - {k}| == |a| - if k in a then 1 else 0;
    assert |b - {k}| == |b| - if k in b then 1 else 0;
  }

  lemma StillNone(ks: set<Key>, k: Key, f: int)
    ensures NoneOf(ks, f) ==> NoneOf(ks - {k}, f)
  {
  }

  lemma QuietSelf(h: Trace)
    ensures Quiet(h, h)
  {
  }

  lemma DirtyFacts(s: State, h: Trace, n: nat, size: nat, k: Key)
    requires Ok(s, h, n, size) && (k in s.data || k in s.index)
    ensures Cached(s, k) && s.items[s.hash[k]].dirty && !s.items[s.hash[k]].free
  {
  }

  lemma OkNumbers(s: State, h: Trace, n: nat, size: nat)
    requires Ok(s, h, n, size)
    ensures n > 0 && size > CRC_OFFSET + CRC_LEN
  {
  }

  lemma OkRecent(s: State, h: Trace, n: nat, size: nat)
    requires Ok(s, h, n, size)
    ensures Recent(s.items, s.hash, s.disk, h.last, h.touched) && HashOk(s.items, s.hash, size)
  {
  }

  lemma Relisted(s: State, n: nat, k: Key, it: Item)
    requires n > 0 && Cached(s, k)
    ensures var i, q := s.hash[k], Shard(k, n);
            Relist(s, n, k, it) ==
              if s.items[i].dirty then s.clean
              else if it.dirty then s.clean[q := Without(ListOf(s.clean, q), i)]
              else s.clean[q := Without(ListOf(s.clean, q), i)][q := [i] + Without(ListOf(s.clean, q), i)]
  {
  }
}
