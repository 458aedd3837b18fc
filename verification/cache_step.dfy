/** What single steps of the block cache keep (src/blockcache.cc). */
module CacheStep {
  import opened Sets
  import opened CacheBlock
  import opened CacheState

  function ListOf(clean: map<Key, seq<int>>, q: Key): seq<int> {
    if q in clean then clean[q] else []
  }

  // ----- a free item takes a block -----

  lemma TakeHash(items: seq<Item>, hash: map<Key, int>, freelist: seq<int>, size: nat, i: int, it: Item)
    requires HashOk(items, hash, size) && FreeOk(items, hash, freelist) && freelist != [] && freelist[0] == i
    requires it.key !in hash && !it.free && |it.data| == size
    ensures 0 <= i < |items| && items[i].free && HashOk(items[i := it], hash[it.key := i], size)
    ensures FreeOk(items[i := it], hash[it.key := i], freelist[1..])
  {
    assert i in freelist;
    assert i !in freelist[1..];
    forall j | j in freelist[1..] ensures j in freelist && j != i {}
    forall j | j in freelist && j != i ensures j in freelist[1..] {}
  }

  lemma TakeClean(items: seq<Item>, clean: map<Key, seq<int>>, n: nat, i: int, it: Item)
    requires n > 0 && CleanOk(items, clean, n) && 0 <= i < |items| && items[i].free && !it.free
    ensures it.dirty ==> CleanOk(items[i := it], clean, n)
    ensures !it.dirty ==> var q := Shard(it.key, n); CleanOk(items[i := it], clean[q := [i] + ListOf(clean, q)], n)
  {
    hide Shard;
    var q := Shard(it.key, n);
    assert forall p :: p in clean ==> i !in clean[p];
    var l := ListOf(clean, q);
    assert i !in l && Distinct(l);
    PushDistinct(l, i);
  }

  lemma PushDistinct(l: seq<int>, i: int)
    requires Distinct(l) && i !in l
    ensures Distinct([i] + l)
  {
  }

  lemma TakeDirty(items: seq<Item>, hash: map<Key, int>, data: set<Key>, index: set<Key>, size: nat, i: int, it: Item)
    requires DirtyOk(items, hash, data, index) && HashOk(items, hash, size) && 0 <= i < |items| && items[i].free
             && it.key !in hash
    ensures !it.dirty ==> DirtyOk(items[i := it], hash[it.key := i], data, index)
    ensures it.dirty ==> DirtyOk(items[i := it], hash[it.key := i], data + {it.key}, index)
    ensures it.dirty ==> DirtyOk(items[i := it], hash[it.key := i], data, index + {it.key})
  {
  }

  lemma KeysPut(hash: map<Key, int>, k: Key, i: int, f: int)
    requires k !in hash
    ensures |KeysOf(hash[k := i], f)| == |KeysOf(hash, f)| + if k.file == f then 1 else 0
  {
    assert KeysOf(hash[k := i], f) == KeysOf(hash, f) + if k.file == f then {k} else {};
  }

  lemma KeysDrop(hash: map<Key, int>, k: Key, f: int)
    requires k in hash
    ensures |KeysOf(hash - {k}, f)| == |KeysOf(hash, f)| - if k.file == f then 1 else 0
  {
    assert KeysOf(hash - {k}, f) == KeysOf(hash, f) - {k};
  }

  lemma TakeCount(freelist: seq<int>, freecount: int, hash: map<Key, int>, nitems: map<int, int>, k: Key, i: int)
    requires CountOk(freelist, freecount, hash, nitems) && freelist != [] && k !in hash
    ensures CountOk(freelist[1..], freecount - 1, hash[k := i], nitems[k.file := NItems(nitems, k.file) + 1])
  {
    hide KeysOf;
    var nitems' := nitems[k.file := NItems(nitems, k.file) + 1];
    forall f ensures NItems(nitems', f) == |KeysOf(hash[k := i], f)| {
      KeysPut(hash, k, i, f);
      assert NItems(nitems, f) == |KeysOf(hash, f)|;
    }
  }

  lemma TakeSynced(items: seq<Item>, hash: map<Key, int>, disk: map<Key, Bytes>, size: nat, i: int, it: Item)
    requires Synced(items, hash, disk) && HashOk(items, hash, size) && 0 <= i < |items| && items[i].free
    requires !it.dirty ==> it.key in disk && disk[it.key] == it.data
    ensures Synced(items[i := it], hash[it.key := i], disk)
  {
  }

  lemma TakeRecent(items: seq<Item>, hash: map<Key, int>, disk: map<Key, Bytes>, last: map<Key, Bytes>,
                   touched: set<Key>, size: nat, i: int, it: Item)
    requires Recent(items, hash, disk, last, touched) && HashOk(items, hash, size) && 0 <= i < |items| && items[i].free
             && it.key !in hash
    ensures Recent(items[i := it], hash[it.key := i], disk, last[it.key := it.data], touched - {it.key})
    ensures it.key in disk && disk[it.key] == it.data ==> Recent(items[i := it], hash[it.key := i], disk, last, touched)
  {
    hide Same;
    SameSelf(it.data);
  }

  lemma SameSelf(a: Bytes)
    ensures Same(a, a, false)
  {
  }

  // ----- a cached block changes in place -----

  lemma StoreHash(items: seq<Item>, hash: map<Key, int>, freelist: seq<int>, size: nat, k: Key, it: Item)
    requires HashOk(items, hash, size) && FreeOk(items, hash, freelist) && k in hash && it.key == k && !it.free
             && |it.data| == size
    ensures HashOk(items[hash[k] := it], hash, size) && FreeOk(items[hash[k] := it], hash, freelist)
  {
  }

  /** A clean item moves to the front of its list, or leaves it for a dirty tree. */
  lemma StoreClean(items: seq<Item>, clean: map<Key, seq<int>>, n: nat, i: int, it: Item)
    requires n > 0 && CleanOk(items, clean, n) && 0 <= i < |items| && !items[i].free && !items[i].dirty
             && it.key == items[i].key && !it.free
    ensures var q := Shard(it.key, n);
            && q in clean && i in clean[q]
            && (it.dirty ==> CleanOk(items[i := it], clean[q := Without(clean[q], i)], n))
            && (!it.dirty ==> CleanOk(items[i := it], clean[q := [i] + Without(clean[q], i)], n))
  {
    hide Shard, Without;
    var q := Shard(it.key, n);
    assert q in clean && i in clean[q];
    WithoutDistinct(clean[q], i);
    var l := Without(clean[q], i);
    assert i !in l;
    PushDistinct(l, i);
    assert forall p :: p in clean && p != q ==> i !in clean[p];
  }

  /** A dirty item stays dirty. */
  lemma StoreStill(items: seq<Item>, clean: map<Key, seq<int>>, n: nat, i: int, it: Item)
    requires n > 0 && CleanOk(items, clean, n) && 0 <= i < |items| && !items[i].free && items[i].dirty
             && it.key == items[i].key && !it.free && it.dirty
    ensures CleanOk(items[i := it], clean, n)
  {
    hide Shard;
  }

  lemma StoreDirty(items: seq<Item>, hash: map<Key, int>, data: set<Key>, index: set<Key>, size: nat, k: Key, it: Item)
    requires DirtyOk(items, hash, data, index) && HashOk(items, hash, size) && k in hash && it.key == k
    ensures it.dirty == items[hash[k]].dirty ==> DirtyOk(items[hash[k] := it], hash, data, index)
    ensures it.dirty && !items[hash[k]].dirty ==>
              DirtyOk(items[hash[k] := it], hash, data + {k}, index)
              && DirtyOk(items[hash[k] := it], hash, data, index + {k})
    ensures !it.dirty && items[hash[k]].dirty ==> DirtyOk(items[hash[k] := it], hash, data - {k}, index - {k})
  {
  }

  lemma StoreSynced(items: seq<Item>, hash: map<Key, int>, disk: map<Key, Bytes>, size: nat, k: Key, it: Item)
    requires Synced(items, hash, disk) && HashOk(items, hash, size) && k in hash && it.key == k
    requires !it.dirty ==> k in disk && disk[k] == it.data
    ensures Synced(items[hash[k] := it], hash, disk)
  {
  }

  lemma StoreRecent(items: seq<Item>, hash: map<Key, int>, disk: map<Key, Bytes>, last: map<Key, Bytes>,
                    touched: set<Key>, size: nat, k: Key, it: Item)
    requires Recent(items, hash, disk, last, touched) && HashOk(items, hash, size) && k in hash && it.key == k
    ensures k in last
    ensures Recent(items[hash[k] := it], hash, disk, last[k := it.data], touched - {k})
    ensures it.data == items[hash[k]].data ==> Recent(items[hash[k] := it], hash, disk, last, touched)
  {
    hide Same;
    SameSelf(it.data);
  }

  lemma PatchSame(a: Bytes, b: Bytes, touched: bool, pos: nat, bytes: Bytes)
    requires Same(a, b, touched) && pos + |bytes| <= |a|
    ensures |a| == |b| && Same(Patch(a, pos, bytes), Patch(b, pos, bytes), touched)
  {
  }

  /** A partial write changes the same bytes in the cache and in what was last written. */
  lemma PatchRecent(items: seq<Item>, hash: map<Key, int>, disk: map<Key, Bytes>, last: map<Key, Bytes>,
                    touched: set<Key>, size: nat, k: Key, it: Item, pos: nat, bytes: Bytes)
    requires Recent(items, hash, disk, last, touched) && HashOk(items, hash, size) && k in hash && it.key == k
             && pos + |bytes| <= size
    requires it.data == Patch(items[hash[k]].data, pos, bytes)
    ensures k in last && |last[k]| == size
            && Recent(items[hash[k] := it], hash, disk, last[k := Patch(last[k], pos, bytes)], touched)
  {
    hide Same, Patch;
    assert Same(View(items, hash, disk, k), last[k], k in touched);
    PatchSame(items[hash[k]].data, last[k], k in touched, pos, bytes);
  }

  // ----- flushing a block -----

  lemma StampSame(a: Bytes, b: Bytes, touched: bool)
    requires Same(a, b, touched)
    ensures Same(Stamp(a), b, touched || Marker(a) == BNODE)
  {
  }

  lemma FlushSynced(items: seq<Item>, hash: map<Key, int>, disk: map<Key, Bytes>, size: nat, k: Key, it: Item)
    requires Synced(items, hash, disk) && HashOk(items, hash, size) && k in hash && it.key == k
    ensures Synced(items[hash[k] := it], hash, disk[k := it.data])
  {
  }

  lemma FlushRecent(items: seq<Item>, hash: map<Key, int>, disk: map<Key, Bytes>, last: map<Key, Bytes>,
                    touched: set<Key>, size: nat, k: Key, it: Item)
    requires Recent(items, hash, disk, last, touched) && HashOk(items, hash, size) && k in hash && it.key == k
             && it.data == Stamp(items[hash[k]].data)
    ensures Recent(items[hash[k] := it], hash, disk[k := it.data], last,
                   if Marker(items[hash[k]].data) == BNODE then touched + {k} else touched)
  {
    hide Same, Stamp, Marker;
    assert Same(View(items, hash, disk, k), last[k], k in touched);
    StampSame(items[hash[k]].data, last[k], k in touched);
    StampPlain(items[hash[k]].data, last[k], k in touched);
  }

  lemma StampPlain(a: Bytes, b: Bytes, touched: bool)
    requires Same(a, b, touched)
    ensures Marker(a) != BNODE ==> Same(Stamp(a), b, touched)
    ensures Marker(a) == BNODE ==> Same(Stamp(a), b, true)
  {
  }

  lemma FlushClean(items: seq<Item>, clean: map<Key, seq<int>>, n: nat, i: int, it: Item)
    requires n > 0 && CleanOk(items, clean, n) && 0 <= i < |items| && !items[i].free && items[i].dirty
             && it.key == items[i].key && !it.free && !it.dirty
    ensures var q := Shard(it.key, n); CleanOk(items[i := it], clean[q := [i] + ListOf(clean, q)], n)
  {
    hide Shard;
    var q := Shard(it.key, n);
    assert forall p :: p in clean ==> i !in clean[p];
    var l := ListOf(clean, q);
    PushDistinct(l, i);
  }

  // ----- a clean or flushed item becomes free -----

  lemma DropHash(items: seq<Item>, hash: map<Key, int>, freelist: seq<int>, size: nat, k: Key, it: Item)
    requires HashOk(items, hash, size) && FreeOk(items, hash, freelist) && k in hash && it.free
    ensures HashOk(items[hash[k] := it], hash - {k}, size)
            && FreeOk(items[hash[k] := it], hash - {k}, [hash[k]] + freelist)
  {
    var i := hash[k];
    assert i !in freelist;
    PushDistinct(freelist, i);
    forall j ensures j in [i] + freelist <==> j == i || j in freelist {}
  }

  lemma DropClean(items: seq<Item>, clean: map<Key, seq<int>>, n: nat, i: int, it: Item)
    requires n > 0 && CleanOk(items, clean, n) && 0 <= i < |items| && !items[i].free && it.free
    ensures items[i].dirty ==> CleanOk(items[i := it], clean, n)
    ensures !items[i].dirty ==>
            var q := Shard(items[i].key, n);
            q in clean && i in clean[q] && CleanOk(items[i := it], clean[q := Without(clean[q], i)], n)
  {
    hide Shard, Without;
    if !items[i].dirty {
      var q := Shard(items[i].key, n);
      assert q in clean && i in clean[q];
      WithoutDistinct(clean[q], i);
      assert forall p :: p in clean && p != q ==> i !in clean[p];
    }
  }

  lemma DropDirty(items: seq<Item>, hash: map<Key, int>, data: set<Key>, index: set<Key>, size: nat, k: Key, it: Item)
    requires DirtyOk(items, hash, data, index) && HashOk(items, hash, size) && k in hash
    ensures DirtyOk(items[hash[k] := it], hash - {k}, data - {k}, index - {k})
    ensures !items[hash[k]].dirty ==> DirtyOk(items[hash[k] := it], hash - {k}, data, index)
  {
  }

  lemma DropCount(freelist: seq<int>, freecount: int, hash: map<Key, int>, nitems: map<int, int>, k: Key)
    requires CountOk(freelist, freecount, hash, nitems) && k in hash
    ensures CountOk([hash[k]] + freelist, freecount + 1, hash - {k}, nitems[k.file := NItems(nitems, k.file) - 1])
  {
    hide KeysOf;
    var nitems' := nitems[k.file := NItems(nitems, k.file) - 1];
    forall f ensures NItems(nitems', f) == |KeysOf(hash - {k}, f)| {
      KeysDrop(hash, k, f);
      assert NItems(nitems, f) == |KeysOf(hash, f)|;
    }
  }

  /** Dropping an item that equals the disk loses nothing. */
  lemma DropRecent(items: seq<Item>, hash: map<Key, int>, disk: map<Key, Bytes>, last: map<Key, Bytes>,
                   touched: set<Key>, size: nat, k: Key, it: Item)
    requires Recent(items, hash, disk, last, touched) && Synced(items, hash, disk) && HashOk(items, hash, size)
             && k in hash
    requires k in disk && disk[k] == items[hash[k]].data
    ensures Recent(items[hash[k] := it], hash - {k}, disk, last, touched)
            && Synced(items[hash[k] := it], hash - {k}, disk)
  {
    hide Same;
  }

  // ----- steps of the whole cache -----

  function Score(data: Bytes): nat {
    if Marker(data) == BNODE then 1 else 0
  }

  ghost function PushClean(s: State, n: nat, k: Key, i: int): map<Key, seq<int>>
    requires n > 0
  {
    s.clean[Shard(k, n) := [i] + ListOf(s.clean, Shard(k, n))]
  }

  /** A free item takes the block. */
  ghost function TakeS(s: State, n: nat, k: Key, buf: Bytes, dirty: bool, final: bool): State
    requires n > 0 && s.freelist != [] && 0 <= s.freelist[0] < |s.items|
  {
    var i, node := s.freelist[0], Marker(buf) == BNODE;
    s.(items := s.items[i := Item(k, buf, dirty, dirty && !node && final, false, Score(buf))],
       freelist := s.freelist[1..], freecount := s.freecount - 1, hash := s.hash[k := i],
       nitems := s.nitems[k.file := NItems(s.nitems, k.file) + 1],
       index := if dirty && node then s.index + {k} else s.index,
       data := if dirty && !node then s.data + {k} else s.data,
       clean := if dirty then s.clean else PushClean(s, n, k, i))
  }

  /** The block was written in full. */
  ghost function Wrote(h: Trace, k: Key, buf: Bytes, enters: bool): Trace {
    Trace(h.last[k := buf], h.touched - {k}, if enters then h.born[k := Marker(buf)] else h.born)
  }

  /** A block that was not dirty enters the tree of its marker. */
  lemma EnterTree(s: State, h: Trace, n: nat, size: nat, k: Key, m: int)
    requires Ok(s, h, n, size) && (k in s.hash ==> !s.items[s.hash[k]].dirty)
    ensures k !in s.data && k !in s.index
    ensures TreesOk(if m == BNODE then s.data else s.data + {k}, if m == BNODE then s.index + {k} else s.index,
                    h.born[k := m])
  {
  }

  lemma FreeHead(s: State, h: Trace, n: nat, size: nat)
    requires Ok(s, h, n, size) && s.freelist != []
    ensures 0 <= s.freelist[0] < |s.items| && s.items[s.freelist[0]].free
  {
    assert s.freelist[0] in s.freelist;
  }

  lemma TakeOk(s: State, h: Trace, n: nat, size: nat, k: Key, buf: Bytes, dirty: bool, final: bool)
    requires Ok(s, h, n, size) && s.freelist != [] && 0 <= s.freelist[0] < |s.items| && k !in s.hash && |buf| == size
    requires dirty || (k in s.disk && s.disk[k] == buf)
    ensures Ok(TakeS(s, n, k, buf, dirty, final), if dirty then Wrote(h, k, buf, true) else h, n, size)
  {
    hide HashOk, FreeOk, CleanOk, DirtyOk, CountOk, Synced, Recent, Shard, Marker, TreesOk;
    EnterTree(s, h, n, size, k, Marker(buf));
    var i := s.freelist[0];
    var it := Item(k, buf, dirty, dirty && Marker(buf) != BNODE && final, false, Score(buf));
    TakeHash(s.items, s.hash, s.freelist, size, i, it);
    TakeClean(s.items, s.clean, n, i, it);
    TakeDirty(s.items, s.hash, s.data, s.index, size, i, it);
    TakeCount(s.freelist, s.freecount, s.hash, s.nitems, k, i);
    TakeSynced(s.items, s.hash, s.disk, size, i, it);
    TakeRecent(s.items, s.hash, s.disk, h.last, h.touched, size, i, it);
  }

  ghost predicate Cached(s: State, k: Key) {
    k in s.hash && 0 <= s.hash[k] < |s.items|
  }

  lemma CachedFacts(s: State, h: Trace, n: nat, size: nat, k: Key)
    requires Ok(s, h, n, size) && k in s.hash
    ensures Cached(s, k) && s.items[s.hash[k]].key == k && !s.items[s.hash[k]].free && |s.items[s.hash[k]].data| == size
    ensures !s.items[s.hash[k]].dirty ==> k in s.disk && s.disk[k] == s.items[s.hash[k]].data
    ensures !s.items[s.hash[k]].dirty ==> Shard(k, n) in s.clean && s.hash[k] in s.clean[Shard(k, n)]
  {
  }

  /** The lists after item i of block k was replaced by it. */
  ghost function Relist(s: State, n: nat, k: Key, it: Item): map<Key, seq<int>>
    requires n > 0 && Cached(s, k)
  {
    var i, q := s.hash[k], Shard(k, n);
    if s.items[i].dirty then s.clean
    else if it.dirty then s.clean[q := Without(ListOf(s.clean, q), i)]
    else s.clean[q := [i] + Without(ListOf(s.clean, q), i)]
  }

  /** A cached block is rewritten; a clean block that becomes dirty enters a tree. */
  ghost function StoreS(s: State, n: nat, k: Key, it: Item, node: bool): State
    requires n > 0 && Cached(s, k)
  {
    var enters := it.dirty && !s.items[s.hash[k]].dirty;
    s.(items := s.items[s.hash[k] := it], clean := Relist(s, n, k, it),
       index := if enters && node then s.index + {k} else s.index,
       data := if enters && !node then s.data + {k} else s.data)
  }

  lemma StoreOk(s: State, h: Trace, n: nat, size: nat, k: Key, it: Item, node: bool, h': Trace)
    requires Ok(s, h, n, size) && Cached(s, k) && it.key == k && !it.free && |it.data| == size
    requires it.dirty || (!s.items[s.hash[k]].dirty && it.data == s.items[s.hash[k]].data)
    requires Recent(s.items[s.hash[k] := it], s.hash, s.disk, h'.last, h'.touched)
    requires it.dirty && !s.items[s.hash[k]].dirty ==>
               k in h'.born && h'.born == h.born[k := h'.born[k]] && (node <==> h'.born[k] == BNODE)
    requires !it.dirty || s.items[s.hash[k]].dirty ==> h'.born == h.born
    ensures Ok(StoreS(s, n, k, it, node), h', n, size)
  {
    hide HashOk, FreeOk, CleanOk, DirtyOk, CountOk, Synced, Recent, Shard, Without, TreesOk;
    if it.dirty && !s.items[s.hash[k]].dirty {
      EnterTree(s, h, n, size, k, h'.born[k]);
    }
    CachedFacts(s, h, n, size, k);
    StoreHash(s.items, s.hash, s.freelist, size, k, it);
    StoreDirty(s.items, s.hash, s.data, s.index, size, k, it);
    StoreSynced(s.items, s.hash, s.disk, size, k, it);
    if s.items[s.hash[k]].dirty {
      StoreStill(s.items, s.clean, n, s.hash[k], it);
    } else {
      StoreClean(s.items, s.clean, n, s.hash[k], it);
    }
  }

  lemma LeaveTree(s: State, h: Trace, n: nat, size: nat, k: Key)
    requires Ok(s, h, n, size)
    ensures TreesOk(s.data - {k}, s.index - {k}, h.born)
  {
    hide HashOk, FreeOk, CleanOk, DirtyOk, CountOk, Synced, Recent;
  }

  /** A dirty block is written to disk and becomes clean. */
  ghost function FlushS(s: State, n: nat, k: Key): State
    requires n > 0 && Cached(s, k)
  {
    var i := s.hash[k];
    var it := s.items[i].(data := Stamp(s.items[i].data), dirty := false, immutable := false);
    s.(items := s.items[i := it], clean := PushClean(s, n, k, i), data := s.data - {k}, index := s.index - {k},
       disk := s.disk[k := it.data])
  }

  /** A flushed index node was stamped. */
  ghost function Stamped(h: Trace, k: Key, data: Bytes): Trace {
    if Marker(data) == BNODE then h.(touched := h.touched + {k}) else h
  }

  lemma FlushOk(s: State, h: Trace, n: nat, size: nat, k: Key)
    requires Ok(s, h, n, size) && Cached(s, k) && s.items[s.hash[k]].dirty
    ensures Ok(FlushS(s, n, k), Stamped(h, k, s.items[s.hash[k]].data), n, size)
  {
    hide HashOk, FreeOk, CleanOk, DirtyOk, CountOk, Synced, Recent, Shard, Marker, TreesOk;
    LeaveTree(s, h, n, size, k);
    CachedFacts(s, h, n, size, k);
    var i := s.hash[k];
    var it := s.items[i].(data := Stamp(s.items[i].data), dirty := false, immutable := false);
    StoreHash(s.items, s.hash, s.freelist, size, k, it);
    StoreDirty(s.items, s.hash, s.data, s.index, size, k, it);
    FlushClean(s.items, s.clean, n, i, it);
    FlushSynced(s.items, s.hash, s.disk, size, k, it);
    FlushRecent(s.items, s.hash, s.disk, h.last, h.touched, size, k, it);
  }

  /** The item of a block is freed. */
  ghost function DropS(s: State, n: nat, k: Key): State
    requires n > 0 && Cached(s, k)
  {
    var i, q := s.hash[k], Shard(k, n);
    s.(items := s.items[i := s.items[i].(free := true, score := 0)], hash := s.hash - {k}, freelist := [i] + s.freelist,
       freecount := s.freecount + 1,
       nitems := s.nitems[k.file := NItems(s.nitems, k.file) - 1],
       clean := s.clean[q := Without(ListOf(s.clean, q), i)])
  }

  lemma DropOk(s: State, h: Trace, n: nat, size: nat, k: Key)
    requires Ok(s, h, n, size) && Cached(s, k) && !s.items[s.hash[k]].dirty
    ensures Ok(DropS(s, n, k), h, n, size)
  {
    hide HashOk, FreeOk, CleanOk, DirtyOk, CountOk, Synced, Recent, Shard, Without, TreesOk;
    CachedFacts(s, h, n, size, k);
    var i := s.hash[k];
    var it := s.items[i].(free := true, score := 0);
    DropHash(s.items, s.hash, s.freelist, size, k, it);
    DropClean(s.items, s.clean, n, i, it);
    DropDirty(s.items, s.hash, s.data, s.index, size, k, it);
    DropCount(s.freelist, s.freecount, s.hash, s.nitems, k);
    DropRecent(s.items, s.hash, s.disk, h.last, h.touched, size, k, it);
  }

  /** A dirty block is written to disk and its item freed. */
  ghost function FlushDropS(s: State, k: Key): State
    requires Cached(s, k)
  {
    var i := s.hash[k];
    var it := s.items[i].(data := Stamp(s.items[i].data), dirty := false, immutable := false, free := true, score := 0);
    s.(items := s.items[i := it], data := s.data - {k}, index := s.index - {k}, disk := s.disk[k := it.data],
       hash := s.hash - {k},
       freelist := [i] + s.freelist, freecount := s.freecount + 1,
       nitems := s.nitems[k.file := NItems(s.nitems, k.file) - 1])
  }

  lemma FlushDropOk(s: State, h: Trace, n: nat, size: nat, k: Key)
    requires Ok(s, h, n, size) && Cached(s, k) && s.items[s.hash[k]].dirty
    ensures Ok(FlushDropS(s, k), Stamped(h, k, s.items[s.hash[k]].data), n, size)
  {
    hide HashOk, FreeOk, CleanOk, DirtyOk, CountOk, Synced, Recent, Shard, Marker, Without, TreesOk;
    LeaveTree(s, h, n, size, k);
    CachedFacts(s, h, n, size, k);
    var i := s.hash[k];
    var mid := s.items[i].(data := Stamp(s.items[i].data), dirty := false, immutable := false);
    var it := mid.(free := true, score := 0);
    DropHash(s.items, s.hash, s.freelist, size, k, it);
    DropClean(s.items, s.clean, n, i, it);
    DropDirty(s.items, s.hash, s.data, s.index, size, k, it);
    DropCount(s.freelist, s.freecount, s.hash, s.nitems, k);
    FlushSynced(s.items, s.hash, s.disk, size, k, mid);
    FlushRecent(s.items, s.hash, s.disk, h.last, h.touched, size, k, mid);
    StoreHash(s.items, s.hash, s.freelist, size, k, mid);
    var h' := Stamped(h, k, s.items[i].data);
    DropRecent(s.items[i := mid], s.hash, s.disk[k := mid.data], h'.last, h'.touched, size, k, it);
    assert s.items[i := mid][i := it] == s.items[i := it];
  }

  /** One block of a flush: written, then clean or, if documents are not cached, free. */
  ghost function FlushOneS(s: State, n: nat, docs: bool, k: Key): State {
    if n == 0 || !Cached(s, k) then s
    else if docs || Marker(Stamp(s.items[s.hash[k]].data)) == BNODE then FlushS(s, n, k)
    else FlushDropS(s, k)
  }

  ghost function FlushAllS(s: State, n: nat, docs: bool, ks: seq<Key>): State {
    if ks == [] then s else FlushOneS(FlushAllS(s, n, docs, ks[..|ks| - 1]), n, docs, ks[|ks| - 1])
  }

  lemma FlushAllPut(s: State, n: nat, docs: bool, ks: seq<Key>, k: Key)
    ensures FlushAllS(s, n, docs, ks + [k]) == FlushOneS(FlushAllS(s, n, docs, ks), n, docs, k)
  {
    assert (ks + [k])[..|ks|] == ks;
  }

  // ----- what flushing and evicting leave alone -----

  /** Nothing was written by a caller: the last bytes are the same, and only blocks last
      written as index nodes were stamped. */
  ghost predicate Quiet(h: Trace, h': Trace) {
    && h'.last == h.last
    && h'.born == h.born
    && h.touched <= h'.touched
    && forall k :: k in h'.touched && k !in h.touched ==> k in h.last && Marker(h.last[k]) == BNODE
  }

  lemma QuietMore(h0: Trace, h1: Trace, h2: Trace)
    requires Quiet(h0, h1) && Quiet(h1, h2)
    ensures Quiet(h0, h2)
  {
    hide Marker;
  }

  lemma StampQuiet(s: State, h: Trace, n: nat, size: nat, k: Key)
    requires Ok(s, h, n, size) && Cached(s, k)
    ensures Quiet(h, Stamped(h, k, s.items[s.hash[k]].data))
  {
    hide HashOk, FreeOk, CleanOk, DirtyOk, CountOk, Synced;
    CachedFacts(s, h, n, size, k);
    assert Same(View(s.items, s.hash, s.disk, k), h.last[k], k in h.touched);
  }

  /** Blocks that are not cached stay so, and their bytes on disk stay. */
  ghost predicate Outside(s: State, s': State) {
    forall k :: k !in s.hash ==>
          k !in s'.hash && (k in s'.disk <==> k in s.disk) && (k in s.disk ==> s'.disk[k] == s.disk[k])
  }

  lemma OutsideMore(s0: State, s1: State, s2: State)
    requires Outside(s0, s1) && Outside(s1, s2)
    ensures Outside(s0, s2)
  {
  }

  lemma OutsideSelf(s: State)
    ensures Outside(s, s)
  {
  }
}
