/** Where the items of the block cache are (src/blockcache.cc).

    The cache has a fixed number of items.  `hash` joins the hash tables of all shards of
    all files: a block's shard is its bid modulo the number of shards, so a block is found
    under its file and bid.  `clean` has one list for each file and shard; `data` and
    `index` join the dirty trees of all shards. */
module CacheState {
  import opened Sets
  import opened CacheBlock

  /** A block of a file; also used for a shard of a file. */
  datatype Key = Key(file: int, bid: int)

  datatype Item = Item(key: Key, data: Bytes, dirty: bool, immutable: bool, free: bool, score: nat)

  function Shard(k: Key, n: nat): Key
    requires n > 0
  {
    Key(k.file, k.bid % n)
  }

  /** Removing an element from a list. */
  function Without(s: seq<int>, x: int): (r: seq<int>)
    ensures forall y :: y in r <==> y in s && y != x
  {
    if s == [] then []
    else if s[0] == x then Without(s[1..], x)
    else [s[0]] + Without(s[1..], x)
  }

  lemma {:induction false} WithoutDistinct(s: seq<int>, x: int)
    requires Distinct(s)
    ensures Distinct(Without(s, x)) && |Without(s, x)| == |s| - if x in s then 1 else 0
    decreases s
  {
    if s != [] {
      WithoutDistinct(s[1..], x);
      assert s[0] !in s[1..];
    }
  }

  ghost predicate HashOk(items: seq<Item>, hash: map<Key, int>, size: nat) {
    forall k :: k in hash ==>
          0 <= hash[k] < |items| && items[hash[k]].key == k && !items[hash[k]].free && |items[hash[k]].data| == size
  }

  ghost predicate FreeOk(items: seq<Item>, hash: map<Key, int>, freelist: seq<int>) {
    && Distinct(freelist)
    && (forall i :: i in freelist ==> 0 <= i < |items| && items[i].free)
    && (forall i :: 0 <= i < |items| && items[i].free ==> i in freelist)
    && (forall i :: 0 <= i < |items| && !items[i].free ==> items[i].key in hash && hash[items[i].key] == i)
  }

  ghost predicate CleanOk(items: seq<Item>, clean: map<Key, seq<int>>, n: nat)
    requires n > 0
  {
    && (forall q :: q in clean ==> Distinct(clean[q]))
    && (forall q, i {:trigger i in clean[q]} :: q in clean && i in clean[q] ==>
          0 <= i < |items| && !items[i].free && !items[i].dirty && Shard(items[i].key, n) == q)
    && (forall i :: 0 <= i < |items| && !items[i].free && !items[i].dirty ==>
          Shard(items[i].key, n) in clean && i in clean[Shard(items[i].key, n)])
  }

  ghost predicate DirtyOk(items: seq<Item>, hash: map<Key, int>, data: set<Key>, index: set<Key>) {
    && data !! index
    && (forall k :: k in data || k in index ==> k in hash && 0 <= hash[k] < |items| && items[hash[k]].dirty)
    && (forall k :: k in hash && 0 <= hash[k] < |items| && items[hash[k]].dirty ==> k in data || k in index)
  }

  ghost function KeysOf(hash: map<Key, int>, f: int): set<Key> {
    set k | k in hash && k.file == f
  }

  function NItems(nitems: map<int, int>, f: int): int {
    if f in nitems then nitems[f] else 0
  }

  ghost predicate CountOk(freelist: seq<int>, freecount: int, hash: map<Key, int>, nitems: map<int, int>) {
    freecount == |freelist| && forall f :: NItems(nitems, f) == |KeysOf(hash, f)|
  }

  /** Clean items hold what the disk holds. */
  ghost predicate Synced(items: seq<Item>, hash: map<Key, int>, disk: map<Key, Bytes>) {
    forall k :: k in hash && 0 <= hash[k] < |items| && !items[hash[k]].dirty ==>
          k in disk && disk[k] == items[hash[k]].data
  }

  ghost predicate Known(hash: map<Key, int>, disk: map<Key, Bytes>, k: Key) {
    k in hash || k in disk
  }

  /** The bytes a read of a block gives. */
  ghost function View(items: seq<Item>, hash: map<Key, int>, disk: map<Key, Bytes>, k: Key): Bytes
    requires Known(hash, disk, k) && (k in hash ==> 0 <= hash[k] < |items|)
  {
    if k in hash then items[hash[k]].data else disk[k]
  }

  ghost predicate Same(a: Bytes, b: Bytes, touched: bool) {
    if touched then SameButCrc(a, b) else a == b
  }

  /** Every block reads as last written, up to the checksum field if a flush stamped the
      block as an index node since. */
  ghost predicate Recent(items: seq<Item>, hash: map<Key, int>, disk: map<Key, Bytes>, last: map<Key, Bytes>,
                         touched: set<Key>) {
    && (forall k :: k in hash ==> 0 <= hash[k] < |items|)
    && (forall k :: k in last <==> Known(hash, disk, k))
    && (forall k :: k in last ==> Same(View(items, hash, disk, k), last[k], k in touched))
  }

  /** The variables of the cache. */
  datatype State = State(items: seq<Item>, freelist: seq<int>, freecount: int, hash: map<Key, int>,
                         clean: map<Key, seq<int>>,
                         data: set<Key>, index: set<Key>, nitems: map<int, int>, disk: map<Key, Bytes>)

  /** The bytes last written to each block, the blocks stamped since, and the marker a block
      had when it last became dirty. */
  datatype Trace = Trace(last: map<Key, Bytes>, touched: set<Key>, born: map<Key, int>)

  /** The index tree holds the blocks that became dirty as index nodes, the data tree the
      others. */
  ghost predicate TreesOk(data: set<Key>, index: set<Key>, born: map<Key, int>) {
    && (forall k :: k in index ==> k in born && born[k] == BNODE)
    && (forall k :: k in data ==> k in born && born[k] != BNODE)
  }

  ghost predicate Ok(s: State, h: Trace, n: nat, size: nat) {
    && n > 0 && size > CRC_OFFSET + CRC_LEN
    && HashOk(s.items, s.hash, size) && FreeOk(s.items, s.hash, s.freelist) && CleanOk(s.items, s.clean, n)
       && DirtyOk(s.items, s.hash, s.data, s.index) && TreesOk(s.data, s.index, h.born)
    && (forall k :: k in s.disk ==> |s.disk[k]| == size)
    && CountOk(s.freelist, s.freecount, s.hash, s.nitems) && Synced(s.items, s.hash, s.disk)
       && Recent(s.items, s.hash, s.disk, h.last, h.touched)
  }

  // ----- one place for each item -----

  /** Every item is in exactly one place: the free list, or its file's hash table together
      with exactly one of clean list, data tree and index tree. */
  lemma OnePlace(items: seq<Item>, freelist: seq<int>, hash: map<Key, int>, clean: map<Key, seq<int>>, data: set<Key>,
                 index: set<Key>, n: nat, size: nat, i: nat)
    requires n > 0 && i < |items| && HashOk(items, hash, size) && FreeOk(items, hash, freelist)
             && CleanOk(items, clean, n) && DirtyOk(items, hash, data, index)
    ensures (i in freelist) <==> !(exists k :: k in hash && hash[k] == i)
    ensures (exists k :: k in hash && hash[k] == i) <==> (items[i].key in hash && hash[items[i].key] == i)
    ensures forall k, k' :: k in hash && k' in hash && hash[k] == hash[k'] ==> k == k'
    ensures i in freelist ==> forall q :: q in clean ==> i !in clean[q]
    ensures i !in freelist ==>
            var k := items[i].key;
            var onList := Shard(k, n) in clean && i in clean[Shard(k, n)];
            && (onList || k in data || k in index) && !(onList && k in data) && !(onList && k in index)
               && !(k in data && k in index)
    ensures forall q :: q in clean && i in clean[q] ==> q == Shard(items[i].key, n)
  {
  }
}
