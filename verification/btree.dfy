/** The B+tree operations of src/btree.cc over the block store. */
module BTreeOps {
  import opened Options
  import opened BTreeNode
  import opened BTreeTree
  import opened BTreeStore
  import opened BTreeStep

  // ----- looking a key up -----

  /** mid is the only part of whole that can hold key. */
  ghost predicate Spans(whole: seq<Entry>, a: seq<Entry>, mid: seq<Entry>, b: seq<Entry>, key: int) {
    whole == a + mid + b && Below(a, key) && Above(b, key)
  }

  lemma SpansSelf(whole: seq<Entry>, key: int)
    ensures Spans(whole, [], whole, [], key)
  {
    assert [] + whole + [] == whole;
  }

  lemma LeafFlat(t: Tree)
    requires t.Leaf?
    ensures Flat(t) == NodeEntries(t)
  {
  }

  lemma SpansTurn(whole: seq<Entry>, a: seq<Entry>, t: Tree, b: seq<Entry>, idx: nat, sub: Tree, key: int)
    requires Spans(whole, a, Flat(t), b, key) && Turn(t, idx, sub, key)
    ensures Spans(whole, a + FlatAll(t.kids[..idx]), Flat(sub), FlatAll(t.kids[idx + 1..]) + b, key)
  {
    hide FlatAll;
    Cut(t.kids, idx);
    var x, y := FlatAll(t.kids[..idx]), FlatAll(t.kids[idx + 1..]);
    assert a + (x + Flat(sub) + y) + b == (a + x) + Flat(sub) + (y + b);
  }

  lemma FoundIn(whole: seq<Entry>, a: seq<Entry>, mid: seq<Entry>, b: seq<Entry>, key: int, i: nat)
    requires Sorted(whole) && Spans(whole, a, mid, b, key) && i < |mid| && mid[i].key == key
    ensures key in ToMap(whole) && ToMap(whole)[key] == mid[i].val
  {
    assert whole[|a| + i] == mid[i];
    ToMapAt(whole, |a| + i);
  }

  lemma AbsentIn(whole: seq<Entry>, a: seq<Entry>, mid: seq<Entry>, b: seq<Entry>, key: int)
    requires Spans(whole, a, mid, b, key) && forall i :: 0 <= i < |mid| ==> mid[i].key != key
    ensures key !in ToMap(whole)
  {
    ToMapKeys(whole, key);
  }

  // ----- the path to a key -----

  /** path[i] is the node at level i + 1 on the way from the root to key. */
  ghost predicate OnPath(buf: Blocks, g: Geometry, tree: Tree, height: nat, key: int,
                         path: seq<Tree>, bids: seq<int>, idxs: seq<nat>, from: nat)
    requires g.kv > 0
  {
    && |path| == |bids| == |idxs| == height >= 1
    && from < height
    && path[height - 1] == tree
    && (forall i :: from <= i < height ==>
          bids[i] == path[i].bid && Good(buf, path[i], i + 1, g, i + 1 == height) && Sep(path[i])
              && Sorted(Flat(path[i])))
    && (forall i :: from < i < height ==> Turn(path[i], idxs[i], path[i - 1], key))
  }

  /** The node of t has no room for another entry. */
  ghost predicate Packed(g: Geometry, t: Tree, root: bool)
    requires g.kv > 0
  {
    |NodeEntries(t)| == g.Cap(root)
  }

  /** The nodes from a leaf up to the root that lead to key. */
  ghost predicate Route(tree: Tree, height: nat, key: int, path: seq<Tree>) {
    && |path| == height >= 1
    && path[height - 1] == tree
    && path[0].Leaf?
    && forall i :: 0 < i < height ==> LeadsTo(path[i], path[i - 1], key)
  }

  /** sub is the child of t whose range takes in key. */
  ghost predicate LeadsTo(t: Tree, sub: Tree, key: int) {
    exists idx: nat :: Turn(t, idx, sub, key)
  }

  /** The n lowest nodes of path have no room. */
  ghost predicate AllPacked(g: Geometry, path: seq<Tree>, height: nat, n: nat)
    requires g.kv > 0 && n <= |path|
  {
    forall i :: 0 <= i < n ==> Packed(g, path[i], i + 1 == height)
  }

  lemma RouteOf(buf: Blocks, g: Geometry, tree: Tree, height: nat, key: int,
                path: seq<Tree>, bids: seq<int>, idxs: seq<nat>)
    requires g.kv > 0 && OnPath(buf, g, tree, height, key, path, bids, idxs, 0)
    ensures Route(tree, height, key, path)
  {
    hide Turn, Sep, Flat, Sorted;
  }

  lemma ExtendPath(buf: Blocks, g: Geometry, tree: Tree, height: nat, key: int,
                   path: seq<Tree>, bids: seq<int>, idxs: seq<nat>, i: nat, idx: nat, sub: Tree)
    requires g.kv > 0 && i > 0 && OnPath(buf, g, tree, height, key, path, bids, idxs, i)
    requires Turn(path[i], idx, sub, key) && Good(buf, sub, i, g, false) && Sep(sub) && Sorted(Flat(sub))
    ensures OnPath(buf, g, tree, height, key, path[i - 1 := sub], bids[i - 1 := sub.bid], idxs[i := idx], i - 1)
  {
    hide Turn, Good, Sep, Flat, Sorted;
  }

  lemma PathAt(buf: Blocks, g: Geometry, tree: Tree, height: nat, key: int,
               path: seq<Tree>, bids: seq<int>, idxs: seq<nat>, from: nat, i: nat)
    requires g.kv > 0 && OnPath(buf, g, tree, height, key, path, bids, idxs, from) && from <= i < height
    ensures bids[i] == path[i].bid && Good(buf, path[i], i + 1, g, i + 1 == height) && Sep(path[i])
            && Sorted(Flat(path[i]))
    ensures i > from ==> Turn(path[i], idxs[i], path[i - 1], key)
  {
    hide Turn, Good, Sep, Flat, Sorted;
  }

  lemma RootFacts(buf0: Blocks, buf: Blocks, dirty: set<int>, t: Tree, big: Tree, n0: Node, n1: Option<Node>, lvl: nat,
                  g: Geometry)
    requires g.kv > 0 && Good(buf0, t, lvl, g, true) && lvl >= 1
    requires KidsReady(buf0, buf, dirty, t, Kids(big), lvl, g) && Edited(g, buf[t.bid], n0, n1, big)
    ensures t.bid in buf && buf[t.bid].level == lvl && buf[t.bid].root && |buf[t.bid].slots| == g.Cap(true)
    ensures Ok(n0) && n0.root && |n0.slots| == g.Cap(true) && n0.level == lvl
    ensures n1.Some? ==> Ok(n1.value) && n1.value.nentry >= 1
  {
    hide Flat, NodeEntries;
  }

  lemma HalfKeys(p0: Tree, p1: Tree, whole: seq<Entry>)
    requires Flat(p0) != [] && Flat(p1) != [] && Flat(p0) + Flat(p1) == whole && Sorted(whole)
    ensures MinKey(p0) < MinKey(p1)
  {
    hide Flat;
    assert whole[0] == Flat(p0)[0] && whole[|Flat(p0)|] == Flat(p1)[0];
  }

  lemma KidsFlat(bid: int, ks: seq<Tree>)
    ensures Flat(Index(bid, ks)) == FlatAll(ks)
  {
  }

  lemma EmptyMap(s: seq<Entry>)
    ensures s == [] <==> ToMap(s) == map[]
  {
    if s != [] { assert s[|s| - 1].key in ToMap(s); }
  }

  /** Replacing the child on the path carries the insertion up one level. */
  lemma StepUp(buf0: Blocks, buf: Blocks, dirty: set<int>, g: Geometry, t: Tree, lvl: nat, root: bool, idx: nat,
               sub: Tree, news: seq<Tree>,
               e: Entry, l: seq<Entry>, m: seq<Entry>, r: seq<Entry>)
    requires g.kv > 0 && lvl > 1 && Good(buf0, t, lvl, g, root) && Sep(t) && Sorted(Flat(t)) && Turn(t, idx, sub, e.key)
    requires Replaced(buf0, buf, dirty, sub, news, lvl - 1, g) && Around(Flat(sub), e.key, l, m, r)
    ensures KidsReady(buf0, buf, dirty, t, NewKids(t, idx, news), lvl, g)
    ensures var a, b := FlatAll(t.kids[..idx]), FlatAll(t.kids[idx + 1..]);
            && Around(Flat(t), e.key, a + l, m, r + b)
            && FlatAll(NewKids(t, idx, news)) == a + FlatAll(news) + b
            && Sorted((a + l) + [e] + (r + b)) && Sorted((a + l) + (r + b))
    ensures Nonempty(NewKids(t, idx, news))
  {
    hide FlatAll, Good, Sep, Sorted, Around, Replaced;
    ChildReady(buf0, buf, dirty, t, idx, news, lvl, g, root);
    AroundUp(t.kids, idx, e.key, l, m, r);
    var a, b := FlatAll(t.kids[..idx]), FlatAll(t.kids[idx + 1..]);
    AroundSorted(Flat(t), e, a + l, m, r + b);
    Splice(t.kids, idx, news);
    KidsNonempty(buf, NewKids(t, idx, news), lvl - 1, g);
  }

  lemma Regroup(a: seq<Entry>, l: seq<Entry>, e: Entry, r: seq<Entry>, b: seq<Entry>)
    ensures a + (l + [e] + r) + b == (a + l) + [e] + (r + b)
    ensures a + (l + r) + b == (a + l) + (r + b)
  {
  }

  lemma Persist(buf0: Blocks, dirty0: set<int>, disk: Blocks, t0: Tree, buf: Blocks, dirty: set<int>, t: Tree)
    requires forall b :: b in Bids(t0) && b !in dirty0 ==> b in disk && b in buf0 && disk[b] == buf0[b]
    requires Accounted(buf0, buf, dirty, Bids(t), Bids(t0)) && dirty0 <= dirty
    ensures forall b :: b in Bids(t) && b !in dirty ==> b in disk && b in buf && disk[b] == buf[b]
  {
    hide Bids;
  }

  lemma AroundHas(s: seq<Entry>, key: int, l: seq<Entry>, m: seq<Entry>, r: seq<Entry>)
    requires Around(s, key, l, m, r)
    ensures m != [] <==> key in ToMap(s)
  {
    hide ToMap;
    ToMapKeys(s, key);
    if m != [] { assert s[|l|] == m[0]; }
    assert forall i :: 0 <= i < |s| && i != |l| ==> s[i] == if i < |l| then l[i] else r[i - |l| - |m|];
  }

  lemma SameSlot(n: Node, i: nat, j: nat)
    requires Ok(n) && Sorted(Entries(n)) && i < n.nentry && j < n.nentry && n.slots[i].key == n.slots[j].key
    ensures i == j
  {
    assert Entries(n)[i] == n.slots[i] && Entries(n)[j] == n.slots[j];
  }

  lemma CutAround(n: Node, idx: nat)
    requires Ok(n) && Sorted(Entries(n)) && idx < n.nentry
    ensures Around(Entries(n), n.slots[idx].key, Entries(n)[..idx], [n.slots[idx]], Entries(n)[idx + 1..])
  {
    var s := Entries(n);
    assert s[idx] == n.slots[idx];
    assert s == s[..idx] + [s[idx]] + s[idx + 1..];
  }

  lemma EmptyEdit(g: Geometry, n: Node, n0: Node, big: Tree)
    requires g.kv > 0 && Edited(g, n, n0, None, big) && n0.nentry == 0
    ensures NodeEntries(big) == [] && Flat(big) == []
  {
    if big.Index? { assert big.kids == []; }
  }

  lemma SetTwice(n: Node, idx: nat, e: Entry, e': Entry)
    requires idx < |n.slots|
    ensures SetKv(SetKv(n, idx, e), idx, e') == SetKv(n, idx, e')
    ensures n.slots[idx] == e ==> SetKv(n, idx, e) == n
  {
  }

  /** k is the largest key of m that is not above key. */
  ghost predicate IsFloor(m: map<int, int>, key: int, k: int) {
    k in m && k <= key && forall j :: j in m && j <= key ==> j <= k
  }

  /** Removing the floor of key is removing key exactly when key is present. */
  lemma RemovesExactly(m: map<int, int>, key: int, k: int)
    requires IsFloor(m, key, k)
    ensures m - {k} == m - {key} <==> key in m
  {
    if key !in m {
      assert k in m - {key} && k !in m - {k};
    }
  }

  lemma FloorOf(s: seq<Entry>, x: Entry, l: seq<Entry>, r: seq<Entry>, key: int)
    requires Around(s, x.key, l, [x], r) && x.key <= key && Above(r, key)
    ensures IsFloor(ToMap(s), key, x.key)
  {
    hide ToMap;
    assert s[|l|] == x;
    assert forall i :: |l| < i < |s| ==> s[i] == r[i - |l| - 1];
    ToMapKeys(s, x.key);
    forall j | j in ToMap(s) && j <= key ensures j <= x.key {
      ToMapKeys(s, j);
      var i :| 0 <= i < |s| && s[i].key == j;
    }
  }

  lemma NoFloor(s: seq<Entry>, key: int)
    requires Above(s, key)
    ensures forall k :: k in ToMap(s) ==> key < k
  {
    forall k | k in ToMap(s) ensures key < k { ToMapKeys(s, k); }
  }

  lemma RemovalFacts(s: seq<Entry>, x: Entry, l: seq<Entry>, r: seq<Entry>, key: int)
    requires Sorted(s) && Around(s, x.key, l, [x], r) && x.key <= key && Above(r, key)
    ensures Sorted(l + r) && ToMap(l + r) == ToMap(s) - {x.key} && IsFloor(ToMap(s), key, x.key)
    ensures x.key in ToMap(s)
    ensures l + r == [] <==> |ToMap(s)| == 1
    ensures l + r == [] <==> ToMap(l + r) == map[]
  {
    hide ToMap;
    AroundSorted(s, x, l, [x], r);
    ToMapPut(s, x, l, [x], r);
    FloorOf(s, x, l, r, key);
    ToMapSize(s);
    EmptyMap(l + r);
  }

  lemma OneKid(g: Geometry, n: Node, n0: Node, big: Tree)
    requires g.kv > 0 && big.Index? && Edited(g, n, n0, None, big) && n0.nentry == 1
    ensures big.kids == [big.kids[0]] && |n0.slots| >= 1 && n0.slots[0].val == big.kids[0].bid
            && Flat(big) == Flat(big.kids[0])
  {
    hide Flat, MinKey;
    assert |big.kids| == 1;
    assert (Entries(n0) + Extra(None))[0] == n0.slots[0];
    OneKidFlat(big);
  }

  lemma OneKidFlat(big: Tree)
    requires big.Index? && |big.kids| == 1
    ensures Flat(big) == Flat(big.kids[0])
  {
    assert big.kids == [big.kids[0]];
    One(big.kids[0]);
  }

  lemma ReadyKeys(buf0: Blocks, buf: Blocks, dirty: set<int>, t: Tree, ks: seq<Tree>, lvl: nat, g: Geometry)
    requires g.kv > 0 && lvl >= 1 && KidsReady(buf0, buf, dirty, t, ks, lvl, g)
    ensures buf0.Keys <= buf.Keys
  {
    hide BidsAll, SepAll, GoodAll, Accounted;
  }

  lemma EmptyOrNot(buf0: Blocks, buf: Blocks, dirty: set<int>, t: Tree, lvl: nat, g: Geometry, n0: Node, big: Tree)
    requires g.kv > 0 && lvl >= 1 && KidsReady(buf0, buf, dirty, t, Kids(big), lvl, g)
             && Edited(g, buf[t.bid], n0, None, big)
    ensures n0.nentry == 0 <==> Flat(big) == []
  {
    hide BidsAll, SepAll, Accounted, Within, GoodAll, Good, FlatAll, Flat, EntriesOf, MinKey;
    assert |Entries(n0)| == n0.nentry && Entries(n0) + [] == Entries(n0);
    FlatOfKids(big);
    if big.Index? && big.kids != [] {
      KidsNonempty(buf, big.kids, lvl - 1, g);
      FirstOf(big.kids);
    }
  }

  // ----- when a removal takes a level away -----

  ghost predicate Holding(t: Tree, key: int) {
    exists i :: 0 <= i < |Flat(t)| && Flat(t)[i].key == key
  }

  /** The root keeps at most one child once the last entry of child at is gone, and that
      child, as a root, leaves a byte free. */
  ghost predicate LosesLevel(g: Geometry, t: Tree, at: nat) {
    && t.Index?
    && at < |t.kids| <= 2
    && |Flat(t.kids[at])| == 1
    && (|t.kids| == 1 || g.Size(true, |NodeEntries(t.kids[1 - at])|) < g.nodesize)
  }

  /** x goes from child at of t; big is what is left, without that child if it is emptied. */
  ghost predicate CutAt(t: Tree, at: nat, x: Entry, big: Tree, emptied: bool) {
    && t.Index?
    && big.Index?
    && at < |t.kids|
    && x in Flat(t.kids[at])
    && (emptied <==> |Flat(t.kids[at])| == 1)
    && |big.kids| == |t.kids| - (if emptied then 1 else 0)
    && (emptied ==> big.kids == t.kids[..at] + t.kids[at + 1..])
  }

  lemma CutHolds(t: Tree, at: nat, x: Entry, big: Tree, emptied: bool)
    requires CutAt(t, at, x, big, emptied)
    ensures at < |Kids(t)| && Holding(t.kids[at], x.key)
  {
    hide Flat;
  }

  /** A child is emptied exactly when x was its last entry. */
  lemma CutOrKept(buf0: Blocks, buf: Blocks, dirty: set<int>, sub: Tree, news: seq<Tree>, lvl: nat, g: Geometry,
                  l: seq<Entry>, x: Entry, r: seq<Entry>)
    requires g.kv > 0 && lvl >= 1 && Replaced(buf0, buf, dirty, sub, news, lvl, g) && FlatAll(news) == l + r
    requires Around(Flat(sub), x.key, l, [x], r)
    ensures news == [] <==> |Flat(sub)| == 1
    ensures x in Flat(sub)
  {
    hide FlatAll, Flat, Good, Accounted, Within, SepAll, BidsAll;
    assert Flat(sub)[|l|] == x;
    if news == [] {
      NoTrees();
    } else {
      KidsNonempty(buf, news, lvl, g);
      FirstOf(news);
    }
  }

  lemma CutMade(buf0: Blocks, buf: Blocks, dirty: set<int>, t: Tree, idx: nat, news: seq<Tree>, lvl: nat, g: Geometry,
                l: seq<Entry>, x: Entry, r: seq<Entry>)
    requires g.kv > 0 && lvl > 1 && idx < |Kids(t)| && |news| <= 1 && FlatAll(news) == l + r
    requires Replaced(buf0, buf, dirty, t.kids[idx], news, lvl - 1, g) && Around(Flat(t.kids[idx]), x.key, l, [x], r)
    ensures CutAt(t, idx, x, Index(t.bid, NewKids(t, idx, news)), news == [])
  {
    hide Flat, FlatAll, Replaced, Around;
    CutOrKept(buf0, buf, dirty, t.kids[idx], news, lvl - 1, g, l, x, r);
  }

  lemma EditedSize(g: Geometry, n: Node, n0: Node, big: Tree)
    requires g.kv > 0 && Edited(g, n, n0, None, big)
    ensures n0.nentry == |NodeEntries(big)| && (big.Index? ==> n0.nentry == |big.kids|)
  {
    hide MinKey;
  }

  /** The one child left is the other one. */
  lemma OtherKid(g: Geometry, buf0: Blocks, buf: Blocks, dirty: set<int>, t: Tree, at: nat, x: Entry, big: Tree,
                 n0: Node, lvl: nat)
    requires g.kv > 0 && lvl > 1 && KidsReady(buf0, buf, dirty, t, Kids(big), lvl, g) && CutAt(t, at, x, big, true)
    requires t.bid in buf && Edited(g, buf[t.bid], n0, None, big) && n0.nentry == 1
    ensures |t.kids| == 2 && |n0.slots| >= 1 && n0.slots[0].val in buf
    ensures buf[n0.slots[0].val].nentry == |NodeEntries(t.kids[1 - at])|
  {
    hide Flat, NodeEntries, Accounted, Within, SepAll, BidsAll;
    EditedSize(g, buf[t.bid], n0, big);
    OneKid(g, buf[t.bid], n0, big);
    assert big.kids[0] == t.kids[1 - at];
    assert Good(buf, big.kids[0], lvl - 1, g, false);
    assert |Entries(buf[big.kids[0].bid])| == |NodeEntries(big.kids[0])|;
  }

  class BTree {
    const g: Geometry
    const blk: BlockStore
    var root: int
    var height: nat
    /** The tree held by the blocks under `root`. */
    ghost var tree: Tree

    ghost predicate Valid()
      reads this, blk
    {
      && g.Valid()
      && blk.Valid()
      && height >= 1
      && tree.bid == root
      && Good(blk.buf, tree, height, g, true)
      && Sep(tree)
      && Sorted(Flat(tree))
      && Stored()
    }

    /** Every block of the tree is on disk already or will be written back. */
    ghost predicate Stored()
      reads this, blk
    {
      forall b :: b in Bids(tree) && b !in blk.dirty ==> b in blk.disk && b in blk.buf && blk.disk[b] == blk.buf[b]
    }

    /** The key-value map the tree stands for. */
    ghost function Contents(): map<int, int>
      reads this
    {
      ToMap(Flat(tree))
    }

    /** `btree_init` */
    constructor (g: Geometry, blk: BlockStore)
      requires g.Valid() && blk.Valid()
      modifies blk
      ensures this.g == g && this.blk == blk
      ensures Valid() && Contents() == map[] && height == 1
      ensures blk.disk == old(blk.disk)
    {
      this.g, this.blk := g, blk;
      height := 1;
      new;
      CapAtLeastTwo(g);
      var n := InitNode(g, 1, true);
      root := blk.Alloc(n);
      tree := Leaf(root, []);
    }

    /** `btree_init_from_bid`: the height comes from the root node itself. */
    constructor FromBid(g: Geometry, blk: BlockStore, root: int, ghost t: Tree)
      requires g.Valid() && blk.Valid() && root in blk.buf && t.bid == root
      requires blk.buf[root].level >= 1 && Good(blk.buf, t, blk.buf[root].level, g, true) && Sep(t) && Sorted(Flat(t))
      requires forall b :: b in Bids(t) && b !in blk.dirty ==>
                 b in blk.disk && b in blk.buf && blk.disk[b] == blk.buf[b]
      ensures this.g == g && this.blk == blk && Valid() && tree == t && height == blk.buf[root].level
    {
      this.g, this.blk, this.root := g, blk, root;
      height := blk.buf[root].level;
      tree := t;
    }

    /** `btree_find` up to its final write-back. */
    method Lookup(key: int) returns (r: Option<int>)
      requires Valid()
      ensures r == if key in Contents() then Some(Contents()[key]) else None
    {
      hide FlatAll, Flat, BidsAll, Bids, Good, Sep, Spans, ToMap, Turn, Sorted;
      var i, bid := height, root;
      ghost var t, a, b := tree, [], [];
      SpansSelf(Flat(tree), key);
      while true
        invariant 1 <= i <= height && bid == t.bid
        invariant Good(blk.buf, t, i, g, i == height) && Sorted(Flat(t)) && Sep(t)
        invariant Spans(Flat(tree), a, Flat(t), b, key)
        decreases i
      {
        NodeSorted(blk.buf, t, i, g, i == height);
        var n := blk.buf[bid];
        var idx := FindEntry(n, key);
        if idx.None? {
          AllAbove(blk.buf, t, i, g, i == height, key);
          AbsentIn(Flat(tree), a, Flat(t), b, key);
          return None;
        }
        if i > 1 {
          TurnAt(blk.buf, t, i, g, i == height, idx.value, key);
          SpansTurn(Flat(tree), a, t, b, idx.value, t.kids[idx.value], key);
          bid := n.slots[idx.value].val;
          a, b := a + FlatAll(t.kids[..idx.value]), FlatAll(t.kids[idx.value + 1..]) + b;
          t := t.kids[idx.value];
          i := i - 1;
        } else {
          LeafFlat(t);
          if n.slots[idx.value].key == key {
            FoundIn(Flat(tree), a, Flat(t), b, key, idx.value);
            return Some(n.slots[idx.value].val);
          } else {
            AbsentIn(Flat(tree), a, Flat(t), b, key);
            return None;
          }
        }
      }
    }

    /** The descent of `btree_insert` through the index levels: a key below every key
        of a node follows the first entry. */
    method FindPath(key: int) returns (bids: seq<int>, idxs: seq<nat>, ghost path: seq<Tree>)
      requires Valid() && (height == 1 || Flat(tree) != [])
      ensures OnPath(blk.buf, g, tree, height, key, path, bids, idxs, 0)
    {
      hide FlatAll, Flat, BidsAll, Bids, Good, Sep, Turn, Sorted;
      var top := root;
      ghost var whole := tree;
      bids := seq(height, _ => top);
      idxs := seq(height, _ => 0);
      path := seq(height, _ => whole);
      var i := height - 1;
      while i > 0
        invariant 0 <= i < height
        invariant OnPath(blk.buf, g, tree, height, key, path, bids, idxs, i)
        invariant i > 0 ==> Flat(path[i]) != []
      {
        PathAt(blk.buf, g, tree, height, key, path, bids, idxs, i, i);
        ghost var t := path[i];
        NodeSorted(blk.buf, t, i + 1, g, i + 1 == height);
        FirstSlot(blk.buf, t, i + 1, g, i + 1 == height);
        var n := blk.buf[bids[i]];
        var f := FindEntry(n, key);
        var idx := if f.None? then 0 else f.value;
        TurnAt(blk.buf, t, i + 1, g, i + 1 == height, idx, key);
        ExtendPath(blk.buf, g, tree, height, key, path, bids, idxs, i, idx, t.kids[idx]);
        GoodNonempty(blk.buf, t.kids[idx], i, g, false);
        bids, idxs := bids[i - 1 := n.slots[idx].val], idxs[i := idx];
        path := path[i - 1 := t.kids[idx]];
        i := i - 1;
      }
    }

    /** What level lvl looks like once its node edit is computed but not yet stored. */
    ghost predicate AtLevel(buf0: Blocks, t: Tree, lvl: nat, n0: Node, n1: Option<Node>, touched: bool, big: Tree,
                            e: Entry, l: seq<Entry>, m: seq<Entry>, r: seq<Entry>)
      requires g.kv > 0
      reads this, blk
    {
      && lvl >= 1
      && KidsReady(buf0, blk.buf, blk.dirty, t, Kids(big), lvl, g)
      && Edited(g, blk.buf[t.bid], n0, n1, big)
      && n0.nentry >= 1
      && (big.Leaf? <==> lvl == 1)
      && Around(Flat(t), e.key, l, m, r)
      && Flat(big) == l + [e] + r
      && (!touched ==> n0 == blk.buf[t.bid] && n1.None?)
      && (n1.Some? ==> Flat(t) != [] && MinKey(t) < n1.value.slots[0].key)
    }

    /** The leaf level of `btree_insert`. */
    method EditLeaf(bid: int, e: Entry, ghost t: Tree, ghost root: bool)
      returns (n0: Node, n1: Option<Node>, isUpdate: bool, ghost big: Tree, ghost l: seq<Entry>, ghost m: seq<Entry>,
               ghost r: seq<Entry>)
      requires g.Valid() && Good(blk.buf, t, 1, g, root) && Sorted(Flat(t)) && bid == t.bid
      ensures AtLevel(blk.buf, t, 1, n0, n1, true, big, e, l, m, r)
      ensures isUpdate <==> m != []
      ensures n1.Some? <==> m == [] && Packed(g, t, root)
    {
      hide Good, Sorted;
      NodeSorted(blk.buf, t, 1, g, root);
      FirstSlot(blk.buf, t, 1, g, root);
      LeafReady(blk.buf, blk.dirty, t, g, root);
      var n := blk.buf[bid];
      var f := FindEntry(n, e.key);
      isUpdate := f.Some? && n.slots[f.value].key == e.key;
      n0, n1, l, m, r := EditNode(g, n, Some(e), None, isUpdate);
      big := Leaf(bid, l + [e] + r);
    }

    /** An index level of `btree_insert`: repoint a moved child, add the entry of a
        split child, lower the first key. */
    method EditIndex(bid: int, lvl: nat, idx: nat, key: int, cbid: int, moved: bool, ins: Option<Entry>,
                     ghost t: Tree, ghost news: seq<Tree>, ghost buf0: Blocks, ghost root: bool)
      returns (n0: Node, n1: Option<Node>, touched: bool)
      requires g.Valid() && lvl > 1 && Good(buf0, t, lvl, g, root) && Sorted(Flat(t)) && bid == t.bid
      requires bid in blk.buf && blk.buf[bid] == buf0[bid]
      requires t.Index? && idx < |t.kids| && Turn(t, idx, t.kids[idx], key)
               && Linked(t.kids[idx], news, key, cbid, moved, ins)
      requires Sorted(EntriesOf(NewKids(t, idx, news)))
      ensures Edited(g, blk.buf[bid], n0, n1, Index(bid, NewKids(t, idx, news))) && n0.nentry >= 1
      ensures !touched ==> n0 == blk.buf[bid] && n1.None?
      ensures n1.Some? ==> Flat(t) != [] && MinKey(t) < n1.value.slots[0].key
      ensures n1.Some? <==> ins.Some? && Packed(g, t, root)
      ensures touched <==> moved || ins.Some? || (idx == 0 && key < MinKey(t.kids[0]))
    {
      hide Good, Sorted, Flat, FlatAll, MinKey, EntriesOf, WithMin, Around, Has;
      NodeSorted(buf0, t, lvl, g, root);
      FirstSlot(buf0, t, lvl, g, root);
      IndexEntries(t, idx, news, key, cbid, moved, ins);
      var n := blk.buf[bid];
      SlotIs(t, n, idx);
      var k := n.slots[idx].key;
      var minkey := if idx == 0 && key < k then Some(key) else None;
      n0, n1, touched := n, None, moved;
      if moved {
        n0 := SetKv(n, idx, Entry(k, cbid));
      }
      RepointedNode(t, n, n0, idx, cbid);
      if ins.Some? || minkey.Some? {
        if ins.Some? { IndexAround(t, idx, news, key, cbid, moved, ins.value); }
        RepointedSorted(t, idx, cbid);
        n0, n1, touched := AddBelow(n0, ins, minkey, Repointed(t, idx, cbid), idx);
      } else {
        NoMin(Repointed(t, idx, cbid));
      }
    }

    /** EditNode at an index level, where the pending key is never already present. */
    method AddBelow(n: Node, ins: Option<Entry>, minkey: Option<int>, ghost e1: seq<Entry>, ghost idx: nat)
      returns (n0: Node, n1: Option<Node>, touched: bool)
      requires g.Valid() && Ok(n) && Sorted(Entries(n)) && |n.slots| == g.Cap(n.root) && n.nentry >= 1
      requires Entries(n) == e1 && idx < |e1| && (ins.Some? || minkey.Some?)
      requires ins.Some? ==> Around(e1, ins.value.key, e1[..idx + 1], [], e1[idx + 1..])
      ensures touched && Ok(n0) && n0 == n.(nentry := n0.nentry, slots := n0.slots) && |n0.slots| == |n.slots|
              && n0.nentry >= 1
      ensures n1.Some? ==> Ok(n1.value) && n1.value.level == n.level && !n1.value.root
                           && |n1.value.slots| == g.Cap(false) && n1.value.nentry >= 1
      ensures n1.Some? ==> n.slots[0].key < n1.value.slots[0].key
      ensures n1.Some? <==> ins.Some? && n.nentry == |n.slots|
      ensures Entries(n0) + Extra(n1) ==
              WithMin(if ins.Some? then e1[..idx + 1] + [ins.value] + e1[idx + 1..] else e1, minkey)
    {
      hide Around, Sorted, WithMin;
      if ins.Some? { HasIff(n, ins.value.key, e1[..idx + 1], [], e1[idx + 1..]); }
      ghost var l, m, r;
      n0, n1, l, m, r := EditNode(g, n, ins, minkey, false);
      if ins.Some? { AroundUnique(e1, ins.value.key, e1[..idx + 1], [], e1[idx + 1..], l, m, r); }
      touched := true;
    }

    /** Store the edit of a non-root level and report it to the level above. */
    method Install(bid: int, lvl: nat, n0: Node, n1: Option<Node>, touched: bool, ghost t: Tree, ghost big: Tree,
                   ghost e: Entry, ghost l: seq<Entry>, ghost m: seq<Entry>, ghost r: seq<Entry>, ghost buf0: Blocks)
      returns (cbid: int, moved: bool, ins: Option<Entry>, ghost news: seq<Tree>)
      requires g.Valid() && blk.Valid() && bid == t.bid && Good(buf0, t, lvl, g, false)
      requires AtLevel(buf0, t, lvl, n0, n1, touched, big, e, l, m, r)
      modifies blk
      ensures blk.Valid() && blk.Grown()
      ensures Replaced(buf0, blk.buf, blk.dirty, t, news, lvl, g)
      ensures Linked(t, news, e.key, cbid, moved, ins)
      ensures FlatAll(news) == l + [e] + r && (ins.Some? <==> n1.Some?)
      ensures moved <==> touched && bid !in old(blk.writable)
      ensures !touched ==> blk.buf == old(blk.buf) && blk.dirty == old(blk.dirty)
    {
      hide Flat, FlatAll, Good, KidsReady, Edited, Around, NodeEntries, EntriesOf, Replaced, Linked, Slice, MinKey,
           Bids, BidsAll;
      ghost var buf1, dirty1 := blk.buf, blk.dirty;
      TouchFacts(buf0, buf1, dirty1, t, big, n0, n1, lvl, g);
      cbid, moved, ins := bid, false, None;
      if touched {
        blk.Edit(bid, n0);
        if n1.Some? {
          var nb := blk.Alloc(n1.value);
          ins := Some(Entry(n1.value.slots[0].key, nb));
        }
        cbid, moved := blk.Settle(bid);
      }
      if n1.None? {
        InstalledOne(g, buf0, buf1, dirty1, blk.buf, blk.dirty, t, big, n0, cbid, lvl, false);
        ghost var p := Slice(big, cbid, 0, |NodeEntries(big)|);
        news := [p];
        NewMinKey(t, p, [], e, l, m, r);
        LinkedOne(blk.buf, g, t, p, lvl, e.key, moved);
      } else {
        ghost var nb := ins.value.val;
        InstalledTwo(g, buf0, buf1, dirty1, blk.buf, blk.dirty, t, big, n0, n1.value, cbid, nb, lvl);
        ghost var p0, p1 := Slice(big, cbid, 0, n0.nentry), Slice(big, nb, n0.nentry, |NodeEntries(big)|);
        news := [p0, p1];
        ReplacedParts(buf0, blk.buf, blk.dirty, t, p0, p1, lvl, g);
        NewMinKey(t, p0, Flat(p1), e, l, m, r);
        LinkedTwo(blk.buf, g, t, p0, p1, lvl, e.key, moved);
      }
    }

    /** Store an unsplit root. */
    method InstallRoot(n0: Node, touched: bool, ghost big: Tree, ghost buf0: Blocks)
      requires g.Valid() && blk.Valid() && height >= 1 && root == tree.bid && Good(buf0, tree, height, g, true)
      requires KidsReady(buf0, blk.buf, blk.dirty, tree, Kids(big), height, g) && (big.Leaf? <==> height == 1)
      requires Edited(g, blk.buf[root], n0, None, big) && (!touched ==> n0 == blk.buf[root])
      modifies this`root, this`tree, blk
      ensures blk.Valid() && blk.Grown() && (root == old(root) <==> !touched || old(root) in old(blk.writable))
      ensures !touched ==> blk.buf == old(blk.buf) && blk.dirty == old(blk.dirty)
      ensures root == tree.bid && Good(blk.buf, tree, height, g, true) && Sep(tree) && Flat(tree) == Flat(big)
      ensures Accounted(buf0, blk.buf, blk.dirty, Bids(tree), Bids(old(tree)))
    {
      hide Flat, FlatAll, Good, KidsReady, Edited, NodeEntries, EntriesOf, Replaced, Slice, Bids, BidsAll, Accounted,
           Sep;
      ghost var buf1, dirty1 := blk.buf, blk.dirty;
      RootFacts(buf0, buf1, dirty1, tree, big, n0, None, height, g);
      var bid := root;
      if touched {
        blk.Edit(root, n0);
        var moved;
        bid, moved := blk.Settle(root);
      }
      InstalledOne(g, buf0, buf1, dirty1, blk.buf, blk.dirty, tree, big, n0, bid, height, true);
      tree := Slice(big, bid, 0, |NodeEntries(big)|);
      root := bid;
    }

    /** The blocks of a root split.  When the old root is committed it is copied twice, once by
        the metadata update and once by the split itself. */
    method CopyRoot(n0: Node, n1: Node) returns (b0: int, b1: int, extra: int)
      requires g.Valid() && blk.Valid() && root in blk.buf && Ok(n0) && n0.root && |n0.slots| == g.Cap(true)
      modifies blk
      ensures blk.Valid() && blk.Grown() && {b0, b1} <= blk.dirty && Within(old(blk.buf), blk.buf, {root})
      ensures b1 !in old(blk.buf) && b1 in blk.buf && blk.buf[b1] == n1 && b0 != b1 && b0 in blk.buf
      ensures Ok(blk.buf[b0]) && Entries(blk.buf[b0]) == Entries(n0) && |blk.buf[b0].slots| == g.Cap(false)
      ensures blk.buf[b0] == n0.(slots := blk.buf[b0].slots, root := false)
      ensures blk.buf.Keys == old(blk.buf).Keys + {b1} + if root in old(blk.writable) then {} else {extra, b0}
      ensures if root in old(blk.writable) then b0 == root
              else b0 !in old(blk.buf) && extra !in old(blk.buf) && extra != b0 && extra != b1
    {
      blk.Edit(root, n0);
      b1 := blk.Alloc(n1);
      var bare := DropMeta(g, n0);
      blk.Edit(root, bare);
      var moved;
      extra, moved := blk.Settle(root);
      bare := bare.(root := false);
      blk.Edit(root, bare);
      b0, moved := blk.Settle(root);
    }

    /** Root split.  The first copy of a committed root, in block extra, is in neither half. */
    method SplitRoot(n0: Node, n1: Node, ghost big: Tree, ghost buf0: Blocks)
      returns (b0: int, b1: int, ghost p0: Tree, ghost p1: Tree, ghost extra: int)
      requires g.Valid() && blk.Valid() && height >= 1 && root == tree.bid && Good(buf0, tree, height, g, true)
      requires KidsReady(buf0, blk.buf, blk.dirty, tree, Kids(big), height, g) && (big.Leaf? <==> height == 1)
      requires Edited(g, blk.buf[root], n0, Some(n1), big) && n0.nentry >= 1
      modifies blk
      ensures blk.Valid() && blk.Grown()
      ensures Replaced(buf0, blk.buf, blk.dirty, tree, [p0, p1], height, g) && p0.bid == b0 && p1.bid == b1
      ensures Flat(p0) + Flat(p1) == Flat(big) && FlatAll([p0, p1]) == Flat(big)
      ensures b0 in blk.buf && Ok(blk.buf[b0]) && Entries(blk.buf[b0]) == Entries(n0)
      ensures b1 in blk.buf && blk.buf[b1] == n1
      ensures blk.buf.Keys == old(blk.buf).Keys + {b1} + if root in old(blk.writable) then {} else {extra, b0}
      ensures root !in old(blk.writable) ==> extra !in old(blk.buf) && extra != b0 && extra !in Bids(p0) + Bids(p1)
    {
      hide Flat, FlatAll, Good, KidsReady, Edited, NodeEntries, EntriesOf, Replaced, Slice, Bids, BidsAll;
      ghost var buf1, dirty1 := blk.buf, blk.dirty;
      RootFacts(buf0, buf1, dirty1, tree, big, n0, Some(n1), height, g);
      b0, b1, extra := CopyRoot(n0, n1);
      InstalledTwo(g, buf0, buf1, dirty1, blk.buf, blk.dirty, tree, big, n0, n1, b0, b1, height);
      p0, p1 := Slice(big, b0, 0, n0.nentry), Slice(big, b1, n0.nentry, |NodeEntries(big)|);
      SliceApart(buf0, buf1, dirty1, tree, big, height, g, b0, 0, n0.nentry, extra);
      SliceApart(buf0, buf1, dirty1, tree, big, height, g, b1, n0.nentry, |NodeEntries(big)|, extra);
    }

    /** A new root node of one more level with two entries. */
    method PutTop(e0: Entry, e1: Entry) returns (nr: int)
      requires g.Valid() && blk.Valid() && e0.key < e1.key
      modifies blk
      ensures blk.Valid() && blk.Grown() && nr !in old(blk.buf) && nr in blk.buf
      ensures blk.buf == old(blk.buf)[nr := blk.buf[nr]] && blk.dirty == old(blk.dirty) + {nr}
      ensures var top := blk.buf[nr];
              Ok(top) && top.root && top.level == height + 1 && |top.slots| == g.Cap(true) && Entries(top) == [e0, e1]
    {
      CapAtLeastTwo(g);
      var top := InitNode(g, height + 1, true);
      nr := blk.Alloc(top);
      top := TwoEntries(g, top, e0, e1);
      blk.Edit(nr, top);
    }

    /** Root split, then a new root over the two halves: the height grows by one. */
    method GrowRoot(n0: Node, n1: Node, ghost big: Tree, ghost buf0: Blocks)
      requires g.Valid() && blk.Valid() && height >= 1 && root == tree.bid && Good(buf0, tree, height, g, true)
      requires KidsReady(buf0, blk.buf, blk.dirty, tree, Kids(big), height, g) && (big.Leaf? <==> height == 1)
      requires Edited(g, blk.buf[root], n0, Some(n1), big) && n0.nentry >= 1 && Sorted(Flat(big))
      modifies this`root, this`tree, this`height, blk
      ensures blk.Valid() && blk.Grown() && height == old(height) + 1
      ensures root == tree.bid && Good(blk.buf, tree, height, g, true) && Sep(tree) && Flat(tree) == Flat(big)
      ensures Accounted(buf0, blk.buf, blk.dirty, Bids(tree), Bids(old(tree)))
    {
      hide Flat, FlatAll, Good, KidsReady, Edited, NodeEntries, EntriesOf, Replaced, Slice, Bids, BidsAll, Accounted,
           Sep, MinKey, Sorted;
      RootFacts(buf0, blk.buf, blk.dirty, tree, big, n0, Some(n1), height, g);
      var b0, b1;
      ghost var p0, p1;
      ghost var extra;
      b0, b1, p0, p1, extra := SplitRoot(n0, n1, big, buf0);
      ReplacedParts(buf0, blk.buf, blk.dirty, tree, p0, p1, height, g);
      FirstSlot(blk.buf, p0, height, g, false);
      FirstSlot(blk.buf, p1, height, g, false);
      HalfKeys(p0, p1, Flat(big));
      ghost var buf2, dirty2 := blk.buf, blk.dirty;
      var nr := PutTop(Entry(blk.buf[b0].slots[0].key, b0), Entry(n1.slots[0].key, b1));
      RootOver(buf0, buf2, dirty2, tree, p0, p1, height, g, nr, blk.buf, blk.dirty);
      KidsFlat(nr, [p0, p1]);
      tree := Index(nr, [p0, p1]);
      root := nr;
      height := height + 1;
    }

    /** Carry an insertion from a child to its index node. */
    method InsertStep(bid: int, lvl: nat, idx: nat, key: int, cbid: int, moved: bool, ins: Option<Entry>,
                      ghost t: Tree, ghost sub: Tree, ghost news: seq<Tree>,
                      ghost e: Entry, ghost l: seq<Entry>, ghost m: seq<Entry>, ghost r: seq<Entry>, ghost buf0: Blocks,
                      ghost root: bool)
      returns (n0: Node, n1: Option<Node>, touched: bool, ghost big: Tree, ghost l': seq<Entry>, ghost r': seq<Entry>)
      requires g.Valid() && lvl > 1 && Good(buf0, t, lvl, g, root) && Sep(t) && Sorted(Flat(t)) && bid == t.bid
      requires e.key == key && Turn(t, idx, sub, key)
      requires Replaced(buf0, blk.buf, blk.dirty, sub, news, lvl - 1, g) && Linked(sub, news, key, cbid, moved, ins)
      requires Around(Flat(sub), key, l, m, r) && FlatAll(news) == l + [e] + r
      ensures AtLevel(buf0, t, lvl, n0, n1, touched, big, e, l', m, r')
      ensures n1.Some? <==> ins.Some? && Packed(g, t, root)
    {
      hide FlatAll, Good, Sep, Sorted, Around, Replaced, Linked, MinKey, EntriesOf, Edited, BidsAll, SepAll, GoodAll,
           Within, Accounted;
      StepUp(buf0, blk.buf, blk.dirty, g, t, lvl, root, idx, sub, news, e, l, m, r);
      ghost var a, b := FlatAll(t.kids[..idx]), FlatAll(t.kids[idx + 1..]);
      Regroup(a, l, e, r, b);
      KidsSorted(NewKids(t, idx, news));
      n0, n1, touched := EditIndex(bid, lvl, idx, key, cbid, moved, ins, t, news, buf0, root);
      big := Index(bid, NewKids(t, idx, news));
      l', r' := a + l, r + b;
    }

    /** Store the root level of an insertion. */
    method FinishInsert(n0: Node, n1: Option<Node>, touched: bool, ghost big: Tree,
                        ghost e: Entry, ghost l: seq<Entry>, ghost m: seq<Entry>, ghost r: seq<Entry>,
                        ghost buf0: Blocks)
      requires g.Valid() && blk.Valid() && height >= 1 && root == tree.bid && Good(buf0, tree, height, g, true)
               && Sorted(Flat(tree))
      requires AtLevel(buf0, tree, height, n0, n1, touched, big, e, l, m, r)
      modifies this`root, this`tree, this`height, blk
      ensures blk.Valid() && blk.Grown() && height == old(height) + if n1.Some? then 1 else 0
      ensures root == tree.bid && Good(blk.buf, tree, height, g, true) && Sep(tree)
      ensures Flat(tree) == l + [e] + r && Sorted(Flat(tree)) && Around(Flat(old(tree)), e.key, l, m, r)
      ensures Accounted(buf0, blk.buf, blk.dirty, Bids(tree), Bids(old(tree)))
    {
      hide Flat, FlatAll, Good, KidsReady, Edited, NodeEntries, EntriesOf, Bids, BidsAll, Accounted, Sep, MinKey,
           Sorted, Around;
      AroundSorted(Flat(tree), e, l, m, r);
      if n1.None? {
        InstallRoot(n0, touched, big, buf0);
      } else {
        GrowRoot(n0, n1.value, big, buf0);
      }
    }

    /** `btree_insert`.  The result says whether the key was already there.  The tree grows
        exactly when a new key meets no node with room on its way down. */
    method Insert(key: int, val: int) returns (updated: bool, ghost path: seq<Tree>)
      requires Valid() && (height == 1 || Contents() != map[])
      modifies this, blk
      ensures Valid() && blk.dirty == {}
      ensures Contents() == old(Contents())[key := val]
      ensures updated <==> key in old(Contents())
      ensures Route(old(tree), old(height), key, path)
      ensures height == old(height) + if !updated && AllPacked(g, path, old(height), old(height)) then 1 else 0
      ensures forall b :: b in old(blk.disk) && b !in old(blk.writable) ==>
                b in blk.disk && blk.disk[b] == old(blk.disk)[b]
    {
      hide Flat, FlatAll, Good, KidsReady, Edited, NodeEntries, EntriesOf, Replaced, Bids, BidsAll, Accounted, Sep,
           MinKey, Sorted,
           Around, ToMap, Linked, Turn, AtLevel, Packed, Route;
      EmptyMap(Flat(tree));
      ghost var buf0, t0 := blk.buf, tree;
      ghost var e := Entry(key, val);
      var bids, idxs;
      bids, idxs, path := FindPath(key);
      RouteOf(buf0, g, tree, height, key, path, bids, idxs);
      var n0, n1, touched;
      ghost var big, l, m, r;
      n0, n1, touched, updated, big, l, m, r := InsertUp(key, val, bids, idxs, path);
      FinishInsert(n0, n1, touched, big, e, l, m, r, buf0);
      Persist(buf0, old(blk.dirty), blk.disk, t0, blk.buf, blk.dirty, tree);
      ToMapPut(Flat(t0), e, l, m, r);
      AroundHas(Flat(t0), key, l, m, r);
      blk.OperationEnd();
    }

    /** The levels of an insertion up to the root, whose edit is not stored yet. */
    method InsertUp(key: int, val: int, bids: seq<int>, idxs: seq<nat>, ghost path: seq<Tree>)
      returns (n0: Node, n1: Option<Node>, touched: bool, updated: bool, ghost big: Tree, ghost l: seq<Entry>,
               ghost m: seq<Entry>, ghost r: seq<Entry>)
      requires g.Valid() && blk.Valid() && OnPath(blk.buf, g, tree, height, key, path, bids, idxs, 0)
      modifies blk
      ensures blk.Valid() && blk.Grown()
      ensures AtLevel(old(blk.buf), tree, height, n0, n1, touched, big, Entry(key, val), l, m, r)
      ensures updated <==> m != []
      ensures n1.Some? <==> m == [] && AllPacked(g, path, height, height)
    {
      hide Flat, FlatAll, Good, KidsReady, Edited, NodeEntries, EntriesOf, Replaced, Bids, BidsAll, Accounted, Sep,
           MinKey, Sorted,
           Around, ToMap, Linked, Turn, AtLevel, Packed;
      ghost var buf0, e := blk.buf, Entry(key, val);
      PathAt(buf0, g, tree, height, key, path, bids, idxs, 0, 0);
      n0, n1, updated, big, l, m, r := EditLeaf(bids[0], Entry(key, val), path[0], height == 1);
      touched := true;
      var i := 0;
      while i + 1 < height
        invariant 0 <= i < height
        invariant blk.Valid() && blk.Grown()
        invariant AtLevel(buf0, path[i], i + 1, n0, n1, touched, big, e, l, m, r)
        invariant updated <==> m != []
        invariant n1.Some? <==> m == [] && AllPacked(g, path, height, i + 1)
      {
        PathAt(buf0, g, tree, height, key, path, bids, idxs, 0, i);
        var cbid, moved, ins;
        ghost var news;
        AtLevelAround(buf0, path[i], i + 1, n0, n1, touched, big, e, l, m, r);
        cbid, moved, ins, news := Install(bids[i], i + 1, n0, n1, touched, path[i], big, e, l, m, r, buf0);
        i := i + 1;
        PathAt(buf0, g, tree, height, key, path, bids, idxs, 0, i);
        n0, n1, touched, big, l, r := InsertStep(bids[i], i + 1, idxs[i], key, cbid, moved, ins, path[i], path[i - 1],
                                                 news, e, l, m, r, buf0, i + 1 == height);
      }
    }

    lemma AtLevelAround(buf0: Blocks, t: Tree, lvl: nat, n0: Node, n1: Option<Node>, touched: bool, big: Tree,
                        e: Entry, l: seq<Entry>, m: seq<Entry>, r: seq<Entry>)
      requires g.kv > 0 && AtLevel(buf0, t, lvl, n0, n1, touched, big, e, l, m, r)
      ensures Around(Flat(t), e.key, l, m, r)
    {
    }

    // ----- removal -----

    /** The descent of `btree_remove`, which gives up when the key is below every key. */
    method RemovePath(key: int) returns (found: bool, bids: seq<int>, idxs: seq<nat>, ghost path: seq<Tree>)
      requires Valid()
      ensures !found ==> Above(Flat(tree), key)
      ensures found ==> OnPath(blk.buf, g, tree, height, key, path, bids, idxs, 0)
      ensures found ==> idxs[0] < blk.buf[bids[0]].nentry && Ok(blk.buf[bids[0]])
      ensures found ==> blk.buf[bids[0]].slots[idxs[0]].key <= key
      ensures found ==> forall j :: idxs[0] < j < blk.buf[bids[0]].nentry ==> key < blk.buf[bids[0]].slots[j].key
    {
      hide FlatAll, Flat, BidsAll, Bids, Good, Sep, Turn, Sorted, MinKey;
      var top := root;
      ghost var whole := tree;
      bids := seq(height, _ => top);
      idxs := seq(height, _ => 0);
      path := seq(height, _ => whole);
      var i := height - 1;
      while true
        invariant 0 <= i < height
        invariant OnPath(blk.buf, g, tree, height, key, path, bids, idxs, i)
        invariant i + 1 < height ==> Flat(path[i]) != [] && MinKey(path[i]) <= key
        decreases i
      {
        PathAt(blk.buf, g, tree, height, key, path, bids, idxs, i, i);
        ghost var t := path[i];
        NodeSorted(blk.buf, t, i + 1, g, i + 1 == height);
        FirstSlot(blk.buf, t, i + 1, g, i + 1 == height);
        var n := blk.buf[bids[i]];
        var f := FindEntry(n, key);
        if f.None? {
          if i + 1 < height { assert false; }
          AllAbove(blk.buf, t, i + 1, g, true, key);
          return false, bids, idxs, path;
        }
        if i == 0 {
          idxs := idxs[0 := f.value];
          return true, bids, idxs, path;
        }
        TurnAt(blk.buf, t, i + 1, g, i + 1 == height, f.value, key);
        ExtendPath(blk.buf, g, tree, height, key, path, bids, idxs, i, f.value, t.kids[f.value]);
        GoodNonempty(blk.buf, t.kids[f.value], i, g, false);
        SlotIs(t, n, f.value);
        bids, idxs := bids[i - 1 := n.slots[f.value].val], idxs[i := f.value];
        path := path[i - 1 := t.kids[f.value]];
        i := i - 1;
      }
    }

    /** A node of level lvl that lost its last entry but still has a slot 0 naming a
        child that lost its last entry too. */
    ghost predicate StaleSlot(n: Node, lvl: nat)
      reads blk
    {
      && |n.slots| >= 1
      && n.slots[0].val in blk.buf
      && blk.buf[n.slots[0].val].nentry == 0
      && blk.buf[n.slots[0].val].level + 1 == lvl
    }

    /** What level lvl looks like once entry x below it is gone but its own node is
        not yet stored. */
    ghost predicate AtCut(buf0: Blocks, t: Tree, lvl: nat, n0: Node, touched: bool, big: Tree, x: Entry, l: seq<Entry>,
                          r: seq<Entry>)
      requires g.kv > 0
      reads this, blk
    {
      && lvl >= 1
      && KidsReady(buf0, blk.buf, blk.dirty, t, Kids(big), lvl, g)
      && Edited(g, blk.buf[t.bid], n0, None, big)
      && (big.Leaf? <==> lvl == 1)
      && Around(Flat(t), x.key, l, [x], r)
      && Flat(big) == l + r
      && (!touched ==> n0 == blk.buf[t.bid] && n0.nentry >= 1)
      && (lvl > 1 && n0.nentry == 0 ==> StaleSlot(n0, lvl))
    }

    /** The leaf level of `btree_remove`. */
    method CutLeaf(bid: int, idx: nat, ghost t: Tree, ghost root: bool)
      returns (n0: Node, ghost big: Tree, ghost x: Entry, ghost l: seq<Entry>, ghost r: seq<Entry>)
      requires g.Valid() && Good(blk.buf, t, 1, g, root) && Sorted(Flat(t)) && bid == t.bid && idx < blk.buf[bid].nentry
      ensures AtCut(blk.buf, t, 1, n0, true, big, x, l, r)
      ensures Ok(blk.buf[bid]) && x == blk.buf[bid].slots[idx] && l == Entries(blk.buf[bid])[..idx]
              && r == Entries(blk.buf[bid])[idx + 1..]
    {
      hide Good;
      NodeSorted(blk.buf, t, 1, g, root);
      LeafReady(blk.buf, blk.dirty, t, g, root);
      var n := blk.buf[bid];
      ghost var at;
      n0, at := RemoveEntry(n, n.slots[idx].key);
      SameSlot(n, idx, at);
      x, l, r := n.slots[idx], Entries(n)[..idx], Entries(n)[idx + 1..];
      big := Leaf(bid, l + r);
      CutAround(n, idx);
    }

    /** Store a non-root level of a removal.  An emptied node is still stored, as the
        code marks it stale and may even copy it. */
    method InstallCut(bid: int, lvl: nat, n0: Node, touched: bool, ghost t: Tree, ghost big: Tree,
                      ghost x: Entry, ghost l: seq<Entry>, ghost r: seq<Entry>, ghost buf0: Blocks)
      returns (cbid: int, moved: bool, ghost news: seq<Tree>)
      requires g.Valid() && blk.Valid() && bid == t.bid && Good(buf0, t, lvl, g, false)
      requires AtCut(buf0, t, lvl, n0, touched, big, x, l, r)
      modifies blk
      ensures blk.Valid() && blk.Grown()
      ensures Replaced(buf0, blk.buf, blk.dirty, t, news, lvl, g) && FlatAll(news) == l + r
      ensures |news| <= 1 && (!moved ==> cbid == t.bid) && cbid in blk.buf && blk.buf[cbid] == n0
      ensures news == [] <==> n0.nentry == 0
      ensures news != [] ==> news[0].bid == cbid
      ensures n0.level == lvl && (moved <==> touched && bid !in old(blk.writable))
      ensures !touched ==> blk.buf == old(blk.buf) && blk.dirty == old(blk.dirty)
    {
      hide Flat, FlatAll, Good, KidsReady, Edited, Around, NodeEntries, EntriesOf, Replaced, Slice, Bids, BidsAll;
      ghost var buf1, dirty1 := blk.buf, blk.dirty;
      TouchFacts(buf0, buf1, dirty1, t, big, n0, None, lvl, g);
      cbid, moved := bid, false;
      if touched {
        blk.Edit(bid, n0);
        cbid, moved := blk.Settle(bid);
      }
      if n0.nentry == 0 {
        InstalledNone(g, buf0, buf1, dirty1, blk.buf, blk.dirty, t, big, lvl);
        news := [];
        EmptyEdit(g, buf1[t.bid], n0, big);
        NoTrees();
      } else {
        InstalledOne(g, buf0, buf1, dirty1, blk.buf, blk.dirty, t, big, n0, cbid, lvl, false);
        news := [Slice(big, cbid, 0, |NodeEntries(big)|)];
      }
    }

    /** An index level of `btree_remove`: refresh the child's first key, repoint a moved
        child, or drop the entry of an emptied child. */
    method CutIndex(bid: int, lvl: nat, idx: nat, cbid: int, moved: bool, ghost t: Tree, ghost news: seq<Tree>,
                    ghost buf0: Blocks, ghost root: bool)
      returns (n0: Node, touched: bool)
      requires g.Valid() && lvl > 1 && Good(buf0, t, lvl, g, root) && Sorted(Flat(t)) && bid == t.bid
      requires bid in blk.buf && blk.buf[bid] == buf0[bid] && t.Index? && idx < |t.kids|
      requires |news| <= 1 && (!moved ==> cbid == t.kids[idx].bid) && cbid in blk.buf && blk.buf[cbid].level + 1 == lvl
      requires news == [] <==> blk.buf[cbid].nentry == 0
      requires news != [] ==> news[0].bid == cbid && Ok(blk.buf[cbid]) && blk.buf[cbid].slots[0].key == MinKey(news[0])
      ensures Edited(g, blk.buf[bid], n0, None, Index(bid, NewKids(t, idx, news)))
      ensures !touched ==> n0 == blk.buf[bid] && n0.nentry >= 1
      ensures n0.nentry == 0 ==> StaleSlot(n0, lvl)
      ensures news != [] ==> n0.nentry >= 1
      ensures touched <==> moved || news == [] || MinKey(news[0]) != MinKey(t.kids[idx])
    {
      hide Good, Sorted, Flat, FlatAll, MinKey, EntriesOf;
      NodeSorted(buf0, t, lvl, g, root);
      var n := blk.buf[bid];
      SlotIs(t, n, idx);
      var k := n.slots[idx].key;
      n0, touched := n, false;
      if blk.buf[cbid].nentry > 0 {
        var kk := blk.buf[cbid].slots[0].key;
        if kk != k {
          n0 := SetKv(n0, idx, Entry(kk, n0.slots[idx].val));
          k, touched := kk, true;
        }
        if moved {
          n0 := SetKv(n0, idx, Entry(k, cbid));
          touched := true;
        }
        SetTwice(n, idx, Entry(k, n.slots[idx].val), Entry(k, cbid));
        KeptEntries(t, idx, n, n0, news[0]);
        assert news == [news[0]];
      } else {
        if moved {
          n0 := SetKv(n0, idx, Entry(k, cbid));
        }
        n0 := DropEntry(n0, n, idx, cbid, t);
        touched := true;
      }
    }

    /** Drop the entry of an emptied child, already pointing at block cbid. */
    method DropEntry(n1: Node, ghost n: Node, idx: nat, ghost cbid: int, ghost t: Tree) returns (n0: Node)
      requires t.Index? && Ok(n) && Entries(n) == EntriesOf(t.kids) && Sorted(Entries(n)) && idx < |t.kids|
      requires n1 == SetKv(n, idx, Entry(MinKey(t.kids[idx]), cbid)) || (n1 == n && cbid == t.kids[idx].bid)
      ensures Ok(n0) && n0 == n.(nentry := n0.nentry, slots := n0.slots) && |n0.slots| == |n.slots|
      ensures Entries(n0) == EntriesOf(NewKids(t, idx, []))
      ensures n0.nentry == 0 ==> |n0.slots| >= 1 && n0.slots[0].val == cbid
    {
      hide MinKey, EntriesOf, Sorted;
      RepointedNode(t, n, n1, idx, cbid);
      SlotIs(t, n, idx);
      RepointedSorted(t, idx, cbid);
      ghost var at;
      n0, at := RemoveEntry(n1, n1.slots[idx].key);
      SameSlot(n1, idx, at);
      CutEntries(t, idx, n);
      assert Entries(n1)[..idx] == Entries(n)[..idx] && Entries(n1)[idx + 1..] == Entries(n)[idx + 1..];
    }

    /** Carry a removal from a child to its index node. */
    method CutStep(bid: int, lvl: nat, idx: nat, cbid: int, moved: bool, ghost t: Tree, ghost sub: Tree,
                   ghost news: seq<Tree>,
                   ghost key: int, ghost x: Entry, ghost l: seq<Entry>, ghost r: seq<Entry>, ghost buf0: Blocks,
                   ghost root: bool)
      returns (n0: Node, touched: bool, ghost big: Tree, ghost l': seq<Entry>, ghost r': seq<Entry>)
      requires g.Valid() && lvl > 1 && Good(buf0, t, lvl, g, root) && Sep(t) && Sorted(Flat(t)) && bid == t.bid
      requires Turn(t, idx, sub, key) && MinKey(sub) <= x.key <= key && Above(r, key)
      requires Replaced(buf0, blk.buf, blk.dirty, sub, news, lvl - 1, g) && FlatAll(news) == l + r
               && Around(Flat(sub), x.key, l, [x], r)
      requires |news| <= 1 && (!moved ==> cbid == sub.bid) && cbid in blk.buf && blk.buf[cbid].level + 1 == lvl
      requires news == [] <==> blk.buf[cbid].nentry == 0
      requires news != [] ==> news[0].bid == cbid
      ensures AtCut(buf0, t, lvl, n0, touched, big, x, l', r') && Above(r', key)
      ensures news != [] ==> n0.nentry >= 1
      ensures CutAt(t, idx, x, big, news == [])
    {
      hide FlatAll, Flat, Good, Sep, Sorted, Around, Replaced, MinKey, EntriesOf, Edited, BidsAll, SepAll, GoodAll,
           Within, Accounted, CutAt, NodeEntries;
      TurnVictim(buf0, t, lvl, g, root, idx, sub, key, x.key);
      KidsFlat(bid, NewKids(t, idx, news));
      StepUp(buf0, blk.buf, blk.dirty, g, t, lvl, root, idx, sub, news, x, l, [x], r);
      ghost var a, b := FlatAll(t.kids[..idx]), FlatAll(t.kids[idx + 1..]);
      Regroup(a, l, x, r, b);
      if news != [] {
        assert news == [news[0]];
        ReplacedOne(buf0, blk.buf, blk.dirty, sub, news[0], lvl - 1, g);
      }
      CutMade(buf0, blk.buf, blk.dirty, t, idx, news, lvl, g, l, x, r);
      n0, touched := CutIndex(bid, lvl, idx, cbid, moved, t, news, buf0, root);
      big := Index(bid, NewKids(t, idx, news));
      l', r' := a + l, r + b;
    }

    /** Height shrink: the last child of the root, or the emptied child that slot 0
        still names, is copied into a new root. */
    method Shrink(n0: Node, child: Node, ghost big: Tree, ghost buf0: Blocks)
      requires g.Valid() && blk.Valid() && height > 1 && root == tree.bid && Good(buf0, tree, height, g, true)
      requires KidsReady(buf0, blk.buf, blk.dirty, tree, Kids(big), height, g) && big.Index?
      requires Edited(g, blk.buf[root], n0, None, big) && n0.nentry <= 1
      requires n0.nentry == 0 ==> StaleSlot(n0, height)
      requires |n0.slots| >= 1 && n0.slots[0].val in blk.buf && child == blk.buf[n0.slots[0].val]
      requires Ok(child) && g.Size(true, child.nentry) < g.nodesize
      modifies this`root, this`tree, this`height, blk
      ensures blk.Valid() && blk.Grown() && height == old(height) - 1
      ensures root == tree.bid && Good(blk.buf, tree, height, g, true) && Sep(tree) && Flat(tree) == Flat(big)
      ensures Accounted(buf0, blk.buf, blk.dirty, Bids(tree), Bids(old(tree)))
    {
      hide Flat, FlatAll, Good, KidsReady, Edited, NodeEntries, EntriesOf, Slice, Bids, BidsAll, Accounted, Sep, MinKey;
      ghost var buf1, dirty1 := blk.buf, blk.dirty;
      RootFacts(buf0, buf1, dirty1, tree, big, n0, None, height, g);
      ReadyKeys(buf0, buf1, dirty1, tree, Kids(big), height, g);
      blk.Edit(root, n0);
      var top := CopyToRoot(g, child, height - 1);
      var nr := blk.Alloc(top);
      if n0.nentry == 0 {
        EmptyEdit(g, buf1[root], n0, big);
        EmptyRoot(g, buf0, blk.buf, blk.dirty, Bids(tree), nr, height - 1);
        tree := if height == 2 then Leaf(nr, []) else Index(nr, []);
      } else {
        OneKid(g, buf1[root], n0, big);
        ghost var k := big.kids[0];
        Promoted(g, buf0, buf1, dirty1, blk.buf, blk.dirty, tree, k, nr, height);
        tree := Slice(k, nr, 0, |NodeEntries(k)|);
      }
      root := nr;
      height := height - 1;
    }

    /** The root level of `btree_remove`. */
    method FinishCut(n0: Node, touched: bool, rmv: bool, ghost big: Tree, ghost x: Entry, ghost l: seq<Entry>,
                     ghost r: seq<Entry>, ghost buf0: Blocks, ghost at: nat)
      requires g.Valid() && blk.Valid() && height >= 1 && root == tree.bid && Good(buf0, tree, height, g, true)
      requires AtCut(buf0, tree, height, n0, touched, big, x, l, r)
      requires (!rmv ==> n0.nentry >= 1) && (height > 1 ==> CutAt(tree, at, x, big, rmv))
      modifies this`root, this`tree, this`height, blk
      ensures blk.Valid() && blk.Grown() && 1 <= height <= old(height)
      ensures root == tree.bid && Good(blk.buf, tree, height, g, true) && Sep(tree) && Flat(tree) == l + r
      ensures Accounted(buf0, blk.buf, blk.dirty, Bids(tree), Bids(old(tree)))
      ensures l + r == [] ==> height == if old(height) == 1 then 1 else old(height) - 1
      ensures height == if old(height) > 1 && LosesLevel(g, old(tree), at) then old(height) - 1 else old(height)
    {
      hide Flat, FlatAll, Good, KidsReady, Edited, NodeEntries, EntriesOf, Bids, BidsAll, Accounted, Sep, MinKey,
           Around;
      RootFacts(buf0, blk.buf, blk.dirty, tree, big, n0, None, height, g);
      EmptyOrNot(buf0, blk.buf, blk.dirty, tree, height, g, n0, big);
      EditedSize(g, blk.buf[tree.bid], n0, big);
      if rmv && n0.nentry <= 1 && height > 1 {
        var child := ReadSlotZero(n0, big, buf0);
        if n0.nentry == 1 { OtherKid(g, buf0, blk.buf, blk.dirty, tree, at, x, big, n0, height); }
        if g.Size(true, child.nentry) < g.nodesize {
          Shrink(n0, child, big, buf0);
          return;
        }
      }
      InstallRoot(n0, touched, big, buf0);
    }

    method ReadSlotZero(n0: Node, ghost big: Tree, ghost buf0: Blocks) returns (child: Node)
      requires g.Valid() && height > 1 && KidsReady(buf0, blk.buf, blk.dirty, tree, Kids(big), height, g) && big.Index?
      requires tree.bid in blk.buf && Edited(g, blk.buf[tree.bid], n0, None, big) && n0.nentry <= 1
      requires n0.nentry == 0 ==> StaleSlot(n0, height)
      ensures |n0.slots| >= 1 && n0.slots[0].val in blk.buf && child == blk.buf[n0.slots[0].val] && Ok(child)
      ensures n0.nentry == 0 ==> g.Size(true, child.nentry) < g.nodesize
    {
      hide Flat, FlatAll, NodeEntries, EntriesOf, BidsAll, Accounted, MinKey;
      if n0.nentry == 1 {
        OneKid(g, blk.buf[tree.bid], n0, big);
        assert Good(blk.buf, big.kids[0], height - 1, g, false);
      }
      ShrinkFits(g, 0);
      child := blk.buf[n0.slots[0].val];
    }

    /** `btree_remove`.  The leaf entry that is removed is the one the search stops at,
        so an absent key takes its floor with it. */
    method Remove(key: int) returns (found: bool, ghost victim: int, ghost at: nat)
      requires Valid()
      modifies this, blk
      ensures Valid() && blk.dirty == {}
      ensures found <==> exists k :: k in old(Contents()) && k <= key
      ensures !found ==> Contents() == old(Contents()) && height == old(height)
      ensures found ==> IsFloor(old(Contents()), key, victim) && Contents() == old(Contents()) - {victim}
      ensures found ==> (height > 1 && Contents() == map[] <==> |old(Contents())| == 1 && old(height) >= 3)
      ensures 1 <= height <= old(height)
      ensures found && old(height) > 1 ==>
                && at < |Kids(old(tree))| && Holding(old(tree).kids[at], victim)
                && height == if LosesLevel(g, old(tree), at) then old(height) - 1 else old(height)
      ensures found && Contents() == map[] ==> height == if old(height) == 1 then 1 else old(height) - 1
      ensures forall b :: b in old(blk.disk) && b !in old(blk.writable) ==>
                b in blk.disk && blk.disk[b] == old(blk.disk)[b]
    {
      hide Flat, FlatAll, Good, KidsReady, Edited, NodeEntries, EntriesOf, Replaced, Bids, BidsAll, Accounted, Sep,
           MinKey, Sorted,
           Around, ToMap, Turn, AtCut, IsFloor, CutAt, LosesLevel, Holding;
      ghost var buf0, t0 := blk.buf, tree;
      var bids, idxs;
      ghost var path;
      found, bids, idxs, path := RemovePath(key);
      victim, at := key, 0;
      if !found {
        NoFloor(Flat(tree), key);
        blk.OperationEnd();
        return;
      }
      var n0, touched, rmv;
      ghost var big, x, l, r;
      n0, touched, rmv, big, x, l, r := CutUp(key, bids, idxs, path);
      victim, at := x.key, idxs[height - 1];
      AtCutAround(buf0, tree, height, n0, touched, big, x, l, r);
      if height > 1 { CutHolds(tree, at, x, big, rmv); }
      FinishCut(n0, touched, rmv, big, x, l, r, buf0, at);
      Persist(buf0, old(blk.dirty), blk.disk, t0, blk.buf, blk.dirty, tree);
      RemovalFacts(Flat(t0), x, l, r, key);
      assert victim in old(Contents()) && victim <= key;
      blk.OperationEnd();
    }

    /** The levels of a removal up to the root, whose edit is not stored yet. */
    method CutUp(key: int, bids: seq<int>, idxs: seq<nat>, ghost path: seq<Tree>)
      returns (n0: Node, touched: bool, rmv: bool, ghost big: Tree, ghost x: Entry, ghost l: seq<Entry>,
               ghost r: seq<Entry>)
      requires g.Valid() && blk.Valid() && OnPath(blk.buf, g, tree, height, key, path, bids, idxs, 0)
      requires idxs[0] < blk.buf[bids[0]].nentry && Ok(blk.buf[bids[0]])
      requires blk.buf[bids[0]].slots[idxs[0]].key <= key
      requires forall j :: idxs[0] < j < blk.buf[bids[0]].nentry ==> key < blk.buf[bids[0]].slots[j].key
      modifies blk
      ensures blk.Valid() && blk.Grown()
      ensures AtCut(old(blk.buf), tree, height, n0, touched, big, x, l, r)
      ensures x.key <= key && Above(r, key) && (!rmv ==> n0.nentry >= 1)
      ensures height > 1 ==> CutAt(tree, idxs[height - 1], x, big, rmv)
    {
      hide Flat, FlatAll, Good, KidsReady, Edited, NodeEntries, EntriesOf, Replaced, Bids, BidsAll, Accounted, Sep,
           MinKey, Sorted,
           Around, ToMap, Turn, AtCut, CutAt;
      ghost var buf0 := blk.buf;
      PathAt(buf0, g, tree, height, key, path, bids, idxs, 0, 0);
      n0, big, x, l, r := CutLeaf(bids[0], idxs[0], path[0], height == 1);
      touched, rmv := true, true;
      var i := 0;
      while i + 1 < height
        invariant 0 <= i < height
        invariant blk.Valid() && blk.Grown()
        invariant AtCut(buf0, path[i], i + 1, n0, touched, big, x, l, r)
        invariant x.key <= key && Above(r, key) && (!rmv ==> n0.nentry >= 1)
        invariant i > 0 ==> CutAt(path[i], idxs[i], x, big, rmv)
      {
        PathAt(buf0, g, tree, height, key, path, bids, idxs, 0, i);
        AtCutAround(buf0, path[i], i + 1, n0, touched, big, x, l, r);
        var cbid, moved;
        ghost var news;
        cbid, moved, news := InstallCut(bids[i], i + 1, n0, touched, path[i], big, x, l, r, buf0);
        i := i + 1;
        PathAt(buf0, g, tree, height, key, path, bids, idxs, 0, i);
        rmv := blk.buf[cbid].nentry == 0;
        n0, touched, big, l, r := CutStep(bids[i], i + 1, idxs[i], cbid, moved, path[i], path[i - 1], news, key, x, l,
                                          r, buf0, i + 1 == height);
      }
    }

    lemma AtCutAround(buf0: Blocks, t: Tree, lvl: nat, n0: Node, touched: bool, big: Tree, x: Entry, l: seq<Entry>,
                      r: seq<Entry>)
      requires g.kv > 0 && AtCut(buf0, t, lvl, n0, touched, big, x, l, r)
      ensures Around(Flat(t), x.key, l, [x], r)
      ensures MinKey(t) <= x.key
    {
      hide Flat, KidsReady, Edited;
      if l != [] { assert Flat(t)[0] == l[0]; } else { assert Flat(t)[0] == x; }
    }
  }

  // ----- a tree that removal leaves without an entry in an index root -----

  function ChainNode(level: nat, root: bool, e: Entry, cap: nat): Node {
    Node(level, root, 1, seq(cap, _ => e))
  }

  function ChainBuf(g: Geometry, e: Entry): Blocks
    requires g.Valid()
  {
    CapAtLeastTwo(g);
    map[0 := ChainNode(1, false, e, g.Cap(false)), 1 := ChainNode(2, false, Entry(e.key, 0), g.Cap(false)),
        2 := ChainNode(3, true, Entry(e.key, 1), g.Cap(true))]
  }

  /** A height-three tree with a single key is well formed.  `Remove` of that key then leaves
      an index root without entries. */
  lemma OneKeyChain(g: Geometry, e: Entry)
    requires g.Valid()
    ensures var t := Index(2, [Index(1, [Leaf(0, [e])])]);
            Good(ChainBuf(g, e), t, 3, g, true) && Sep(t) && Flat(t) == [e] && Sorted(Flat(t))
  {
    CapAtLeastTwo(g);
    var leaf := Leaf(0, [e]);
    var mid := Index(1, [leaf]);
    var buf := ChainBuf(g, e);
    One(leaf);
    One(mid);
    OwnBids(mid);
    assert Flat(leaf) == [e] && Flat(mid) == FlatAll([leaf]);
    EntriesFew([leaf]);
    EntriesFew([mid]);
    assert Entries(buf[0]) == [e] && Entries(buf[1]) == [Entry(e.key, 0)] && Entries(buf[2]) == [Entry(e.key, 1)];
    assert Good(buf, leaf, 1, g, false);
    assert Good(buf, mid, 2, g, false);
  }

  /** Removing the only key of a tree of height three leaves an index root without entries. */
  method EmptyIndexRoot(g: Geometry, e: Entry) returns (bt: BTree)
    requires g.Valid()
    ensures bt.Valid() && bt.height == 2 && bt.Contents() == map[]
  {
    OneKeyChain(g, e);
    var blk := new BlockStore(ChainBuf(g, e));
    ghost var t := Index(2, [Index(1, [Leaf(0, [e])])]);
    ChainRoot(g, e);
    bt := new BTree.FromBid(g, blk, 2, t);
    OneEntry(e);
    var found;
    ghost var victim, at;
    found, victim, at := bt.Remove(e.key);
  }

  lemma ChainRoot(g: Geometry, e: Entry)
    requires g.Valid()
    ensures 2 in ChainBuf(g, e) && ChainBuf(g, e)[2].level == 3
            && Bids(Index(2, [Index(1, [Leaf(0, [e])])])) <= ChainBuf(g, e).Keys
  {
    hide Good;
    OneKeyChain(g, e);
    GoodBids(ChainBuf(g, e), Index(2, [Index(1, [Leaf(0, [e])])]), 3, g, true);
  }

  lemma OneEntry(e: Entry)
    ensures ToMap([e]) == map[e.key := e.val] && |ToMap([e])| == 1 && e.key in ToMap([e])
    ensures forall v :: v in ToMap([e]) ==> ToMap([e]) - {v} == map[]
  {
    assert [e][..0] == [];
    ToMapSize([e]);
  }

  /** A block that did not exist is in no part of a node but the one it holds itself. */
  lemma SliceApart(buf0: Blocks, buf: Blocks, dirty: set<int>, t: Tree, big: Tree, lvl: nat, g: Geometry, bid: int,
                   a: nat, b: nat, x: int)
    requires g.kv > 0 && lvl >= 1 && KidsReady(buf0, buf, dirty, t, Kids(big), lvl, g)
    requires a <= b <= |NodeEntries(big)|
    ensures x !in buf && x != bid ==> x !in Bids(Slice(big, bid, a, b))
  {
    hide Good, Flat, FlatAll, Accounted, Within, SepAll, Bids, BidsAll, GoodAll;
    GoodBidsAll(buf, Kids(big), lvl - 1, g);
    OwnBids(Slice(big, bid, a, b));
    if big.Index? {
      SomeBids(big.kids, a, b);
    } else {
      NoTrees();
    }
  }

  lemma SomeBids(ks: seq<Tree>, a: nat, b: nat)
    requires a <= b <= |ks|
    ensures BidsAll(ks[a..b]) <= BidsAll(ks)
  {
    hide Bids, BidsAll;
    assert ks == ks[..a] + ks[a..b] + ks[b..];
    BidsConcat(ks[..a] + ks[a..b], ks[b..]);
    BidsConcat(ks[..a], ks[a..b]);
  }
}
