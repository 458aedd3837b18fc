/** B+tree iterators (`btree_iterator_init`, `_btree_next`, `_btree_prev`, src/btree.cc)
    over runs in one direction. */
module BTreeIter {
  import opened Options
  import opened BTreeNode
  import opened BTreeTree
  import opened BTreeStore
  import opened BTreeStep
  import opened BTreeOps

  /** The entries with key at least k, in order. */
  ghost function From(s: seq<Entry>, k: int): seq<Entry> {
    if s == [] then [] else if s[0].key >= k then s else From(s[1..], k)
  }

  lemma {:induction false} FromSkip(a: seq<Entry>, s: seq<Entry>, k: int)
    requires Below(a, k)
    ensures From(a + s, k) == From(s, k)
  {
    if a == [] {
      assert a + s == s;
    } else {
      assert (a + s)[1..] == a[1..] + s;
      FromSkip(a[1..], s, k);
    }
  }

  lemma FromAll(s: seq<Entry>, k: int)
    requires forall i :: 0 <= i < |s| ==> k <= s[i].key
    ensures From(s, k) == s
  {
  }

  lemma {:induction false} FromTail(s: seq<Entry>, b: seq<Entry>, k: int)
    requires Above(b, k)
    ensures From(s + b, k) == From(s, k) + b
  {
    if s == [] {
      assert s + b == b;
      FromAll(b, k);
    } else {
      assert (s + b)[1..] == s[1..] + b;
      FromTail(s[1..], b, k);
    }
  }

  lemma {:induction false} FromHas(s: seq<Entry>, k: int, e: Entry)
    requires Sorted(s)
    ensures e in From(s, k) <==> e in s && e.key >= k
  {
    if s != [] && s[0].key < k {
      FromHas(s[1..], k, e);
      assert s == [s[0]] + s[1..];
    }
  }

  lemma {:induction false} FromSorted(s: seq<Entry>, k: int)
    requires Sorted(s)
    ensures Sorted(From(s, k))
  {
    if s != [] && s[0].key < k {
      FromSorted(s[1..], k);
    }
  }

  // ----- iterator state -----

  /** Levels 0..d have been left: the next visit searches for the current key. */
  ghost predicate Fresh(d: nat, idx: seq<Option<nat>>, node: seq<Option<Node>>) {
    d < |idx| == |node| && forall e :: 0 <= e <= d ==> idx[e].None? && node[e].None?
  }

  /** Levels 0..d are about to be entered at their first entry. */
  ghost predicate Reset(d: nat, idx: seq<Option<nat>>, node: seq<Option<Node>>) {
    d < |idx| == |node| && forall e :: 0 <= e <= d ==> idx[e] == Some(0) && node[e].None?
  }

  /** Levels 0..d hold the nodes on a path in subtree t and positions in them. */
  ghost predicate Active(buf: Blocks, t: Tree, d: nat, idx: seq<Option<nat>>, node: seq<Option<Node>>) {
    && d < |idx| == |node|
    && t.bid in buf
    && node[d] == Some(buf[t.bid])
    && idx[d].Some?
    && (if d == 0 then t.Leaf? && idx[0].value <= |t.kvs|
        else t.Index? && idx[d].value < |t.kids| && Active(buf, t.kids[idx[d].value], d - 1, idx, node))
  }

  /** What a forward run still has to return from subtree t. */
  ghost function Ahead(t: Tree, d: nat, idx: seq<Option<nat>>): seq<Entry>
    decreases t
  {
    if d >= |idx| || idx[d].None? then []
    else if t.Leaf? then (if idx[d].value <= |t.kvs| then t.kvs[idx[d].value..] else [])
    else if d == 0 || idx[d].value >= |t.kids| then []
    else Ahead(t.kids[idx[d].value], d - 1, idx) + FlatAll(t.kids[idx[d].value + 1..])
  }

  datatype Mode = FreshMode | ResetMode | ActiveMode

  ghost predicate In(mode: Mode, buf: Blocks, t: Tree, d: nat, idx: seq<Option<nat>>, node: seq<Option<Node>>) {
    match mode
    case FreshMode => Fresh(d, idx, node)
    case ResetMode => Reset(d, idx, node)
    case ActiveMode => Active(buf, t, d, idx, node)
  }

  ghost function Rest(mode: Mode, t: Tree, d: nat, idx: seq<Option<nat>>, curkey: int): seq<Entry> {
    match mode
    case FreshMode => From(Flat(t), curkey)
    case ResetMode => Flat(t)
    case ActiveMode => Ahead(t, d, idx)
  }

  lemma {:induction false} ActiveFrame(buf: Blocks, t: Tree, d: nat, idx: seq<Option<nat>>, node: seq<Option<Node>>,
                                       idx': seq<Option<nat>>, node': seq<Option<Node>>)
    requires d < |idx| == |node| == |idx'| == |node'|
    requires forall e :: 0 <= e <= d ==> idx'[e] == idx[e] && node'[e] == node[e]
    ensures Active(buf, t, d, idx, node) ==> Active(buf, t, d, idx', node')
    ensures Ahead(t, d, idx') == Ahead(t, d, idx)
    decreases t
  {
    if t.Index? && d > 0 && idx[d].Some? && idx[d].value < |t.kids| {
      ActiveFrame(buf, t.kids[idx[d].value], d - 1, idx, node, idx', node');
    }
  }

  /** Search position in a leaf for a forward run. */
  lemma LeafFrom(n: Node, s: seq<Entry>, curkey: int, i: nat)
    requires Ok(n) && Entries(n) == s && Sorted(s) && i <= |s|
    requires forall j :: 0 <= j < i ==> n.slots[j].key < curkey
    requires forall j :: i <= j < |s| ==> curkey <= n.slots[j].key
    ensures From(s, curkey) == s[i..]
  {
    assert s == s[..i] + s[i..];
    FromSkip(s[..i], s[i..], curkey);
    FromAll(s[i..], curkey);
  }

  lemma IndexFrom(t: Tree, idx: nat, sub: Tree, curkey: int)
    requires Turn(t, idx, sub, curkey)
    ensures From(Flat(t), curkey) == From(Flat(sub), curkey) + FlatAll(t.kids[idx + 1..])
  {
    hide From, FlatAll;
    Cut(t.kids, idx);
    var a, b := FlatAll(t.kids[..idx]), FlatAll(t.kids[idx + 1..]);
    assert a + Flat(sub) + b == a + (Flat(sub) + b);
    FromSkip(a, Flat(sub) + b, curkey);
    FromTail(Flat(sub), b, curkey);
  }

  lemma IndexAll(t: Tree)
    requires t.Index? && t.kids != []
    ensures Flat(t) == Flat(t.kids[0]) + FlatAll(t.kids[1..])
  {
  }

  /** Level d of subtree t is at position i, and `rest` is still ahead. */
  ghost predicate Placed(mode: Mode, buf: Blocks, t: Tree, d: nat, i: nat, rest: seq<Entry>,
                         idx: seq<Option<nat>>, node: seq<Option<Node>>, curkey: int)
  {
    && d < |idx| == |node|
    && idx[d] == Some(i)
    && (if d == 0 then t.Leaf? && i <= |t.kvs| && rest == t.kvs[i..]
        else
          && t.Index?
          && i < |t.kids|
          && In(mode, buf, t.kids[i], d - 1, idx, node)
          && rest == Rest(mode, t.kids[i], d - 1, idx, curkey) + FlatAll(t.kids[i + 1..]))
  }

  lemma PlacedFresh(buf: Blocks, t: Tree, d: nat, g: Geometry, root: bool, i: nat, idx: seq<Option<nat>>,
                    node: seq<Option<Node>>, curkey: int)
    requires g.kv > 0 && Good(buf, t, d + 1, g, root) && Sorted(Flat(t)) && Sep(t) && Ok(buf[t.bid])
             && i <= buf[t.bid].nentry
    requires d < |idx| == |node| && idx[d] == Some(i) && (d > 0 ==> Fresh(d - 1, idx, node))
    requires forall j :: 0 <= j < i ==> d == 0 ==> buf[t.bid].slots[j].key < curkey
    requires forall j :: i <= j < buf[t.bid].nentry ==> d == 0 ==> curkey <= buf[t.bid].slots[j].key
    requires d > 0 ==> i < buf[t.bid].nentry && (i > 0 ==> buf[t.bid].slots[i].key <= curkey)
    requires d > 0 && i + 1 < buf[t.bid].nentry ==> curkey < buf[t.bid].slots[i + 1].key
    ensures Placed(FreshMode, buf, t, d, i, From(Flat(t), curkey), idx, node, curkey)
  {
    hide From, FlatAll, Sorted;
    NodeSorted(buf, t, d + 1, g, root);
    if d == 0 {
      LeafFrom(buf[t.bid], t.kvs, curkey, i);
    } else {
      TurnAt(buf, t, d + 1, g, root, i, curkey);
      IndexFrom(t, i, t.kids[i], curkey);
    }
  }

  lemma PlacedReset(buf: Blocks, t: Tree, d: nat, g: Geometry, root: bool, idx: seq<Option<nat>>,
                    node: seq<Option<Node>>, curkey: int)
    requires g.kv > 0 && Good(buf, t, d + 1, g, root) && buf[t.bid].nentry > 0
    requires d < |idx| == |node| && idx[d] == Some(0) && (d > 0 ==> Reset(d - 1, idx, node))
    ensures Placed(ResetMode, buf, t, d, 0, Flat(t), idx, node, curkey)
  {
    hide FlatAll;
    if d > 0 { IndexAll(t); }
  }

  lemma FromNone(k: int)
    ensures From([], k) == []
  {
  }

  lemma LeafSize(buf: Blocks, t: Tree, d: nat, g: Geometry, root: bool)
    requires g.kv > 0 && Good(buf, t, d + 1, g, root)
    ensures Ok(buf[t.bid])
    ensures d == 0 ==> t.Leaf? && |t.kvs| == buf[t.bid].nentry && forall j :: 0 <= j < |t.kvs| ==>
              t.kvs[j] == buf[t.bid].slots[j]
    ensures d > 0 ==> t.Index? && |t.kids| == buf[t.bid].nentry
  {
    assert forall j :: 0 <= j < buf[t.bid].nentry ==> Entries(buf[t.bid])[j] == buf[t.bid].slots[j];
  }

  lemma KidFacts(buf: Blocks, t: Tree, d: nat, g: Geometry, root: bool, i: nat)
    requires g.kv > 0 && d > 0 && Good(buf, t, d + 1, g, root) && Sorted(Flat(t)) && Sep(t) && i < buf[t.bid].nentry
    ensures t.Index? && i < |t.kids| && Good(buf, t.kids[i], d, g, false) && Sorted(Flat(t.kids[i])) && Sep(t.kids[i])
    ensures Flat(t.kids[i]) != [] && buf[t.bid].slots[i].val == t.kids[i].bid
  {
    hide FlatAll, SepAll, BidsAll;
    SlotIs(t, buf[t.bid], i);
    GoodNonempty(buf, t.kids[i], d, g, false);
    Cut(t.kids, i);
    SortedParts(FlatAll(t.kids[..i]) + Flat(t.kids[i]), FlatAll(t.kids[i + 1..]));
    SortedParts(FlatAll(t.kids[..i]), Flat(t.kids[i]));
  }

  lemma NextKid(t: Tree, i: nat)
    requires t.Index? && i + 1 < |t.kids|
    ensures FlatAll(t.kids[i + 1..]) == Flat(t.kids[i + 1]) + FlatAll(t.kids[i + 2..])
  {
    assert t.kids[i + 1..][1..] == t.kids[i + 2..];
  }

  lemma ActiveUp(buf: Blocks, t: Tree, d: nat, i: nat, idx: seq<Option<nat>>, node: seq<Option<Node>>)
    requires 0 < d < |idx| == |node| && t.Index? && i < |t.kids| && t.bid in buf && node[d] == Some(buf[t.bid])
             && idx[d] == Some(i)
    requires Active(buf, t.kids[i], d - 1, idx, node)
    ensures Active(buf, t, d, idx, node) && Ahead(t, d, idx) == Ahead(t.kids[i], d - 1, idx) + FlatAll(t.kids[i + 1..])
  {
    hide FlatAll;
    var sub := t.kids[i];
    assert idx[d].value == i && Active(buf, sub, d - 1, idx, node);
  }

  lemma ActiveNode(buf: Blocks, t: Tree, d: nat, idx: seq<Option<nat>>, node: seq<Option<Node>>)
    requires Active(buf, t, d, idx, node)
    ensures node[d].Some?
  {
  }

  // ----- backward runs -----

  /** The entries with key at most k, in order. */
  ghost function UpTo(s: seq<Entry>, k: int): seq<Entry> {
    if s == [] then [] else if s[|s| - 1].key <= k then s else UpTo(s[..|s| - 1], k)
  }

  lemma {:induction false} UpToDrop(s: seq<Entry>, b: seq<Entry>, k: int)
    requires Above(b, k)
    ensures UpTo(s + b, k) == UpTo(s, k)
  {
    if b == [] {
      assert s + b == s;
    } else {
      assert (s + b)[..|s + b| - 1] == s + b[..|b| - 1];
      UpToDrop(s, b[..|b| - 1], k);
    }
  }

  lemma UpToAll(s: seq<Entry>, k: int)
    requires Below(s, k)
    ensures UpTo(s, k) == s
  {
  }

  lemma {:induction false} UpToHead(a: seq<Entry>, s: seq<Entry>, k: int)
    requires Below(a, k)
    ensures UpTo(a + s, k) == a + UpTo(s, k)
  {
    if s == [] {
      assert a + s == a;
      UpToAll(a, k);
    } else {
      assert (a + s)[..|a + s| - 1] == a + s[..|s| - 1];
      UpToHead(a, s[..|s| - 1], k);
    }
  }

  lemma {:induction false} UpToHas(s: seq<Entry>, k: int, e: Entry)
    requires Sorted(s)
    ensures e in UpTo(s, k) <==> e in s && e.key <= k
  {
    if s != [] && s[|s| - 1].key > k {
      UpToHas(s[..|s| - 1], k, e);
      assert s == s[..|s| - 1] + [s[|s| - 1]];
    }
  }

  lemma {:induction false} UpToPrefix(s: seq<Entry>, k: int)
    ensures UpTo(s, k) <= s
  {
    if s != [] && s[|s| - 1].key > k { UpToPrefix(s[..|s| - 1], k); }
  }

  /** What a backward run still has to return from subtree t, last entry first. */
  ghost function Behind(t: Tree, d: nat, idx: seq<Option<nat>>): seq<Entry>
    decreases t
  {
    if d >= |idx| || idx[d].None? then []
    else if t.Leaf? then (if idx[d].value < |t.kvs| then t.kvs[..idx[d].value + 1] else [])
    else if d == 0 || idx[d].value >= |t.kids| then []
    else FlatAll(t.kids[..idx[d].value]) + Behind(t.kids[idx[d].value], d - 1, idx)
  }

  ghost function Left(active: bool, t: Tree, d: nat, idx: seq<Option<nat>>, curkey: int): seq<Entry> {
    if active then Behind(t, d, idx) else UpTo(Flat(t), curkey)
  }

  ghost predicate InBack(active: bool, buf: Blocks, t: Tree, d: nat, idx: seq<Option<nat>>, node: seq<Option<Node>>,
                         curkey: int) {
    if active then Active(buf, t, d, idx, node) && Below(Behind(t, d, idx), curkey) else Fresh(d, idx, node)
  }

  lemma {:induction false} BehindPrefix(t: Tree, d: nat, idx: seq<Option<nat>>)
    ensures Behind(t, d, idx) <= Flat(t)
    decreases t
  {
    hide FlatAll;
    if d < |idx| && idx[d].Some? && t.Index? && d > 0 && idx[d].value < |t.kids| {
      BehindPrefix(t.kids[idx[d].value], d - 1, idx);
      Cut(t.kids, idx[d].value);
    }
  }

  lemma BehindUp(buf: Blocks, t: Tree, d: nat, i: nat, idx: seq<Option<nat>>, node: seq<Option<Node>>)
    requires 0 < d < |idx| == |node| && t.Index? && i < |t.kids| && t.bid in buf && node[d] == Some(buf[t.bid])
             && idx[d] == Some(i)
    requires Active(buf, t.kids[i], d - 1, idx, node)
    ensures Active(buf, t, d, idx, node) && Behind(t, d, idx) == FlatAll(t.kids[..i]) + Behind(t.kids[i], d - 1, idx)
  {
  }

  lemma BehindLeaf(buf: Blocks, t: Tree, idx: seq<Option<nat>>, node: seq<Option<Node>>, i: nat)
    requires 0 < |idx| == |node| && t.Leaf? && t.bid in buf && node[0] == Some(buf[t.bid]) && idx[0] == Some(i)
             && i <= |t.kvs|
    ensures Active(buf, t, 0, idx, node) && Behind(t, 0, idx) == if i < |t.kvs| then t.kvs[..i + 1] else []
  {
  }

  /** Level d of subtree t is at position i, and `rest` is still to come, backwards. */
  ghost predicate PlacedBack(active: bool, buf: Blocks, t: Tree, d: nat, i: nat, rest: seq<Entry>,
                             idx: seq<Option<nat>>, node: seq<Option<Node>>, curkey: int)
  {
    && d < |idx| == |node|
    && idx[d] == Some(i)
    && (if d == 0 then t.Leaf? && i <= |t.kvs| && rest == (if i < |t.kvs| then t.kvs[..i + 1] else [])
        else
          && t.Index?
          && i < |t.kids|
          && InBack(active, buf, t.kids[i], d - 1, idx, node, curkey)
          && rest == FlatAll(t.kids[..i]) + Left(active, t.kids[i], d - 1, idx, curkey)
          && Below(FlatAll(t.kids[..i]), curkey))
  }

  lemma PlacedActive(buf: Blocks, t: Tree, d: nat, idx: seq<Option<nat>>, node: seq<Option<Node>>, curkey: int)
    requires InBack(true, buf, t, d, idx, node, curkey)
    ensures PlacedBack(true, buf, t, d, idx[d].value, Behind(t, d, idx), idx, node, curkey)
  {
    hide FlatAll;
    if d > 0 {
      var i := idx[d].value;
      var a, b := FlatAll(t.kids[..i]), Behind(t.kids[i], d - 1, idx);
      assert forall j :: 0 <= j < |a| ==> a[j] == (a + b)[j];
      assert forall j :: 0 <= j < |b| ==> b[j] == (a + b)[|a| + j];
    }
  }

  lemma PlacedUpTo(buf: Blocks, t: Tree, d: nat, g: Geometry, root: bool, i: nat, idx: seq<Option<nat>>,
                   node: seq<Option<Node>>, curkey: int)
    requires g.kv > 0 && Good(buf, t, d + 1, g, root) && Sorted(Flat(t)) && Sep(t) && Ok(buf[t.bid])
             && i < buf[t.bid].nentry
    requires d < |idx| == |node| && idx[d] == Some(i) && (d > 0 ==> Fresh(d - 1, idx, node))
    requires i > 0 || d == 0 ==> buf[t.bid].slots[i].key <= curkey
    requires forall j :: i < j < buf[t.bid].nentry ==> curkey < buf[t.bid].slots[j].key
    ensures PlacedBack(false, buf, t, d, i, UpTo(Flat(t), curkey), idx, node, curkey)
  {
    hide UpTo, FlatAll, Sorted;
    NodeSorted(buf, t, d + 1, g, root);
    if d == 0 {
      LeafUpTo(buf[t.bid], t.kvs, curkey, i);
    } else {
      TurnAt(buf, t, d + 1, g, root, i, curkey);
      IndexUpTo(t, i, t.kids[i], curkey);
    }
  }

  lemma LeafUpTo(n: Node, s: seq<Entry>, curkey: int, i: nat)
    requires Ok(n) && Entries(n) == s && Sorted(s) && i < |s| && n.slots[i].key <= curkey
    requires forall j :: i < j < |s| ==> curkey < n.slots[j].key
    ensures UpTo(s, curkey) == s[..i + 1]
  {
    assert s[i] == n.slots[i];
    assert s == s[..i + 1] + s[i + 1..];
    UpToDrop(s[..i + 1], s[i + 1..], curkey);
  }

  lemma IndexUpTo(t: Tree, idx: nat, sub: Tree, curkey: int)
    requires Turn(t, idx, sub, curkey)
    ensures UpTo(Flat(t), curkey) == FlatAll(t.kids[..idx]) + UpTo(Flat(sub), curkey)
  {
    hide UpTo, FlatAll;
    Cut(t.kids, idx);
    var a, b := FlatAll(t.kids[..idx]), FlatAll(t.kids[idx + 1..]);
    UpToDrop(a + Flat(sub), b, curkey);
    UpToHead(a, Flat(sub), curkey);
  }

  lemma NoneUpTo(s: seq<Entry>, curkey: int)
    requires Above(s, curkey)
    ensures UpTo(s, curkey) == []
  {
    UpToDrop([], s, curkey);
    assert [] + s == s;
  }

  lemma PrefixBelow(s: seq<Entry>, p: seq<Entry>)
    requires Sorted(s) && p <= s && p != []
    ensures Below(p[..|p| - 1], p[|p| - 1].key)
  {
  }

  lemma PrevKid(t: Tree, j: nat, curkey: int)
    requires t.Index? && j < |t.kids| && Below(FlatAll(t.kids[..j + 1]), curkey)
    ensures FlatAll(t.kids[..j + 1]) == FlatAll(t.kids[..j]) + Flat(t.kids[j])
    ensures UpTo(Flat(t.kids[j]), curkey) == Flat(t.kids[j])
  {
    hide FlatAll, Flat, UpTo;
    assert t.kids[..j + 1] == t.kids[..j] + [t.kids[j]];
    FlatConcat(t.kids[..j], [t.kids[j]]);
    One(t.kids[j]);
    var a, b := FlatAll(t.kids[..j]), Flat(t.kids[j]);
    assert forall i :: 0 <= i < |b| ==> b[i] == (a + b)[|a| + i];
    UpToAll(b, curkey);
  }

  class Iterator {
    const g: Geometry
    const blk: BlockStore
    const height: nat
    var curkey: int
    var bid: seq<int>
    var idx: seq<Option<nat>>
    var node: seq<Option<Node>>

    /** `btree_iterator_init` */
    constructor (bt: BTree, key: int)
      requires bt.Valid()
      ensures g == bt.g && blk == bt.blk && height == bt.height && curkey == key
      ensures |bid| == |idx| == |node| == height && Fresh(height - 1, idx, node) && bid[height - 1] == bt.root
    {
      g, blk, height, curkey := bt.g, bt.blk, bt.height, key;
      bid := seq(bt.height, _ => 0)[bt.height - 1 := bt.root];
      idx := seq(bt.height, _ => None);
      node := seq(bt.height, _ => None);
    }

    ghost predicate Sized()
      reads this
    {
      |bid| == |idx| == |node| == height >= 1
    }

    /** Bring level d into memory and fix its position. */
    method Enter(d: nat, ghost t: Tree, ghost mode: Mode) returns (n: Node)
      requires g.kv > 0 && Sized() && d < height && Good(blk.buf, t, d + 1, g, d + 1 == height) && Sorted(Flat(t))
               && Sep(t)
      requires In(mode, blk.buf, t, d, idx, node) && (mode != ActiveMode ==> bid[d] == t.bid)
               && (mode != FreshMode ==> Flat(t) != [])
      modifies this`idx, this`node
      ensures Sized() && t.bid in blk.buf && n == blk.buf[t.bid]
      ensures forall e :: d < e < height ==> idx[e] == old(idx)[e] && node[e] == old(node)[e]
      ensures n.nentry == 0 ==> Flat(t) == [] && mode == FreshMode && Fresh(d, idx, node)
      ensures n.nentry > 0 ==> node[d] == Some(n) && idx[d].Some?
      ensures n.nentry > 0 ==>
                Placed(mode, blk.buf, t, d, idx[d].value, Rest(mode, t, d, old(idx), curkey), idx, node, curkey)
    {
      hide Flat, Sorted, Good, Sep, FlatAll, From, Turn, MinKey;
      NodeSorted(blk.buf, t, d + 1, g, d + 1 == height);
      FirstSlot(blk.buf, t, d + 1, g, d + 1 == height);
      if node[d].None? {
        node := node[d := Some(blk.buf[bid[d]])];
      }
      n := node[d].value;
      if n.nentry == 0 {
        node := node[d := None];
        return;
      }
      if idx[d].None? {
        var f := FindEntry(n, curkey);
        var i := if f.None? then 0 else f.value;
        if n.slots[i].key < curkey && d == 0 {
          i := i + 1;
        }
        idx := idx[d := Some(i)];
        PlacedFresh(blk.buf, t, d, g, d + 1 == height, i, idx, node, curkey);
      } else if mode == ResetMode {
        PlacedReset(blk.buf, t, d, g, d + 1 == height, idx, node, curkey);
      }
    }

    /** `_btree_next` at level d: the next entry of subtree t at or after the position
        the iterator is in. */
    method Step(d: nat, ghost t: Tree, ghost mode: Mode) returns (r: Option<Entry>)
      requires g.kv > 0 && Sized() && d < height && Good(blk.buf, t, d + 1, g, d + 1 == height) && Sorted(Flat(t))
               && Sep(t)
      requires In(mode, blk.buf, t, d, idx, node) && (mode != ActiveMode ==> bid[d] == t.bid)
               && (mode != FreshMode ==> Flat(t) != [])
      modifies this
      ensures Sized()
      ensures forall e :: d <= e < height ==> bid[e] == old(bid)[e]
      ensures forall e :: d < e < height ==> idx[e] == old(idx)[e] && node[e] == old(node)[e]
      ensures var rest := Rest(mode, t, d, old(idx), old(curkey));
              if rest == [] then r.None? && Fresh(d, idx, node) && curkey == old(curkey)
              else r == Some(rest[0]) && Active(blk.buf, t, d, idx, node) && Ahead(t, d, idx) == rest[1..]
                   && curkey == rest[0].key
      decreases d, 2
    {
      hide Flat, Sorted, Good, Sep, FlatAll, From, MinKey;
      ghost var rest := Rest(mode, t, d, idx, curkey);
      var n := Enter(d, t, mode);
      if n.nentry == 0 {
        FromNone(curkey);
        return None;
      }
      var i := idx[d].value;
      LeafSize(blk.buf, t, d, g, d + 1 == height);
      if i >= n.nentry {
        idx, node := idx[d := None], node[d := None];
        return None;
      }
      if d > 0 {
        r := StepChild(d, n, i, t, mode, rest);
      } else {
        r := Some(n.slots[i]);
        curkey := n.slots[i].key;
        idx := idx[d := Some(i + 1)];
      }
    }

    /** The index-level part of Step: ask child i, and if it has nothing left go on with
        the first entry of child i + 1. */
    method StepChild(d: nat, n: Node, i: nat, ghost t: Tree, ghost mode: Mode, ghost rest: seq<Entry>)
      returns (r: Option<Entry>)
      requires g.kv > 0 && Sized() && 0 < d < height && Good(blk.buf, t, d + 1, g, d + 1 == height) && Sorted(Flat(t))
               && Sep(t)
      requires t.bid in blk.buf && n == blk.buf[t.bid] && i < n.nentry && node[d] == Some(n)
      requires Placed(mode, blk.buf, t, d, i, rest, idx, node, curkey)
      modifies this
      ensures Sized()
      ensures forall e :: d <= e < height ==> bid[e] == old(bid)[e]
      ensures forall e :: d < e < height ==> idx[e] == old(idx)[e] && node[e] == old(node)[e]
      ensures if rest == [] then r.None? && Fresh(d, idx, node) && curkey == old(curkey)
              else r == Some(rest[0]) && Active(blk.buf, t, d, idx, node) && Ahead(t, d, idx) == rest[1..]
                   && curkey == rest[0].key
      decreases d, 1
    {
      hide Flat, Sorted, Good, Sep, FlatAll, From, MinKey, Active, Ahead;
      LeafSize(blk.buf, t, d, g, d + 1 == height);
      KidFacts(blk.buf, t, d, g, d + 1 == height, i);
      if mode == ActiveMode { ActiveNode(blk.buf, t.kids[i], d - 1, idx, node); }
      if node[d - 1].None? {
        bid := bid[d - 1 := n.slots[i].val];
      }
      r := Step(d - 1, t.kids[i], mode);
      if r.None? {
        r := NextChild(d, n, i, t);
      } else {
        ActiveUp(blk.buf, t, d, i, idx, node);
      }
    }

    /** Child i is exhausted: move the index to the right. */
    method NextChild(d: nat, n: Node, i: nat, ghost t: Tree) returns (r: Option<Entry>)
      requires g.kv > 0 && Sized() && 0 < d < height && Good(blk.buf, t, d + 1, g, d + 1 == height) && Sorted(Flat(t))
               && Sep(t)
      requires t.bid in blk.buf && n == blk.buf[t.bid] && i < n.nentry && node[d] == Some(n) && idx[d] == Some(i)
      requires Fresh(d - 1, idx, node) && t.Index? && i < |t.kids|
      modifies this
      ensures Sized()
      ensures forall e :: d <= e < height ==> bid[e] == old(bid)[e]
      ensures forall e :: d < e < height ==> idx[e] == old(idx)[e] && node[e] == old(node)[e]
      ensures var rest := FlatAll(t.kids[i + 1..]);
              if rest == [] then r.None? && Fresh(d, idx, node) && curkey == old(curkey)
              else r == Some(rest[0]) && Active(blk.buf, t, d, idx, node) && Ahead(t, d, idx) == rest[1..]
                   && curkey == rest[0].key
      decreases d, 0
    {
      hide Flat, Sorted, Good, Sep, FlatAll, From, MinKey, Active, Ahead;
      LeafSize(blk.buf, t, d, g, d + 1 == height);
      idx := idx[d := Some(i + 1)];
      if i + 1 >= n.nentry {
        idx, node := idx[d := None], node[d := None];
        NoTrees();
        assert t.kids[i + 1..] == [];
        return None;
      }
      KidFacts(blk.buf, t, d, g, d + 1 == height, i + 1);
      bid := bid[d - 1 := n.slots[i + 1].val];
      ResetBelow(d);
      NextKid(t, i);
      r := Step(d - 1, t.kids[i + 1], ResetMode);
      ActiveUp(blk.buf, t, d, i + 1, idx, node);
    }

    /** Put all levels below d at the start of their next node. */
    method ResetBelow(d: nat)
      requires Sized() && 0 < d < height
      modifies this`idx, this`node
      ensures Sized() && Reset(d - 1, idx, node)
      ensures forall e :: d <= e < height ==> idx[e] == old(idx)[e] && node[e] == old(node)[e]
    {
      var e := d;
      while e > 0
        invariant 0 <= e <= d && Sized()
        invariant forall j :: e <= j < d ==> idx[j] == Some(0) && node[j].None?
        invariant forall j :: d <= j < height ==> idx[j] == old(idx)[j] && node[j] == old(node)[j]
      {
        e := e - 1;
        idx, node := idx[e := Some(0)], node[e := None];
      }
    }

    /** Bring level d into memory and fix its position for a backward run. */
    method EnterBack(d: nat, ghost t: Tree, ghost active: bool) returns (n: Node)
      requires g.kv > 0 && Sized() && d < height && Good(blk.buf, t, d + 1, g, d + 1 == height) && Sorted(Flat(t))
               && Sep(t)
      requires InBack(active, blk.buf, t, d, idx, node, curkey) && (!active ==> bid[d] == t.bid)
               && (active ==> Flat(t) != [])
      modifies this`idx, this`node
      ensures Sized() && t.bid in blk.buf && n == blk.buf[t.bid]
      ensures forall e :: d < e < height ==> idx[e] == old(idx)[e] && node[e] == old(node)[e]
      ensures idx[d].None? ==>
                !active && Left(active, t, d, old(idx), curkey) == [] && (d > 0 ==> Fresh(d - 1, idx, node))
      ensures n.nentry == 0 ==> idx[d].None? && node[d].None?
      ensures idx[d].Some? ==> node[d] == Some(n)
      ensures idx[d].Some? ==>
                PlacedBack(active, blk.buf, t, d, idx[d].value, Left(active, t, d, old(idx), curkey), idx, node, curkey)
    {
      hide Flat, Sorted, Good, Sep, FlatAll, UpTo, Turn, MinKey, Behind;
      NodeSorted(blk.buf, t, d + 1, g, d + 1 == height);
      FirstSlot(blk.buf, t, d + 1, g, d + 1 == height);
      if active { PlacedActive(blk.buf, t, d, idx, node, curkey); }
      if node[d].None? {
        node := node[d := Some(blk.buf[bid[d]])];
      }
      n := node[d].value;
      if n.nentry == 0 {
        node := node[d := None];
        NoneUpTo(Flat(t), curkey);
        return;
      }
      if idx[d].None? {
        var f := FindEntry(n, curkey);
        var i := if f.None? then 0 else f.value;
        if curkey < n.slots[i].key && d == 0 {
          AllAbove(blk.buf, t, d + 1, g, d + 1 == height, curkey);
          NoneUpTo(Flat(t), curkey);
          idx := idx[d := if i > 0 then Some(i - 1) else None];
        } else {
          idx := idx[d := Some(i)];
          PlacedUpTo(blk.buf, t, d, g, d + 1 == height, i, idx, node, curkey);
        }
      }
    }

    /** `_btree_prev` at level d. */
    method StepBack(d: nat, ghost t: Tree, ghost active: bool) returns (r: Option<Entry>)
      requires g.kv > 0 && Sized() && d < height && Good(blk.buf, t, d + 1, g, d + 1 == height) && Sorted(Flat(t))
               && Sep(t)
      requires InBack(active, blk.buf, t, d, idx, node, curkey) && (!active ==> bid[d] == t.bid)
               && (active ==> Flat(t) != [])
      modifies this
      ensures Sized()
      ensures forall e :: d <= e < height ==> bid[e] == old(bid)[e]
      ensures forall e :: d < e < height ==> idx[e] == old(idx)[e] && node[e] == old(node)[e]
      ensures var rest := Left(active, t, d, old(idx), old(curkey));
              if rest == [] then r.None? && Fresh(d, idx, node) && curkey == old(curkey)
              else r == Some(rest[|rest| - 1]) && Active(blk.buf, t, d, idx, node)
                   && Behind(t, d, idx) == rest[..|rest| - 1] && curkey == rest[|rest| - 1].key
      decreases d, 2
    {
      hide Flat, Sorted, Good, Sep, FlatAll, UpTo, MinKey, Active, Behind;
      ghost var rest := Left(active, t, d, idx, curkey);
      var n := EnterBack(d, t, active);
      LeafSize(blk.buf, t, d, g, d + 1 == height);
      if n.nentry == 0 {
        return None;
      }
      if idx[d].None? || idx[d].value >= n.nentry {
        idx, node := idx[d := None], node[d := None];
        return None;
      }
      var i := idx[d].value;
      if d > 0 {
        r := StepBackChild(d, n, i, t, active, rest);
      } else {
        r := Some(n.slots[i]);
        curkey := n.slots[i].key;
        idx := idx[d := Some(if i > 0 then i - 1 else n.nentry)];
        BehindLeaf(blk.buf, t, idx, node, idx[d].value);
      }
    }

    /** The index-level part of StepBack. */
    method StepBackChild(d: nat, n: Node, i: nat, ghost t: Tree, ghost active: bool, ghost rest: seq<Entry>)
      returns (r: Option<Entry>)
      requires g.kv > 0 && Sized() && 0 < d < height && Good(blk.buf, t, d + 1, g, d + 1 == height) && Sorted(Flat(t))
               && Sep(t)
      requires t.bid in blk.buf && n == blk.buf[t.bid] && i < n.nentry && node[d] == Some(n)
      requires PlacedBack(active, blk.buf, t, d, i, rest, idx, node, curkey)
      modifies this
      ensures Sized()
      ensures forall e :: d <= e < height ==> bid[e] == old(bid)[e]
      ensures forall e :: d < e < height ==> idx[e] == old(idx)[e] && node[e] == old(node)[e]
      ensures if rest == [] then r.None? && Fresh(d, idx, node) && curkey == old(curkey)
              else r == Some(rest[|rest| - 1]) && Active(blk.buf, t, d, idx, node)
                   && Behind(t, d, idx) == rest[..|rest| - 1] && curkey == rest[|rest| - 1].key
      decreases d, 1
    {
      hide Flat, Sorted, Good, Sep, FlatAll, UpTo, MinKey, Active, Behind;
      LeafSize(blk.buf, t, d, g, d + 1 == height);
      KidFacts(blk.buf, t, d, g, d + 1 == height, i);
      if active { ActiveNode(blk.buf, t.kids[i], d - 1, idx, node); }
      if node[d - 1].None? {
        bid := bid[d - 1 := n.slots[i].val];
      }
      r := StepBack(d - 1, t.kids[i], active);
      if r.None? {
        r := PrevChild(d, n, i, t);
      } else {
        BehindUp(blk.buf, t, d, i, idx, node);
      }
    }

    /** Child i is exhausted: move the index to the left. */
    method PrevChild(d: nat, n: Node, i: nat, ghost t: Tree) returns (r: Option<Entry>)
      requires g.kv > 0 && Sized() && 0 < d < height && Good(blk.buf, t, d + 1, g, d + 1 == height) && Sorted(Flat(t))
               && Sep(t)
      requires t.bid in blk.buf && n == blk.buf[t.bid] && i < n.nentry && node[d] == Some(n) && idx[d] == Some(i)
      requires Fresh(d - 1, idx, node) && t.Index? && i < |t.kids| && Below(FlatAll(t.kids[..i]), curkey)
      modifies this
      ensures Sized()
      ensures forall e :: d <= e < height ==> bid[e] == old(bid)[e]
      ensures forall e :: d < e < height ==> idx[e] == old(idx)[e] && node[e] == old(node)[e]
      ensures var rest := FlatAll(t.kids[..i]);
              if rest == [] then r.None? && Fresh(d, idx, node) && curkey == old(curkey)
              else r == Some(rest[|rest| - 1]) && Active(blk.buf, t, d, idx, node)
                   && Behind(t, d, idx) == rest[..|rest| - 1] && curkey == rest[|rest| - 1].key
      decreases d, 0
    {
      hide Flat, Sorted, Good, Sep, FlatAll, UpTo, MinKey, Active, Behind;
      LeafSize(blk.buf, t, d, g, d + 1 == height);
      var j := if i > 0 then i - 1 else n.nentry;
      idx := idx[d := Some(j)];
      if j >= n.nentry {
        idx, node := idx[d := None], node[d := None];
        NoTrees();
        assert t.kids[..i] == [];
        return None;
      }
      KidFacts(blk.buf, t, d, g, d + 1 == height, j);
      PrevKid(t, j, curkey);
      bid := bid[d - 1 := n.slots[j].val];
      ClearBelow(d);
      r := StepBack(d - 1, t.kids[j], false);
      BehindUp(blk.buf, t, d, j, idx, node);
    }

    /** Forget all levels below d. */
    method ClearBelow(d: nat)
      requires Sized() && 0 < d < height
      modifies this`idx, this`node
      ensures Sized() && Fresh(d - 1, idx, node)
      ensures forall e :: d <= e < height ==> idx[e] == old(idx)[e] && node[e] == old(node)[e]
    {
      var e := d;
      while e > 0
        invariant 0 <= e <= d && Sized()
        invariant forall j :: e <= j < d ==> idx[j].None? && node[j].None?
        invariant forall j :: d <= j < height ==> idx[j] == old(idx)[j] && node[j] == old(node)[j]
      {
        e := e - 1;
        idx, node := idx[e := None], node[e := None];
      }
    }

    /** The iterator is at the start, or in a forward run over tree t. */
    ghost predicate Running(t: Tree)
      reads this, blk
    {
      && g.kv > 0
      && Sized()
      && Good(blk.buf, t, height, g, true) && Sorted(Flat(t)) && Sep(t)
      && bid[height - 1] == t.bid
      && (Fresh(height - 1, idx, node) || (Active(blk.buf, t, height - 1, idx, node) && Flat(t) != []))
    }

    ghost function Remaining(t: Tree): seq<Entry>
      requires Sized()
      reads this
    {
      if Fresh(height - 1, idx, node) then From(Flat(t), curkey) else Ahead(t, height - 1, idx)
    }

    /** `btree_next` in a forward run. */
    method Next(ghost t: Tree) returns (r: Option<Entry>)
      requires Running(t)
      modifies this
      ensures Running(t)
      ensures old(Remaining(t)) == [] ==> r.None? && Fresh(height - 1, idx, node)
      ensures old(Remaining(t)) != [] ==>
                r == Some(old(Remaining(t))[0]) && Remaining(t) == old(Remaining(t))[1..]
                && !Fresh(height - 1, idx, node)
    {
      hide Flat, Sorted, Good, Sep, FlatAll, From, Ahead;
      ghost var mode := if Fresh(height - 1, idx, node) then FreshMode else ActiveMode;
      if mode == FreshMode { FromNone(curkey); }
      r := Step(height - 1, t, mode);
    }

    /** The iterator is at the start, or in a backward run over tree t. */
    ghost predicate RunningBack(t: Tree)
      reads this, blk
    {
      && g.kv > 0
      && Sized()
      && Good(blk.buf, t, height, g, true) && Sorted(Flat(t)) && Sep(t)
      && bid[height - 1] == t.bid
      && (!Fresh(height - 1, idx, node) ==> Flat(t) != [])
      && InBack(!Fresh(height - 1, idx, node), blk.buf, t, height - 1, idx, node, curkey)
    }

    ghost function RemainingBack(t: Tree): seq<Entry>
      requires Sized()
      reads this
    {
      Left(!Fresh(height - 1, idx, node), t, height - 1, idx, curkey)
    }

    /** `btree_prev` in a backward run. */
    method Prev(ghost t: Tree) returns (r: Option<Entry>)
      requires RunningBack(t)
      modifies this
      ensures RunningBack(t)
      ensures var rest := old(RemainingBack(t));
              if rest == [] then r.None? && Fresh(height - 1, idx, node)
              else r == Some(rest[|rest| - 1]) && RemainingBack(t) == rest[..|rest| - 1]
                   && !Fresh(height - 1, idx, node)
    {
      hide Flat, Sorted, Good, Sep, FlatAll, UpTo, Behind;
      ghost var active, rest := !Fresh(height - 1, idx, node), RemainingBack(t);
      if active { BehindPrefix(t, height - 1, idx); } else { UpToPrefix(Flat(t), curkey); }
      r := StepBack(height - 1, t, active);
      if rest != [] { PrefixBelow(Flat(t), rest); }
    }
  }

  /** Iterating backwards from a key until the first failure returns exactly the entries
      with a key at or below it, each once and in descending order. */
  method ScanBack(bt: BTree, key: int) returns (out: seq<Entry>)
    requires bt.Valid()
    ensures forall i, j :: 0 <= i < j < |out| ==> out[i].key > out[j].key
    ensures forall e :: e in out <==> e in Flat(bt.tree) && e.key <= key
  {
    hide Flat, Good, Sep, Bids, UpTo, Behind;
    var it := new Iterator(bt, key);
    ghost var t := bt.tree;
    var r := it.Prev(t);
    out := [];
    ghost var all := UpTo(Flat(t), key);
    while r.Some?
      invariant fresh(it) && it.RunningBack(t)
      invariant r.Some? ==> it.RemainingBack(t) + [r.value] + Reverse(out) == all
      invariant r.None? ==> Reverse(out) == all
      decreases if r.Some? then 1 + |it.RemainingBack(t)| else 0
    {
      ReversePush(out, r.value);
      out := out + [r.value];
      r := it.Prev(t);
    }
    UpToPrefix(Flat(t), key);
    ReverseOrder(out);
    forall e ensures e in out <==> e in Flat(t) && e.key <= key { UpToHas(Flat(t), key, e); ReverseHas(out, e); }
  }

  ghost function Reverse(s: seq<Entry>): (r: seq<Entry>)
    ensures |r| == |s| && forall i :: 0 <= i < |s| ==> r[i] == s[|s| - 1 - i]
  {
    seq(|s|, i requires 0 <= i < |s| => s[|s| - 1 - i])
  }

  lemma ReversePush(s: seq<Entry>, e: Entry)
    ensures Reverse(s + [e]) == [e] + Reverse(s)
  {
  }

  lemma ReverseHas(s: seq<Entry>, e: Entry)
    ensures e in s <==> e in Reverse(s)
  {
    if i :| 0 <= i < |s| && s[i] == e { assert Reverse(s)[|s| - 1 - i] == e; }
  }

  lemma ReverseOrder(s: seq<Entry>)
    requires Sorted(Reverse(s))
    ensures forall i, j :: 0 <= i < j < |s| ==> s[i].key > s[j].key
  {
    forall i, j | 0 <= i < j < |s| ensures s[i].key > s[j].key {
      assert Reverse(s)[|s| - 1 - i] == s[i] && Reverse(s)[|s| - 1 - j] == s[j];
    }
  }

  /** Iterating from a key until the first failure returns exactly the entries with a
      key at or above it, each once and in ascending order. */
  method Scan(bt: BTree, key: int) returns (out: seq<Entry>)
    requires bt.Valid()
    ensures Sorted(out) && forall e :: e in out <==> e in Flat(bt.tree) && e.key >= key
  {
    hide Flat, Good, Sep, Bids, From;
    var it := new Iterator(bt, key);
    ghost var t := bt.tree;
    var r := it.Next(t);
    out := [];
    ghost var all := From(Flat(t), key);
    while r.Some?
      invariant fresh(it) && it.Running(t)
      invariant r.Some? ==> out + [r.value] + it.Remaining(t) == all
      invariant r.None? ==> out == all
      decreases if r.Some? then 1 + |it.Remaining(t)| else 0
    {
      out := out + [r.value];
      r := it.Next(t);
    }
    FromSorted(Flat(t), key);
    forall e ensures e in out <==> e in Flat(t) && e.key >= key { FromHas(Flat(t), key, e); }
  }
}
