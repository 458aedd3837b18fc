/** The tree a set of B+tree blocks stands for.

    `Tree` is the logical shape of a (sub)tree together with the block id of every
    node.  `Good` says that the blocks really hold that tree: levels descend by one
    to the leaves, every index entry carries its child's first key and block id, and
    every node fits its block.  `Flat` lists the leaf entries from left to right. */
module BTreeTree {
  import opened BTreeNode

  type Blocks = map<int, Node>

  datatype Tree = Leaf(bid: int, kvs: seq<Entry>) | Index(bid: int, kids: seq<Tree>)

  ghost function Flat(t: Tree): seq<Entry>
    decreases t, 1
  {
    match t
    case Leaf(_, kvs) => kvs
    case Index(_, kids) => FlatAll(kids)
  }

  ghost function FlatAll(ts: seq<Tree>): seq<Entry>
    decreases ts, 0
  {
    if ts == [] then [] else Flat(ts[0]) + FlatAll(ts[1..])
  }

  /** Block ids used by a tree. */
  ghost function Bids(t: Tree): set<int>
    decreases t, 1
  {
    match t
    case Leaf(b, _) => {b}
    case Index(b, kids) => {b} + BidsAll(kids)
  }

  ghost function BidsAll(ts: seq<Tree>): set<int>
    decreases ts, 0
  {
    if ts == [] then {} else Bids(ts[0]) + BidsAll(ts[1..])
  }

  /** No block is used twice. */
  ghost predicate Sep(t: Tree)
    decreases t, 1
  {
    t.Index? ==> t.bid !in BidsAll(t.kids) && SepAll(t.kids)
  }

  ghost predicate SepAll(ts: seq<Tree>)
    decreases ts, 0
  {
    ts == [] || (Sep(ts[0]) && SepAll(ts[1..]) && Bids(ts[0]) !! BidsAll(ts[1..]))
  }

  ghost function MinKey(t: Tree): int {
    if Flat(t) == [] then 0 else Flat(t)[0].key
  }

  /** The index entries that point to the given children. */
  ghost function EntriesOf(ts: seq<Tree>): (es: seq<Entry>)
    ensures |es| == |ts|
    ensures forall i :: 0 <= i < |ts| ==> es[i] == Entry(MinKey(ts[i]), ts[i].bid)
  {
    seq(|ts|, i requires 0 <= i < |ts| => Entry(MinKey(ts[i]), ts[i].bid))
  }

  ghost function NodeEntries(t: Tree): seq<Entry> {
    match t
    case Leaf(_, kvs) => kvs
    case Index(_, kids) => EntriesOf(kids)
  }

  /** The block of t holds exactly the node described by t. */
  ghost predicate Holds(buf: Blocks, t: Tree, lvl: nat, g: Geometry, root: bool)
    requires g.kv > 0
  {
    && t.bid in buf
    && var n := buf[t.bid];
    && n.level == lvl
    && n.root == root
    && |n.slots| == g.Cap(root)
    && Ok(n)
    && Entries(n) == NodeEntries(t)
    && (root || n.nentry >= 1)
  }

  ghost predicate Good(buf: Blocks, t: Tree, lvl: nat, g: Geometry, root: bool)
    requires g.kv > 0
    decreases t
  {
    && Holds(buf, t, lvl, g, root)
    && (t.Leaf? <==> lvl == 1)
    && (t.Index? ==> lvl > 1 && forall i :: 0 <= i < |t.kids| ==> Good(buf, t.kids[i], lvl - 1, g, false))
  }

  ghost predicate GoodAll(buf: Blocks, ts: seq<Tree>, lvl: nat, g: Geometry)
    requires g.kv > 0
  {
    forall i :: 0 <= i < |ts| ==> Good(buf, ts[i], lvl, g, false)
  }

  // ----- lists of subtrees -----

  lemma {:induction false} FlatConcat(a: seq<Tree>, b: seq<Tree>)
    ensures FlatAll(a + b) == FlatAll(a) + FlatAll(b)
  {
    if a == [] {
      assert a + b == b;
    } else {
      assert (a + b)[1..] == a[1..] + b;
      FlatConcat(a[1..], b);
    }
  }

  lemma {:induction false} BidsConcat(a: seq<Tree>, b: seq<Tree>)
    ensures BidsAll(a + b) == BidsAll(a) + BidsAll(b)
  {
    if a == [] {
      assert a + b == b;
    } else {
      assert (a + b)[1..] == a[1..] + b;
      BidsConcat(a[1..], b);
    }
  }

  lemma {:induction false} SepConcat(a: seq<Tree>, b: seq<Tree>)
    ensures SepAll(a + b) <==> SepAll(a) && SepAll(b) && BidsAll(a) !! BidsAll(b)
  {
    if a == [] {
      assert a + b == b;
    } else {
      assert (a + b)[1..] == a[1..] + b;
      SepConcat(a[1..], b);
      BidsConcat(a[1..], b);
    }
  }

  lemma NoTrees()
    ensures FlatAll([]) == [] && BidsAll([]) == {} && SepAll([])
  {
  }

  lemma One(t: Tree)
    ensures FlatAll([t]) == Flat(t)
    ensures BidsAll([t]) == Bids(t)
    ensures SepAll([t]) <==> Sep(t)
  {
    assert [t][1..] == [];
  }

  lemma FlatOfKids(t: Tree)
    ensures t.Leaf? ==> Flat(t) == t.kvs
    ensures t.Index? ==> Flat(t) == FlatAll(t.kids) && (t.kids == [] ==> Flat(t) == [])
  {
  }

  /** A child list cut at position i. */
  lemma Cut(ts: seq<Tree>, i: nat)
    requires i < |ts|
    ensures FlatAll(ts) == FlatAll(ts[..i]) + Flat(ts[i]) + FlatAll(ts[i + 1..])
    ensures BidsAll(ts) == BidsAll(ts[..i]) + Bids(ts[i]) + BidsAll(ts[i + 1..])
    ensures SepAll(ts) <==>
      (SepAll(ts[..i]) && Sep(ts[i]) && SepAll(ts[i + 1..]) &&
       BidsAll(ts[..i]) !! Bids(ts[i]) && BidsAll(ts[..i]) !! BidsAll(ts[i + 1..])
           && Bids(ts[i]) !! BidsAll(ts[i + 1..]))
  {
    hide FlatAll, BidsAll, SepAll, Flat, Bids, Sep;
    Splice(ts, i, [ts[i]]);
    One(ts[i]);
    assert ts[..i] + [ts[i]] + ts[i + 1..] == ts;
  }

  /** A child list whose i-th child is replaced by a list of subtrees. */
  lemma Splice(ts: seq<Tree>, i: nat, mid: seq<Tree>)
    requires i < |ts|
    ensures var us := ts[..i] + mid + ts[i + 1..];
      && FlatAll(us) == FlatAll(ts[..i]) + FlatAll(mid) + FlatAll(ts[i + 1..])
      && BidsAll(us) == BidsAll(ts[..i]) + BidsAll(mid) + BidsAll(ts[i + 1..])
      && (SepAll(us) <==>
          (SepAll(ts[..i]) && SepAll(mid) && SepAll(ts[i + 1..]) &&
           BidsAll(ts[..i]) !! BidsAll(mid) && BidsAll(ts[..i]) !! BidsAll(ts[i + 1..])
               && BidsAll(mid) !! BidsAll(ts[i + 1..])))
  {
    FlatConcat(ts[..i], mid);
    FlatConcat(ts[..i] + mid, ts[i + 1..]);
    BidsConcat(ts[..i], mid);
    BidsConcat(ts[..i] + mid, ts[i + 1..]);
    SepConcat(ts[..i], mid);
    SepConcat(ts[..i] + mid, ts[i + 1..]);
  }

  lemma {:induction false} BidsMember(ts: seq<Tree>, i: nat)
    requires i < |ts|
    ensures Bids(ts[i]) <= BidsAll(ts)
  {
    Cut(ts, i);
  }

  // ----- blocks and trees -----

  lemma {:induction false} GoodBids(buf: Blocks, t: Tree, lvl: nat, g: Geometry, root: bool)
    requires g.kv > 0 && Good(buf, t, lvl, g, root)
    ensures Bids(t) <= buf.Keys
    decreases t, 1
  {
    if t.Index? { GoodBidsAll(buf, t.kids, lvl - 1, g); }
  }

  lemma {:induction false} GoodBidsAll(buf: Blocks, ts: seq<Tree>, lvl: nat, g: Geometry)
    requires g.kv > 0 && GoodAll(buf, ts, lvl, g)
    ensures BidsAll(ts) <= buf.Keys
    decreases ts, 0
  {
    if ts != [] {
      GoodBids(buf, ts[0], lvl, g, false);
      GoodBidsAll(buf, ts[1..], lvl, g);
    }
  }

  /** A non-root subtree holds at least one entry. */
  lemma {:induction false} GoodNonempty(buf: Blocks, t: Tree, lvl: nat, g: Geometry, root: bool)
    requires g.kv > 0 && Good(buf, t, lvl, g, root)
    ensures Flat(t) == [] <==> NodeEntries(t) == []
    ensures !root ==> Flat(t) != []
    decreases t
  {
    if t.Index? && t.kids != [] {
      GoodNonempty(buf, t.kids[0], lvl - 1, g, false);
    }
  }

  /** Whether blocks hold a tree depends only on the tree's own blocks. */
  lemma {:induction false} GoodFrame(buf: Blocks, buf': Blocks, t: Tree, lvl: nat, g: Geometry, root: bool)
    requires g.kv > 0 && Good(buf, t, lvl, g, root)
    requires forall b :: b in Bids(t) ==> b in buf && b in buf' && buf'[b] == buf[b]
    ensures Good(buf', t, lvl, g, root)
    decreases t
  {
    if t.Index? {
      forall i | 0 <= i < |t.kids| ensures Good(buf', t.kids[i], lvl - 1, g, false) {
        BidsMember(t.kids, i);
        GoodFrame(buf, buf', t.kids[i], lvl - 1, g, false);
      }
    }
  }

  lemma GoodFrameAll(buf: Blocks, buf': Blocks, ts: seq<Tree>, lvl: nat, g: Geometry)
    requires g.kv > 0 && GoodAll(buf, ts, lvl, g)
    requires forall b :: b in BidsAll(ts) ==> b in buf && b in buf' && buf'[b] == buf[b]
    ensures GoodAll(buf', ts, lvl, g)
  {
    forall i | 0 <= i < |ts| ensures Good(buf', ts[i], lvl, g, false) {
      BidsMember(ts, i);
      GoodFrame(buf, buf', ts[i], lvl, g, false);
    }
  }

  // ----- order -----

  ghost predicate Nonempty(ts: seq<Tree>) {
    forall i :: 0 <= i < |ts| ==> Flat(ts[i]) != []
  }

  lemma SortedParts(a: seq<Entry>, b: seq<Entry>)
    requires Sorted(a + b)
    ensures Sorted(a) && Sorted(b)
    ensures b != [] ==> Below(a, b[0].key)
  {
    assert forall i :: 0 <= i < |a| ==> a[i] == (a + b)[i];
    assert forall i :: 0 <= i < |b| ==> b[i] == (a + b)[|a| + i];
  }

  lemma FirstOf(ts: seq<Tree>)
    requires ts != [] && Flat(ts[0]) != []
    ensures FlatAll(ts) != [] && FlatAll(ts)[0].key == MinKey(ts[0])
  {
  }

  /** Child keys rise from left to right. */
  lemma KidsSorted(ts: seq<Tree>)
    requires Sorted(FlatAll(ts)) && Nonempty(ts)
    ensures Sorted(EntriesOf(ts))
  {
    forall i, j | 0 <= i < j < |ts| ensures MinKey(ts[i]) < MinKey(ts[j]) {
      KidsOrdered(ts, i, j);
    }
  }

  lemma KidsOrdered(ts: seq<Tree>, i: nat, j: nat)
    requires Sorted(FlatAll(ts)) && Nonempty(ts) && i < j < |ts|
    ensures MinKey(ts[i]) < MinKey(ts[j])
  {
    hide FlatAll, Flat, Sorted;
    var a, b := ts[..j], ts[j..];
    assert a + b == ts;
    FlatConcat(a, b);
    SortedParts(FlatAll(a), FlatAll(b));
    FirstOf(b);
    Cut(a, i);
    var k := |FlatAll(a[..i])|;
    assert FlatAll(a)[k] == Flat(ts[i])[0];
  }

  /** Where a key belongs among the children, given the slot a node search picked. */
  lemma Locate(ts: seq<Tree>, idx: nat, key: int)
    requires Sorted(FlatAll(ts)) && Nonempty(ts) && idx < |ts|
    requires idx > 0 ==> MinKey(ts[idx]) <= key
    requires idx + 1 < |ts| ==> key < MinKey(ts[idx + 1])
    ensures Below(FlatAll(ts[..idx]), key) && Above(FlatAll(ts[idx + 1..]), key)
    ensures Sorted(Flat(ts[idx]))
  {
    hide FlatAll, Flat, Sorted, MinKey;
    NoTrees();
    LocateBelow(ts, idx, key);
    var a, b := ts[..idx + 1], ts[idx + 1..];
    assert a + b == ts;
    FlatConcat(a, b);
    SortedParts(FlatAll(a), FlatAll(b));
    if b != [] { FirstOf(b); }
    Cut(ts, idx);
    SortedParts(FlatAll(ts[..idx]) + Flat(ts[idx]), FlatAll(ts[idx + 1..]));
    SortedParts(FlatAll(ts[..idx]), Flat(ts[idx]));
  }

  lemma LocateBelow(ts: seq<Tree>, idx: nat, key: int)
    requires Sorted(FlatAll(ts)) && Nonempty(ts) && idx < |ts|
    requires idx > 0 ==> MinKey(ts[idx]) <= key
    ensures Below(FlatAll(ts[..idx]), key)
  {
    hide FlatAll, Flat, Sorted, MinKey;
    NoTrees();
    if idx == 0 {
      assert ts[..0] == [];
    } else {
      var a, b := ts[..idx], ts[idx..];
      assert a + b == ts;
      FlatConcat(a, b);
      SortedParts(FlatAll(a), FlatAll(b));
      FirstOf(b);
    }
  }

  /** A key's neighbours in a child are its neighbours in the whole list. */
  lemma AroundUp(ts: seq<Tree>, idx: nat, key: int, l: seq<Entry>, m: seq<Entry>, r: seq<Entry>)
    requires idx < |ts| && Around(Flat(ts[idx]), key, l, m, r)
    requires Below(FlatAll(ts[..idx]), key) && Above(FlatAll(ts[idx + 1..]), key)
    ensures Around(FlatAll(ts), key, FlatAll(ts[..idx]) + l, m, r + FlatAll(ts[idx + 1..]))
  {
    hide FlatAll, Flat;
    Cut(ts, idx);
    AroundWiden(Flat(ts[idx]), key, l, m, r, FlatAll(ts[..idx]), FlatAll(ts[idx + 1..]));
  }

  lemma AroundSorted(s: seq<Entry>, e: Entry, l: seq<Entry>, m: seq<Entry>, r: seq<Entry>)
    requires Sorted(s) && Around(s, e.key, l, m, r)
    ensures Sorted(l + [e] + r) && Sorted(l + r)
  {
    SortedEnds(l, m, r);
    SortedJoin(l, [e]);
    forall i, j | 0 <= i < |l + [e]| && 0 <= j < |r| ensures (l + [e])[i].key < r[j].key {}
    SortedJoin(l + [e], r);
    SortedJoin(l, r);
  }

  lemma SortedEnds(l: seq<Entry>, m: seq<Entry>, r: seq<Entry>)
    requires Sorted(l + m + r)
    ensures Sorted(l) && Sorted(r) && forall i, j :: 0 <= i < |l| && 0 <= j < |r| ==> l[i].key < r[j].key
  {
    var s := l + m + r;
    forall i | 0 <= i < |l| ensures s[i] == l[i] {}
    forall i | 0 <= i < |r| ensures s[|l| + |m| + i] == r[i] {}
  }

  lemma SortedJoin(a: seq<Entry>, b: seq<Entry>)
    requires Sorted(a) && Sorted(b) && forall i, j :: 0 <= i < |a| && 0 <= j < |b| ==> a[i].key < b[j].key
    ensures Sorted(a + b)
  {
  }

  // ----- the map a sorted entry list stands for -----

  ghost function ToMap(s: seq<Entry>): map<int, int> {
    if s == [] then map[] else ToMap(s[..|s| - 1])[s[|s| - 1].key := s[|s| - 1].val]
  }

  lemma {:induction false} ToMapKeys(s: seq<Entry>, k: int)
    ensures k in ToMap(s) <==> exists i :: 0 <= i < |s| && s[i].key == k
  {
    if s != [] {
      var s' := s[..|s| - 1];
      ToMapKeys(s', k);
      if k in ToMap(s) && k != s[|s| - 1].key {
        var i :| 0 <= i < |s'| && s'[i].key == k;
        assert s[i].key == k;
      }
      if i :| 0 <= i < |s| && s[i].key == k {
        if i < |s'| { assert s'[i].key == k; }
      }
    }
  }

  lemma {:induction false} ToMapAt(s: seq<Entry>, i: nat)
    requires Sorted(s) && i < |s|
    ensures s[i].key in ToMap(s) && ToMap(s)[s[i].key] == s[i].val
  {
    var s' := s[..|s| - 1];
    if i < |s'| {
      assert s'[i] == s[i];
      ToMapAt(s', i);
    }
  }

  lemma ToMapPush(s: seq<Entry>, x: Entry)
    ensures ToMap(s + [x]) == ToMap(s)[x.key := x.val]
  {
    assert (s + [x])[..|s|] == s;
  }

  /** Replacing, adding or dropping the entry of one key is a map update. */
  lemma {:induction false} ToMapPut(s: seq<Entry>, e: Entry, l: seq<Entry>, m: seq<Entry>, r: seq<Entry>)
    requires Around(s, e.key, l, m, r)
    ensures ToMap(l + [e] + r) == ToMap(s)[e.key := e.val]
    ensures ToMap(l + r) == ToMap(s) - {e.key}
    decreases |r|
  {
    hide ToMap;
    if r == [] {
      assert l + [e] + r == l + [e] && l + r == l && s == l + m;
      ToMapPush(l, e);
      ToMapKeys(l, e.key);
      if m != [] {
        ToMapPush(l, m[0]);
        assert s == l + [m[0]];
      } else {
        assert s == l;
      }
    } else {
      var r', x := r[..|r| - 1], r[|r| - 1];
      var s' := l + m + r';
      assert s == s' + [x] && l + [e] + r == (l + [e] + r') + [x] && l + r == (l + r') + [x];
      ToMapPush(s', x);
      ToMapPush(l + [e] + r', x);
      ToMapPush(l + r', x);
      ToMapPut(s', e, l, m, r');
    }
  }

  lemma {:induction false} ToMapSize(s: seq<Entry>)
    requires Sorted(s)
    ensures |ToMap(s)| == |s|
  {
    if s != [] {
      var s' := s[..|s| - 1];
      ToMapSize(s');
      ToMapKeys(s', s[|s| - 1].key);
      assert ToMap(s).Keys == ToMap(s').Keys + {s[|s| - 1].key};
    }
  }
}
