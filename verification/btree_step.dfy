/** Replacing one child of a node, level by level, from the leaf towards the root.
    Both `btree_insert` and `btree_remove` work this way. */
module BTreeStep {
  import opened Options
  import opened BTreeNode
  import opened BTreeTree

  ghost function Kids(t: Tree): seq<Tree> {
    if t.Index? then t.kids else []
  }

  /** The part of a node between two positions, stored in block bid. */
  ghost function Slice(t: Tree, bid: int, a: nat, b: nat): Tree
    requires a <= b <= |NodeEntries(t)|
  {
    match t
    case Leaf(_, kvs) => Leaf(bid, kvs[a..b])
    case Index(_, kids) => Index(bid, kids[a..b])
  }

  lemma SliceAll(t: Tree, bid: int)
    ensures var p := Slice(t, bid, 0, |NodeEntries(t)|);
            Flat(p) == Flat(t) && NodeEntries(p) == NodeEntries(t) && Kids(p) == Kids(t) && p.bid == bid
            && (p.Leaf? <==> t.Leaf?)
  {
    var p := Slice(t, bid, 0, |NodeEntries(t)|);
    if t.Index? { assert p.kids == t.kids; } else { assert p.kvs == t.kvs; }
  }

  lemma SliceTwo(t: Tree, b0: int, b1: int, c: nat)
    requires c <= |NodeEntries(t)|
    ensures var p0, p1 := Slice(t, b0, 0, c), Slice(t, b1, c, |NodeEntries(t)|);
            && Flat(p0) + Flat(p1) == Flat(t)
            && NodeEntries(p0) == NodeEntries(t)[..c] && NodeEntries(p1) == NodeEntries(t)[c..]
            && Kids(p0) + Kids(p1) == Kids(t)
  {
    SliceFlat(t, b0, b1, c);
    hide Flat, FlatAll, EntriesOf, MinKey;
    if t.Index? {
      assert t.kids[0..c] == t.kids[..c] && t.kids[c..|t.kids|] == t.kids[c..];
      EntriesSlice(t.kids, 0, c);
      EntriesSlice(t.kids, c, |t.kids|);
    }
  }

  lemma SliceFlat(t: Tree, b0: int, b1: int, c: nat)
    requires c <= |NodeEntries(t)|
    ensures Flat(Slice(t, b0, 0, c)) + Flat(Slice(t, b1, c, |NodeEntries(t)|)) == Flat(t)
  {
    hide Flat, FlatAll, EntriesOf, MinKey;
    var p0, p1 := Slice(t, b0, 0, c), Slice(t, b1, c, |NodeEntries(t)|);
    FlatOfKids(t);
    FlatOfKids(p0);
    FlatOfKids(p1);
    if t.Index? {
      assert t.kids[..c] + t.kids[c..] == t.kids;
      FlatConcat(t.kids[..c], t.kids[c..]);
      assert t.kids[0..c] == t.kids[..c] && t.kids[c..|t.kids|] == t.kids[c..];
    } else {
      assert t.kvs[..c] + t.kvs[c..] == t.kvs;
    }
  }

  lemma EntriesSlice(ts: seq<Tree>, a: nat, b: nat)
    requires a <= b <= |ts|
    ensures EntriesOf(ts[a..b]) == EntriesOf(ts)[a..b]
  {
    hide MinKey;
  }

  /** Block changes since buf0 stay inside `own` and fresh blocks. */
  ghost predicate Within(buf0: Blocks, buf: Blocks, own: set<int>) {
    && buf0.Keys <= buf.Keys
    && forall b :: b in buf0 && b !in own ==> buf[b] == buf0[b]
  }

  /** The blocks in `used` come from `own` or are fresh, and any of them that is not
      going to be written back still has its old contents. */
  ghost predicate Accounted(buf0: Blocks, buf: Blocks, dirty: set<int>, used: set<int>, own: set<int>) {
    && (forall b :: b in used ==> b in own || b !in buf0)
    && (forall b :: b in used && b !in dirty ==> b in buf0 && b in buf && buf[b] == buf0[b])
  }

  /** Subtree `sub` has been replaced by the subtrees `news`. */
  ghost predicate Replaced(buf0: Blocks, buf: Blocks, dirty: set<int>, sub: Tree, news: seq<Tree>, lvl: nat,
                           g: Geometry)
    requires g.kv > 0
  {
    && GoodAll(buf, news, lvl, g)
    && SepAll(news)
    && Accounted(buf0, buf, dirty, BidsAll(news), Bids(sub))
    && Within(buf0, buf, Bids(sub))
  }

  /** The children of node t are to become ks; t's own block is still untouched. */
  ghost predicate KidsReady(buf0: Blocks, buf: Blocks, dirty: set<int>, t: Tree, ks: seq<Tree>, lvl: nat, g: Geometry)
    requires g.kv > 0 && lvl >= 1
  {
    && GoodAll(buf, ks, lvl - 1, g)
    && SepAll(ks)
    && Accounted(buf0, buf, dirty, BidsAll(ks), BidsAll(Kids(t)))
    && Within(buf0, buf, BidsAll(Kids(t)))
    && t.bid !in BidsAll(ks)
    && t.bid in buf0
    && t.bid in buf
    && buf[t.bid] == buf0[t.bid]
  }

  ghost function NewKids(t: Tree, idx: nat, news: seq<Tree>): seq<Tree>
    requires idx < |Kids(t)|
  {
    t.kids[..idx] + news + t.kids[idx + 1..]
  }

  lemma OwnBids(t: Tree)
    ensures Bids(t) == {t.bid} + BidsAll(Kids(t))
    ensures Sep(t) <==> t.bid !in BidsAll(Kids(t)) && SepAll(Kids(t))
  {
    NoTrees();
  }

  lemma LeafReady(buf: Blocks, dirty: set<int>, t: Tree, g: Geometry, root: bool)
    requires g.kv > 0 && Good(buf, t, 1, g, root)
    ensures KidsReady(buf, buf, dirty, t, [], 1, g)
  {
    NoTrees();
  }

  /** Replacing child idx makes the new child list ready. */
  lemma ChildReady(buf0: Blocks, buf: Blocks, dirty: set<int>, t: Tree, idx: nat, news: seq<Tree>, lvl: nat,
                   g: Geometry, root: bool)
    requires g.kv > 0 && lvl > 1 && Good(buf0, t, lvl, g, root) && Sep(t) && idx < |Kids(t)|
    requires Replaced(buf0, buf, dirty, t.kids[idx], news, lvl - 1, g)
    ensures KidsReady(buf0, buf, dirty, t, NewKids(t, idx, news), lvl, g)
  {
    hide FlatAll, Flat, BidsAll, SepAll;
    var a, b := t.kids[..idx], t.kids[idx + 1..];
    GoodBidsAll(buf0, t.kids, lvl - 1, g);
    Cut(t.kids, idx);
    Splice(t.kids, idx, news);
    ChildKeeps(buf0, buf, t.kids[idx], a, lvl - 1, g);
    ChildKeeps(buf0, buf, t.kids[idx], b, lvl - 1, g);
    Disjoint(buf0, BidsAll(news), Bids(t.kids[idx]), BidsAll(a));
    Disjoint(buf0, BidsAll(news), Bids(t.kids[idx]), BidsAll(b));
  }

  lemma Disjoint(buf0: Blocks, used: set<int>, own: set<int>, other: set<int>)
    requires forall b :: b in used ==> b in own || b !in buf0
    requires own !! other && other <= buf0.Keys
    ensures used !! other
  {
    assert forall b :: b in used && b in buf0 ==> b in own;
    assert forall b :: b in other ==> b in buf0;
  }

  lemma ChildKeeps(buf0: Blocks, buf: Blocks, sub: Tree, ts: seq<Tree>, lvl: nat, g: Geometry)
    requires g.kv > 0 && GoodAll(buf0, ts, lvl, g) && Within(buf0, buf, Bids(sub)) && Bids(sub) !! BidsAll(ts)
    ensures GoodAll(buf, ts, lvl, g)
    ensures BidsAll(ts) <= buf0.Keys
    ensures forall b :: b in BidsAll(ts) ==> b in buf && buf[b] == buf0[b]
  {
    GoodBidsAll(buf0, ts, lvl, g);
    GoodFrameAll(buf0, buf, ts, lvl, g);
  }

  /** Edits to a node's own block and to fresh blocks do not disturb its children. */
  lemma PieceGood(buf: Blocks, buf': Blocks, p: Tree, lvl: nat, g: Geometry, root: bool)
    requires g.kv > 0 && lvl >= 1 && Holds(buf', p, lvl, g, root) && (p.Leaf? <==> lvl == 1)
    requires GoodAll(buf, Kids(p), lvl - 1, g)
    requires forall b :: b in BidsAll(Kids(p)) ==> b in buf && b in buf' && buf'[b] == buf[b]
    ensures Good(buf', p, lvl, g, root)
  {
    hide Holds, NodeEntries, Flat, BidsAll;
    GoodFrameAll(buf, buf', Kids(p), lvl - 1, g);
    assert p.Index? ==> GoodAll(buf', p.kids, lvl - 1, g);
  }

  /** The node is now the single node p over the children ks. */
  lemma AssembleOne(buf0: Blocks, buf: Blocks, dirty: set<int>, buf': Blocks, dirty': set<int>,
                    t: Tree, p: Tree, lvl: nat, g: Geometry, root: bool)
    requires g.kv > 0 && lvl >= 1 && KidsReady(buf0, buf, dirty, t, Kids(p), lvl, g)
    requires dirty <= dirty'
    requires Within(buf, buf', {t.bid})
    requires p.bid == t.bid || p.bid !in buf
    requires p.bid in dirty' || (p.bid == t.bid && t.bid in buf' && buf'[t.bid] == buf[t.bid])
    requires Holds(buf', p, lvl, g, root) && (p.Leaf? <==> lvl == 1)
    ensures Good(buf', p, lvl, g, root) && Sep(p)
    ensures Accounted(buf0, buf', dirty', Bids(p), Bids(t)) && Within(buf0, buf', Bids(t))
    ensures !root ==> Replaced(buf0, buf', dirty', t, [p], lvl, g)
  {
    hide FlatAll, Flat, EntriesOf, NodeEntries, Holds, BidsAll, SepAll, Good;
    GoodBidsAll(buf, Kids(p), lvl - 1, g);
    PieceGood(buf, buf', p, lvl, g, root);
    OwnBids(p);
    OwnBids(t);
    One(p);
  }

  /** The node has been split into p0 and p1, which share the children ks. */
  lemma AssembleTwo(buf0: Blocks, buf: Blocks, dirty: set<int>, buf': Blocks, dirty': set<int>,
                    t: Tree, p0: Tree, p1: Tree, lvl: nat, g: Geometry)
    requires g.kv > 0 && lvl >= 1 && KidsReady(buf0, buf, dirty, t, Kids(p0) + Kids(p1), lvl, g)
    requires dirty <= dirty'
    requires Within(buf, buf', {t.bid})
    requires p0.bid == t.bid || p0.bid !in buf
    requires p1.bid !in buf && p0.bid != p1.bid
    requires p0.bid in dirty' && p1.bid in dirty'
    requires Holds(buf', p0, lvl, g, false) && (p0.Leaf? <==> lvl == 1)
    requires Holds(buf', p1, lvl, g, false) && (p1.Leaf? <==> lvl == 1)
    ensures Replaced(buf0, buf', dirty', t, [p0, p1], lvl, g)
  {
    hide FlatAll, Flat, EntriesOf, NodeEntries, Holds, BidsAll, SepAll, Good;
    OwnBids(t);
    GoodBidsAll(buf, Kids(p0) + Kids(p1), lvl - 1, g);
    BidsConcat(Kids(p0), Kids(p1));
    SepConcat(Kids(p0), Kids(p1));
    TwoGood(buf, buf', p0, p1, t, lvl, g);
    TwoSep(p0, p1);
  }

  lemma TwoGood(buf: Blocks, buf': Blocks, p0: Tree, p1: Tree, t: Tree, lvl: nat, g: Geometry)
    requires g.kv > 0 && lvl >= 1 && GoodAll(buf, Kids(p0) + Kids(p1), lvl - 1, g)
    requires BidsAll(Kids(p0)) + BidsAll(Kids(p1)) <= buf.Keys && t.bid !in BidsAll(Kids(p0)) + BidsAll(Kids(p1))
    requires Within(buf, buf', {t.bid})
    requires Holds(buf', p0, lvl, g, false) && (p0.Leaf? <==> lvl == 1)
    requires Holds(buf', p1, lvl, g, false) && (p1.Leaf? <==> lvl == 1)
    ensures GoodAll(buf', [p0, p1], lvl, g)
  {
    hide FlatAll, Flat, EntriesOf, NodeEntries, Holds, BidsAll;
    GoodConcat(buf, Kids(p0), Kids(p1), lvl - 1, g);
    PieceGood(buf, buf', p0, lvl, g, false);
    PieceGood(buf, buf', p1, lvl, g, false);
  }

  lemma GoodConcat(buf: Blocks, a: seq<Tree>, b: seq<Tree>, lvl: nat, g: Geometry)
    requires g.kv > 0 && GoodAll(buf, a + b, lvl, g)
    ensures GoodAll(buf, a, lvl, g) && GoodAll(buf, b, lvl, g)
  {
    assert forall i :: 0 <= i < |a| ==> a[i] == (a + b)[i];
    assert forall i :: 0 <= i < |b| ==> b[i] == (a + b)[|a| + i];
  }

  lemma TwoSep(p0: Tree, p1: Tree)
    requires SepAll(Kids(p0)) && SepAll(Kids(p1)) && BidsAll(Kids(p0)) !! BidsAll(Kids(p1))
    requires p0.bid != p1.bid
    requires {p0.bid, p1.bid} !! BidsAll(Kids(p0)) + BidsAll(Kids(p1))
    ensures SepAll([p0, p1])
    ensures BidsAll([p0, p1]) == {p0.bid, p1.bid} + BidsAll(Kids(p0)) + BidsAll(Kids(p1))
  {
    NoTrees();
    One(p0);
    One(p1);
    assert [p0, p1] == [p0] + [p1];
    SepConcat([p0], [p1]);
    BidsConcat([p0], [p1]);
  }

  // ----- descending -----

  /** Child idx of t is the only child that can hold key. */
  ghost predicate Turn(t: Tree, idx: nat, sub: Tree, key: int) {
    && t.Index?
    && idx < |t.kids|
    && sub == t.kids[idx]
    && (idx > 0 ==> MinKey(sub) <= key)
    && Below(FlatAll(t.kids[..idx]), key)
    && Above(FlatAll(t.kids[idx + 1..]), key)
  }

  lemma KidsNonempty(buf: Blocks, ts: seq<Tree>, lvl: nat, g: Geometry)
    requires g.kv > 0 && GoodAll(buf, ts, lvl, g)
    ensures Nonempty(ts)
  {
    forall i | 0 <= i < |ts| ensures Flat(ts[i]) != [] { GoodNonempty(buf, ts[i], lvl, g, false); }
  }

  /** A tree in key order has every node in key order. */
  lemma NodeSorted(buf: Blocks, t: Tree, lvl: nat, g: Geometry, root: bool)
    requires g.kv > 0 && Good(buf, t, lvl, g, root) && Sorted(Flat(t))
    ensures t.bid in buf && Ok(buf[t.bid]) && Sorted(Entries(buf[t.bid])) && Entries(buf[t.bid]) == NodeEntries(t)
    ensures |buf[t.bid].slots| == g.Cap(root) && buf[t.bid].level == lvl && buf[t.bid].root == root
    ensures lvl >= 1 && (t.Leaf? <==> lvl == 1)
  {
    hide FlatAll;
    if t.Index? {
      KidsNonempty(buf, t.kids, lvl - 1, g);
      KidsSorted(t.kids);
    }
  }

  lemma FirstSlot(buf: Blocks, t: Tree, lvl: nat, g: Geometry, root: bool)
    requires g.kv > 0 && Good(buf, t, lvl, g, root)
    ensures buf[t.bid].nentry >= 1 <==> Flat(t) != []
    ensures Flat(t) != [] ==> buf[t.bid].slots[0].key == MinKey(t)
  {
    GoodNonempty(buf, t, lvl, g, root);
    var n := buf[t.bid];
    assert n.nentry >= 1 ==> Entries(n)[0] == n.slots[0];
    if t.Index? && t.kids != [] {
      GoodNonempty(buf, t.kids[0], lvl - 1, g, false);
      FirstOf(t.kids);
    }
  }

  lemma TurnAt(buf: Blocks, t: Tree, lvl: nat, g: Geometry, root: bool, idx: nat, key: int)
    requires g.kv > 0 && Good(buf, t, lvl, g, root) && t.Index? && Sorted(Flat(t)) && Sep(t)
    requires idx < buf[t.bid].nentry
    requires idx > 0 ==> buf[t.bid].slots[idx].key <= key
    requires idx + 1 < buf[t.bid].nentry ==> key < buf[t.bid].slots[idx + 1].key
    ensures idx < |t.kids| && Turn(t, idx, t.kids[idx], key) && buf[t.bid].slots[idx].val == t.kids[idx].bid
    ensures Good(buf, t.kids[idx], lvl - 1, g, false) && Sorted(Flat(t.kids[idx])) && Sep(t.kids[idx])
  {
    hide FlatAll, BidsAll, SepAll, MinKey;
    var n := buf[t.bid];
    assert forall i :: 0 <= i < n.nentry ==> Entries(n)[i] == n.slots[i];
    KidsNonempty(buf, t.kids, lvl - 1, g);
    Locate(t.kids, idx, key);
    Cut(t.kids, idx);
  }

  /** A key below the first key of a node is below every key under that node. */
  lemma AllAbove(buf: Blocks, t: Tree, lvl: nat, g: Geometry, root: bool, key: int)
    requires g.kv > 0 && Good(buf, t, lvl, g, root) && Sorted(Flat(t))
    requires buf[t.bid].nentry == 0 || (Ok(buf[t.bid]) && key < buf[t.bid].slots[0].key)
    ensures Above(Flat(t), key)
  {
    hide Flat;
    FirstSlot(buf, t, lvl, g, root);
    assert forall i :: 0 <= i < |Flat(t)| ==> Flat(t)[0].key <= Flat(t)[i].key;
  }

  // ----- inserting below an index node -----

  /** What one level hands to the next: subtree sub became news (one node, or two if
      it was split), reported as a block id, a moved flag and an entry to insert. */
  ghost predicate Linked(sub: Tree, news: seq<Tree>, key: int, cbid: int, moved: bool, ins: Option<Entry>) {
    && 1 <= |news| <= 2
    && news[0].bid == cbid
    && (!moved ==> cbid == sub.bid)
    && ins == (if |news| == 2 then Some(Entry(MinKey(news[1]), news[1].bid)) else None)
    && MinKey(news[0]) == (if key < MinKey(sub) then key else MinKey(sub))
    && (|news| == 2 ==> MinKey(sub) < MinKey(news[1]))
  }

  /** The entries of t's node once child idx has been pointed at block cbid. */
  ghost function Repointed(t: Tree, idx: nat, cbid: int): seq<Entry>
    requires idx < |Kids(t)|
  {
    EntriesOf(t.kids)[idx := Entry(MinKey(t.kids[idx]), cbid)]
  }

  ghost function NewMin(t: Tree, idx: nat, key: int): Option<int>
    requires idx < |Kids(t)|
  {
    if idx == 0 && key < MinKey(t.kids[0]) then Some(key) else None
  }

  /** Adding the split-off entry and lowering the first key yields exactly the
      entries of the new child list. */
  lemma IndexEntries(t: Tree, idx: nat, news: seq<Tree>, key: int, cbid: int, moved: bool, ins: Option<Entry>)
    requires idx < |Kids(t)| && Linked(t.kids[idx], news, key, cbid, moved, ins)
    requires idx > 0 ==> MinKey(t.kids[idx]) <= key
    ensures var e1 := Repointed(t, idx, cbid);
            EntriesOf(NewKids(t, idx, news)) ==
            WithMin(if ins.Some? then e1[..idx + 1] + [ins.value] + e1[idx + 1..] else e1, NewMin(t, idx, key))
  {
    hide MinKey, Flat, FlatAll, EntriesOf, Repointed, NewKids, WithMin;
    var el, er, one := EntriesOf(t.kids[..idx]), EntriesOf(t.kids[idx + 1..]), Entry(MinKey(t.kids[idx]), cbid);
    var more := if ins.Some? then [ins.value] else [];
    RepointedParts(t, idx, cbid);
    NewKidsParts(t, idx, news, cbid, more);
    PutBehind(el, one, er, ins);
    MinFirst(el, one, more + er, NewMin(t, idx, key));
    Reassociate(el, [one], more, er);
    Reassociate(el, [Entry(MinKey(news[0]), cbid)], more, er);
  }

  lemma RepointedParts(t: Tree, idx: nat, cbid: int)
    requires idx < |Kids(t)|
    ensures Repointed(t, idx, cbid) == EntriesOf(t.kids[..idx]) + [Entry(MinKey(t.kids[idx]), cbid)]
            + EntriesOf(t.kids[idx + 1..])
    ensures |EntriesOf(t.kids[..idx])| == idx
  {
    hide MinKey;
  }

  lemma NewKidsParts(t: Tree, idx: nat, news: seq<Tree>, cbid: int, more: seq<Entry>)
    requires idx < |Kids(t)| && 1 <= |news| <= 2 && news[0].bid == cbid
    requires more == if |news| == 2 then [Entry(MinKey(news[1]), news[1].bid)] else []
    ensures EntriesOf(NewKids(t, idx, news)) == EntriesOf(t.kids[..idx]) + ([Entry(MinKey(news[0]), cbid)] + more)
            + EntriesOf(t.kids[idx + 1..])
  {
    hide MinKey, EntriesOf;
    EntriesJoin(t.kids[..idx], news, t.kids[idx + 1..]);
    EntriesFew(news);
  }

  lemma PutBehind(l: seq<Entry>, e: Entry, r: seq<Entry>, ins: Option<Entry>)
    ensures var s, i := l + [e] + r, |l|;
            (if ins.Some? then s[..i + 1] + [ins.value] + s[i + 1..] else s) == l
                + ([e] + (if ins.Some? then [ins.value] else [])) + r
  {
    var s, i := l + [e] + r, |l|;
    assert s[..i + 1] == l + [e] && s[i + 1..] == r;
    assert [e] + [] == [e];
  }

  lemma Reassociate(a: seq<Entry>, b: seq<Entry>, c: seq<Entry>, d: seq<Entry>)
    ensures a + (b + c) + d == a + b + (c + d)
  {
  }

  lemma EntriesJoin(a: seq<Tree>, b: seq<Tree>, c: seq<Tree>)
    ensures EntriesOf(a + b + c) == EntriesOf(a) + EntriesOf(b) + EntriesOf(c)
  {
    hide MinKey;
  }

  lemma EntriesFew(ts: seq<Tree>)
    ensures |ts| == 1 ==> EntriesOf(ts) == [Entry(MinKey(ts[0]), ts[0].bid)]
    ensures |ts| == 2 ==> EntriesOf(ts) == [Entry(MinKey(ts[0]), ts[0].bid), Entry(MinKey(ts[1]), ts[1].bid)]
  {
    hide MinKey;
  }

  lemma MinFirst(l: seq<Entry>, e: Entry, r: seq<Entry>, m: Option<int>)
    requires m.Some? ==> l == []
    ensures WithMin(l + [e] + r, m) == l + [if m.Some? then Entry(m.value, e.val) else e] + r
  {
    if m.Some? {
      assert (l + [e] + r)[1..] == r;
    }
  }

  lemma IndexAround(t: Tree, idx: nat, news: seq<Tree>, key: int, cbid: int, moved: bool, e: Entry)
    requires idx < |Kids(t)| && Linked(t.kids[idx], news, key, cbid, moved, Some(e))
    requires Sorted(EntriesOf(t.kids)) && Sorted(EntriesOf(NewKids(t, idx, news)))
    ensures var e1 := Repointed(t, idx, cbid); Sorted(e1) && Around(e1, e.key, e1[..idx + 1], [], e1[idx + 1..])
  {
    hide MinKey;
    RepointedSorted(t, idx, cbid);
    if idx + 1 < |t.kids| { NextKey(t, idx, news); }
    AroundGap(Repointed(t, idx, cbid), idx, e.key);
  }

  lemma NextKey(t: Tree, idx: nat, news: seq<Tree>)
    requires idx + 1 < |Kids(t)| && |news| == 2 && Sorted(EntriesOf(NewKids(t, idx, news)))
    ensures MinKey(news[1]) < MinKey(t.kids[idx + 1])
  {
    hide MinKey;
    var ks := NewKids(t, idx, news);
    assert ks[idx + 1] == news[1] && ks[idx + 2] == t.kids[idx + 1];
    assert EntriesOf(ks)[idx + 1].key < EntriesOf(ks)[idx + 2].key;
  }

  lemma RepointedSorted(t: Tree, idx: nat, cbid: int)
    requires idx < |Kids(t)| && Sorted(EntriesOf(t.kids))
    ensures Sorted(Repointed(t, idx, cbid))
  {
    hide MinKey;
    var es, e1 := EntriesOf(t.kids), Repointed(t, idx, cbid);
    assert forall j :: 0 <= j < |es| ==> e1[j].key == es[j].key;
  }

  /** The first key after putting e into a non-empty list. */
  lemma MinAfterPut(s: seq<Entry>, e: Entry, l: seq<Entry>, m: seq<Entry>, r: seq<Entry>)
    requires s != [] && Around(s, e.key, l, m, r)
    ensures (l + [e] + r)[0].key == if e.key < s[0].key then e.key else s[0].key
  {
    if l != [] { assert s[0] == l[0]; } else if m != [] { assert s[0] == m[0]; } else { assert s[0] == r[0]; }
  }

  // ----- results of editing a node -----

  ghost function Extra(n1: Option<Node>): seq<Entry>
    requires n1.Some? ==> Ok(n1.value)
  {
    if n1.Some? then Entries(n1.value) else []
  }

  /** Node n has become n0, plus n1 if it was split, and together they list big's entries. */
  ghost predicate Edited(g: Geometry, n: Node, n0: Node, n1: Option<Node>, big: Tree)
    requires g.kv > 0
  {
    && Ok(n0)
    && n0 == n.(nentry := n0.nentry, slots := n0.slots)
    && |n0.slots| == |n.slots|
    && (n1.Some? ==> Ok(n1.value) && n1.value.level == n.level && !n1.value.root
                     && |n1.value.slots| == g.Cap(false) && n1.value.nentry >= 1)
    && Entries(n0) + Extra(n1) == NodeEntries(big)
  }

  /** The single node a non-split edit leaves, in block bid. */
  lemma EditedOne(g: Geometry, buf: Blocks, n: Node, n0: Node, big: Tree, bid: int, lvl: nat, root: bool)
    requires g.kv > 0 && Edited(g, n, n0, None, big) && bid in buf && buf[bid] == n0
    requires n.level == lvl && n.root == root && |n.slots| == g.Cap(root) && (root || n0.nentry >= 1)
    ensures var p := Slice(big, bid, 0, |NodeEntries(big)|);
            Holds(buf, p, lvl, g, root) && Flat(p) == Flat(big) && Kids(p) == Kids(big) && p.bid == bid
                && (p.Leaf? <==> big.Leaf?)
  {
    hide Flat, EntriesOf;
    SliceAll(big, bid);
    assert Entries(n0) + [] == Entries(n0);
  }

  /** The two nodes a split leaves, in blocks b0 and b1. */
  lemma EditedTwo(g: Geometry, buf: Blocks, n: Node, n0: Node, n1: Node, big: Tree, b0: int, b1: int, lvl: nat)
    requires g.kv > 0 && Edited(g, n, n0, Some(n1), big) && n0.nentry >= 1
    requires b0 in buf && b1 in buf && buf[b0].(root := false) == n0.(slots := buf[b0].slots, root := false)
             && buf[b1] == n1
    requires Ok(buf[b0]) && Entries(buf[b0]) == Entries(n0) && !buf[b0].root && |buf[b0].slots| == g.Cap(false)
    requires n.level == lvl
    ensures n0.nentry <= |NodeEntries(big)|
    ensures var p0, p1 := Slice(big, b0, 0, n0.nentry), Slice(big, b1, n0.nentry, |NodeEntries(big)|);
            && Holds(buf, p0, lvl, g, false) && Holds(buf, p1, lvl, g, false)
            && Flat(p0) + Flat(p1) == Flat(big) && Kids(p0) + Kids(p1) == Kids(big)
            && p0.bid == b0 && p1.bid == b1 && (p0.Leaf? <==> big.Leaf?) && (p1.Leaf? <==> big.Leaf?)
  {
    hide Flat, EntriesOf, NodeEntries;
    SliceTwo(big, b0, b1, n0.nentry);
    assert NodeEntries(big)[..n0.nentry] == Entries(n0);
    assert NodeEntries(big)[n0.nentry..] == Entries(n1);
  }

  /** First keys of the nodes left by an insertion step. */
  lemma LinkedOne(buf: Blocks, g: Geometry, t: Tree, p: Tree, lvl: nat, key: int, moved: bool)
    requires g.kv > 0 && Good(buf, p, lvl, g, false) && (!moved ==> p.bid == t.bid)
    requires MinKey(p) == if key < MinKey(t) then key else MinKey(t)
    ensures Linked(t, [p], key, p.bid, moved, None)
  {
  }

  lemma LinkedTwo(buf: Blocks, g: Geometry, t: Tree, p0: Tree, p1: Tree, lvl: nat, key: int, moved: bool)
    requires g.kv > 0 && Good(buf, p0, lvl, g, false) && Good(buf, p1, lvl, g, false) && (!moved ==> p0.bid == t.bid)
    requires MinKey(p0) == if key < MinKey(t) then key else MinKey(t)
    requires MinKey(t) < buf[p1.bid].slots[0].key
    ensures Linked(t, [p0, p1], key, p0.bid, moved, Some(Entry(buf[p1.bid].slots[0].key, p1.bid)))
  {
    hide MinKey, Flat;
    FirstSlot(buf, p1, lvl, g, false);
    GoodNonempty(buf, p1, lvl, g, false);
  }

  lemma SlotIs(t: Tree, n: Node, idx: nat)
    requires t.Index? && Ok(n) && Entries(n) == EntriesOf(t.kids) && idx < |t.kids|
    ensures idx < n.nentry == |t.kids| && n.slots[idx] == Entry(MinKey(t.kids[idx]), t.kids[idx].bid)
    ensures n.slots[0].key == MinKey(t.kids[0])
  {
    hide MinKey;
    assert Entries(n)[idx] == n.slots[idx];
    assert Entries(n)[0] == n.slots[0];
  }

  lemma RepointedNode(t: Tree, n: Node, n': Node, idx: nat, cbid: int)
    requires t.Index? && Ok(n) && Entries(n) == EntriesOf(t.kids) && idx < |t.kids|
    requires n' == SetKv(n, idx, Entry(MinKey(t.kids[idx]), cbid)) || (n' == n && cbid == t.kids[idx].bid)
    ensures Ok(n') && Entries(n') == Repointed(t, idx, cbid)
    ensures n' == n.(slots := n'.slots) && |n'.slots| == |n.slots| && n'.slots[0].key == n.slots[0].key
  {
    hide MinKey;
    SlotIs(t, n, idx);
  }

  lemma NoMin(es: seq<Entry>)
    ensures WithMin(es, None) == es && es + Extra(None) == es
  {
  }

  /** Storing an unsplit edit, in place or in a fresh block. */
  lemma InstalledOne(g: Geometry, buf0: Blocks, buf: Blocks, dirty: set<int>, buf': Blocks, dirty': set<int>,
                     t: Tree, big: Tree, n0: Node, cbid: int, lvl: nat, root: bool)
    requires g.kv > 0 && lvl >= 1 && KidsReady(buf0, buf, dirty, t, Kids(big), lvl, g) && (big.Leaf? <==> lvl == 1)
    requires t.bid in buf && Edited(g, buf[t.bid], n0, None, big)
    requires buf[t.bid].level == lvl && buf[t.bid].root == root && |buf[t.bid].slots| == g.Cap(root)
             && (root || n0.nentry >= 1)
    requires dirty <= dirty' && Within(buf, buf', {t.bid})
    requires cbid in buf' && buf'[cbid] == n0 && (cbid == t.bid || cbid !in buf)
    requires cbid in dirty' || (cbid == t.bid && n0 == buf[t.bid])
    ensures var p := Slice(big, cbid, 0, |NodeEntries(big)|);
            && Good(buf', p, lvl, g, root) && Sep(p) && p.bid == cbid && Flat(p) == Flat(big)
            && Accounted(buf0, buf', dirty', Bids(p), Bids(t)) && Within(buf0, buf', Bids(t))
            && (!root ==> Replaced(buf0, buf', dirty', t, [p], lvl, g)) && FlatAll([p]) == Flat(big)
  {
    hide Flat, FlatAll, EntriesOf, NodeEntries, Edited, KidsReady, Good, Holds, Replaced, Accounted, BidsAll, SepAll;
    EditedOne(g, buf', buf[t.bid], n0, big, cbid, lvl, root);
    var p := Slice(big, cbid, 0, |NodeEntries(big)|);
    AssembleOne(buf0, buf, dirty, buf', dirty', t, p, lvl, g, root);
    One(p);
  }

  /** Storing a split edit: the first part in place or moved, the second in a fresh block. */
  lemma InstalledTwo(g: Geometry, buf0: Blocks, buf: Blocks, dirty: set<int>, buf': Blocks, dirty': set<int>,
                     t: Tree, big: Tree, n0: Node, n1: Node, b0: int, b1: int, lvl: nat)
    requires g.kv > 0 && lvl >= 1 && KidsReady(buf0, buf, dirty, t, Kids(big), lvl, g) && (big.Leaf? <==> lvl == 1)
    requires t.bid in buf && Edited(g, buf[t.bid], n0, Some(n1), big) && buf[t.bid].level == lvl && n0.nentry >= 1
    requires dirty <= dirty' && Within(buf, buf', {t.bid})
    requires b0 in buf' && (b0 == t.bid || b0 !in buf) && b1 in buf' && b1 !in buf && b0 != b1 && b0 in dirty'
             && b1 in dirty'
    requires buf'[b0].(root := false) == n0.(slots := buf'[b0].slots, root := false) && buf'[b1] == n1
    requires Ok(buf'[b0]) && Entries(buf'[b0]) == Entries(n0) && !buf'[b0].root && |buf'[b0].slots| == g.Cap(false)
    ensures n0.nentry <= |NodeEntries(big)|
    ensures var p0, p1 := Slice(big, b0, 0, n0.nentry), Slice(big, b1, n0.nentry, |NodeEntries(big)|);
            && Replaced(buf0, buf', dirty', t, [p0, p1], lvl, g) && FlatAll([p0, p1]) == Flat(big)
            && Flat(p0) + Flat(p1) == Flat(big) && p0.bid == b0 && p1.bid == b1
  {
    hide Flat, FlatAll, EntriesOf, NodeEntries, Edited, KidsReady, Good, Holds, Replaced, Accounted, BidsAll, SepAll;
    EditedTwo(g, buf', buf[t.bid], n0, n1, big, b0, b1, lvl);
    var p0, p1 := Slice(big, b0, 0, n0.nentry), Slice(big, b1, n0.nentry, |NodeEntries(big)|);
    AssembleTwo(buf0, buf, dirty, buf', dirty', t, p0, p1, lvl, g);
    One(p0);
    One(p1);
    assert [p0, p1] == [p0] + [p1];
    FlatConcat([p0], [p1]);
  }

  /** The plain facts about t's block that storing an edit relies on. */
  lemma TouchFacts(buf0: Blocks, buf: Blocks, dirty: set<int>, t: Tree, big: Tree, n0: Node, n1: Option<Node>, lvl: nat,
                   g: Geometry)
    requires g.kv > 0 && Good(buf0, t, lvl, g, false) && lvl >= 1
    requires KidsReady(buf0, buf, dirty, t, Kids(big), lvl, g) && Edited(g, buf[t.bid], n0, n1, big)
    ensures t.bid in buf && buf[t.bid].level == lvl && !buf[t.bid].root && |buf[t.bid].slots| == g.Cap(false)
    ensures Ok(n0) && !n0.root && |n0.slots| == g.Cap(false) && n0.level == lvl
            && n0 == n0.(slots := n0.slots, root := false)
    ensures n1.Some? ==> Ok(n1.value) && n1.value.nentry >= 1
    ensures Flat(t) != []
  {
    hide Flat, NodeEntries;
    GoodNonempty(buf0, t, lvl, g, false);
  }

  lemma ReplacedParts(buf0: Blocks, buf: Blocks, dirty: set<int>, t: Tree, p0: Tree, p1: Tree, lvl: nat, g: Geometry)
    requires g.kv > 0 && Replaced(buf0, buf, dirty, t, [p0, p1], lvl, g)
    ensures Good(buf, p0, lvl, g, false) && Good(buf, p1, lvl, g, false)
    ensures Flat(p0) != [] && Flat(p1) != []
  {
    hide Flat, SepAll, Good, Accounted, Within;
    var ps := [p0, p1];
    assert ps[0] == p0 && ps[1] == p1;
    GoodNonempty(buf, p0, lvl, g, false);
    GoodNonempty(buf, p1, lvl, g, false);
  }

  lemma NewMinKey(t: Tree, p: Tree, rest: seq<Entry>, e: Entry, l: seq<Entry>, m: seq<Entry>, r: seq<Entry>)
    requires Flat(t) != [] && Around(Flat(t), e.key, l, m, r) && Flat(p) + rest == l + [e] + r
             && (rest != [] ==> Flat(p) != [])
    ensures MinKey(p) == if e.key < MinKey(t) then e.key else MinKey(t)
  {
    hide Flat, Around;
    MinAfterPut(Flat(t), e, l, m, r);
    assert Flat(p)[0] == (Flat(p) + rest)[0];
  }

  /** A fresh root node over the two halves of the old root. */
  lemma RootOver(buf0: Blocks, buf: Blocks, dirty: set<int>, t: Tree, p0: Tree, p1: Tree, lvl: nat, g: Geometry,
                 nr: int, buf': Blocks, dirty': set<int>)
    requires g.kv > 0 && lvl >= 1 && Replaced(buf0, buf, dirty, t, [p0, p1], lvl, g)
    requires nr !in buf && nr in buf' && buf' == buf[nr := buf'[nr]] && dirty' == dirty + {nr}
    requires Ok(buf'[nr]) && buf'[nr].root && buf'[nr].level == lvl + 1 && |buf'[nr].slots| == g.Cap(true)
    requires Entries(buf'[nr]) == [Entry(MinKey(p0), p0.bid), Entry(MinKey(p1), p1.bid)]
    ensures var top := Index(nr, [p0, p1]);
            Good(buf', top, lvl + 1, g, true) && Sep(top) && Accounted(buf0, buf', dirty', Bids(top), Bids(t))
  {
    hide Flat, FlatAll, MinKey, BidsAll, SepAll, Good;
    var top := Index(nr, [p0, p1]);
    GoodBidsAll(buf, [p0, p1], lvl, g);
    OwnBids(top);
    RootOverGood(buf, t, p0, p1, lvl, g, nr, buf');
  }

  lemma RootOverGood(buf: Blocks, t: Tree, p0: Tree, p1: Tree, lvl: nat, g: Geometry, nr: int, buf': Blocks)
    requires g.kv > 0 && lvl >= 1 && GoodAll(buf, [p0, p1], lvl, g) && BidsAll([p0, p1]) <= buf.Keys
    requires nr !in buf && nr in buf' && buf' == buf[nr := buf'[nr]]
    requires Ok(buf'[nr]) && buf'[nr].root && buf'[nr].level == lvl + 1 && |buf'[nr].slots| == g.Cap(true)
    requires Entries(buf'[nr]) == [Entry(MinKey(p0), p0.bid), Entry(MinKey(p1), p1.bid)]
    ensures Good(buf', Index(nr, [p0, p1]), lvl + 1, g, true)
  {
    hide Flat, FlatAll, MinKey, BidsAll;
    GoodFrameAll(buf, buf', [p0, p1], lvl, g);
    assert EntriesOf([p0, p1]) == Entries(buf'[nr]);
  }

  // ----- removing below an index node -----

  lemma CutEntries(t: Tree, idx: nat, n: Node)
    requires t.Index? && Ok(n) && Entries(n) == EntriesOf(t.kids) && idx < |t.kids|
    ensures EntriesOf(NewKids(t, idx, [])) == Entries(n)[..idx] + Entries(n)[idx + 1..]
  {
    hide MinKey;
    var ks, es := NewKids(t, idx, []), EntriesOf(t.kids);
    assert forall j :: 0 <= j < |ks| ==> ks[j] == if j < idx then t.kids[j] else t.kids[j + 1];
    assert EntriesOf(ks) == es[..idx] + es[idx + 1..];
  }

  lemma KeptEntries(t: Tree, idx: nat, n: Node, n': Node, cur: Tree)
    requires t.Index? && Ok(n) && Entries(n) == EntriesOf(t.kids) && idx < |t.kids|
    requires n' == SetKv(n, idx, Entry(MinKey(cur), cur.bid)) ||
             (n' == n && n.slots[idx] == Entry(MinKey(cur), cur.bid))
    ensures Ok(n') && EntriesOf(NewKids(t, idx, [cur])) == Entries(n')
    ensures n' == n.(slots := n'.slots) && |n'.slots| == |n.slots|
  {
    hide MinKey;
    SlotIs(t, n, idx);
    var ks := NewKids(t, idx, [cur]);
    assert forall j :: 0 <= j < |ks| ==> ks[j] == if j == idx then cur else t.kids[j];
    assert forall j :: 0 <= j < |ks| ==> Entries(n')[j] == n'.slots[j];
    assert forall j :: 0 <= j < |ks| ==> Entries(n)[j] == n.slots[j];
  }

  /** A key found below child idx is also the key to look for at this level. */
  lemma TurnVictim(buf: Blocks, t: Tree, lvl: nat, g: Geometry, root: bool, idx: nat, sub: Tree, key: int, k: int)
    requires g.kv > 0 && Good(buf, t, lvl, g, root) && Sorted(Flat(t)) && Turn(t, idx, sub, key)
    requires MinKey(sub) <= k <= key
    ensures Turn(t, idx, sub, k)
  {
    hide FlatAll, MinKey, Sorted;
    KidsNonempty(buf, t.kids, lvl - 1, g);
    LocateBelow(t.kids, idx, k);
  }

  /** Storing a node that lost its last entry leaves nothing of the subtree. */
  lemma InstalledNone(g: Geometry, buf0: Blocks, buf: Blocks, dirty: set<int>, buf': Blocks, dirty': set<int>, t: Tree,
                      big: Tree, lvl: nat)
    requires g.kv > 0 && lvl >= 1 && KidsReady(buf0, buf, dirty, t, Kids(big), lvl, g) && dirty <= dirty'
             && Within(buf, buf', {t.bid})
    ensures Replaced(buf0, buf', dirty', t, [], lvl, g)
  {
    hide BidsAll, SepAll, Good;
    NoTrees();
    OwnBids(t);
  }

  lemma ReplacedOne(buf0: Blocks, buf: Blocks, dirty: set<int>, t: Tree, p: Tree, lvl: nat, g: Geometry)
    requires g.kv > 0 && Replaced(buf0, buf, dirty, t, [p], lvl, g)
    ensures Good(buf, p, lvl, g, false) && Flat(p) != []
    ensures p.bid in buf && buf[p.bid].nentry >= 1 && Ok(buf[p.bid]) && buf[p.bid].slots[0].key == MinKey(p)
    ensures FlatAll([p]) == Flat(p)
  {
    hide Flat, FlatAll, SepAll, Accounted, Within, MinKey;
    var ps := [p];
    assert ps[0] == p;
    GoodNonempty(buf, p, lvl, g, false);
    FirstSlot(buf, p, lvl, g, false);
    One(p);
  }

  // ----- height shrink -----

  /** The only remaining child becomes the root, copied into a fresh block. */
  lemma Promoted(g: Geometry, buf0: Blocks, buf: Blocks, dirty: set<int>, buf': Blocks, dirty': set<int>, t: Tree,
                 k: Tree, nr: int, lvl: nat)
    requires g.kv > 0 && lvl > 1 && KidsReady(buf0, buf, dirty, t, [k], lvl, g)
    requires k.bid in buf && Ok(buf[k.bid])
    requires dirty + {nr} <= dirty' && nr !in buf && nr in buf' && Within(buf, buf', {t.bid})
    requires Ok(buf'[nr]) && buf'[nr].root && buf'[nr].level == lvl - 1 && |buf'[nr].slots| == g.Cap(true)
    requires Entries(buf'[nr]) == Entries(buf[k.bid])
    ensures var p := Slice(k, nr, 0, |NodeEntries(k)|);
            && Good(buf', p, lvl - 1, g, true) && Sep(p) && p.bid == nr && Flat(p) == Flat(k)
            && Accounted(buf0, buf', dirty', Bids(p), Bids(t))
  {
    hide Flat, FlatAll, BidsAll, SepAll, NodeEntries, EntriesOf;
    SliceAll(k, nr);
    One(k);
    OwnBids(k);
    OwnBids(t);
    var p := Slice(k, nr, 0, |NodeEntries(k)|);
    OwnBids(p);
    var ks := [k];
    assert ks[0] == k;
    GoodBids(buf, k, lvl - 1, g, false);
    NoTrees();
    PieceGood(buf, buf', p, lvl - 1, g, true);
  }

  /** An empty root in a fresh block. */
  lemma EmptyRoot(g: Geometry, buf0: Blocks, buf': Blocks, dirty': set<int>, own: set<int>, nr: int, lvl: nat)
    requires g.kv > 0 && lvl >= 1 && nr in buf' && nr !in buf0 && nr in dirty'
    requires buf'[nr].nentry == 0 && buf'[nr].root && buf'[nr].level == lvl && |buf'[nr].slots| == g.Cap(true)
    ensures var p := if lvl == 1 then Leaf(nr, []) else Index(nr, []);
            Good(buf', p, lvl, g, true) && Sep(p) && Flat(p) == [] && Accounted(buf0, buf', dirty', Bids(p), own)
  {
    NoTrees();
  }
}
