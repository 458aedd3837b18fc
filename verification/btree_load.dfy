/** Bottom-up bulk loading (`btree_init_and_load`, src/btree.cc).

    Keys arrive in ascending order.  Each level has at most one open node; a node that
    gets its first entry is announced to the level above, and a node that is full is
    closed. */
module BTreeLoad {
  import opened Arith
  import opened Options
  import opened BTreeNode
  import opened BTreeTree
  import opened BTreeStore
  import opened BTreeStep
  import opened BTreeOps

  function Pow(b: nat, e: nat): nat {
    if e == 0 then 1 else b * Pow(b, e - 1)
  }

  /** Finished subtrees: they can take no more keys. */
  ghost predicate Complete(buf: Blocks, ts: seq<Tree>, lvl: nat, g: Geometry)
    requires g.kv > 0 && g.Cap(false) >= 2
  {
    GoodAll(buf, ts, lvl, g) && forall i :: 0 <= i < |ts| ==> |Flat(ts[i])| == Pow(g.Cap(false), lvl)
  }

  /** The last node of level lvl of a tree under construction, and everything to the
      right of it: all children but the last are complete, and a level is open exactly
      when its last node still has room. */
  ghost predicate Spine(buf: Blocks, t: Tree, lvl: nat, h: nat, g: Geometry, cur: seq<Option<int>>)
    requires g.kv > 0 && g.Cap(false) >= 2
    decreases t
  {
    && 1 <= lvl <= h <= |cur|
    && Holds(buf, t, lvl, g, lvl == h)
    && buf[t.bid].nentry >= 1
    && cur[lvl - 1] == (if buf[t.bid].nentry >= g.Cap(false) then None else Some(t.bid))
    && (t.Leaf? <==> lvl == 1)
    && (t.Index? ==>
          && |t.kids| >= 1
          && Complete(buf, t.kids[..|t.kids| - 1], lvl - 1, g)
          && Spine(buf, t.kids[|t.kids| - 1], lvl - 1, h, g, cur))
  }

  ghost predicate LoadGeometry(g: Geometry) {
    g.kv > 0 && g.Cap(false) >= 2 && 1 <= g.Cap(true) <= g.Cap(false)
  }

  lemma {:induction false} SpineGood(buf: Blocks, t: Tree, lvl: nat, h: nat, g: Geometry, cur: seq<Option<int>>)
    requires LoadGeometry(g) && Spine(buf, t, lvl, h, g, cur)
    ensures Good(buf, t, lvl, g, lvl == h)
    decreases t
  {
    hide Holds, Flat, Pow;
    if t.Index? {
      var n := |t.kids|;
      SpineGood(buf, t.kids[n - 1], lvl - 1, h, g, cur);
      assert forall i :: 0 <= i < n - 1 ==> t.kids[i] == t.kids[..n - 1][i];
    }
  }

  ghost function Last(t: Tree): Tree
    requires t.Index? && t.kids != []
  {
    t.kids[|t.kids| - 1]
  }

  lemma {:induction false} FlatEqual(ts: seq<Tree>, size: nat)
    requires forall i :: 0 <= i < |ts| ==> |Flat(ts[i])| == size
    ensures |FlatAll(ts)| == |ts| * size
  {
    if ts != [] { FlatEqual(ts[1..], size); }
  }

  /** Size of a spine node: everything but its last child is complete. */
  lemma SpineSize(buf: Blocks, t: Tree, lvl: nat, h: nat, g: Geometry, cur: seq<Option<int>>)
    requires LoadGeometry(g) && Spine(buf, t, lvl, h, g, cur) && t.Index?
    ensures |Flat(t)| == (buf[t.bid].nentry - 1) * Pow(g.Cap(false), lvl - 1) + |Flat(Last(t))|
    ensures buf[t.bid].nentry == |t.kids|
  {
    hide Flat, Pow;
    var n := |t.kids|;
    Cut(t.kids, n - 1);
    NoTrees();
    assert t.kids[n..] == [];
    FlatEqual(t.kids[..n - 1], Pow(g.Cap(false), lvl - 1));
    IndexFlat(t);
  }

  lemma IndexFlat(t: Tree)
    requires t.Index?
    ensures Flat(t) == FlatAll(t.kids)
  {
  }

  /** If this level and all levels below are closed, the node is complete. */
  lemma {:induction false} SpineFull(buf: Blocks, t: Tree, lvl: nat, h: nat, g: Geometry, cur: seq<Option<int>>)
    requires LoadGeometry(g) && Spine(buf, t, lvl, h, g, cur) && forall j :: 0 <= j < lvl ==> cur[j].None?
    requires lvl < h
    ensures |Flat(t)| == Pow(g.Cap(false), lvl)
    decreases t
  {
    if t.Index? {
      SpineFull(buf, Last(t), lvl - 1, h, g, cur);
      SpineSize(buf, t, lvl, h, g, cur);
      assert buf[t.bid].nentry == g.Cap(false);
      FullSize(g.Cap(false), Pow(g.Cap(false), lvl - 1));
    } else {
      assert Pow(g.Cap(false), 1) == g.Cap(false) * Pow(g.Cap(false), 0);
    }
  }

  lemma FullSize(cap: int, p: int)
    ensures (cap - 1) * p + p == cap * p
  {
  }

  lemma SpineNonempty(buf: Blocks, t: Tree, lvl: nat, h: nat, g: Geometry, cur: seq<Option<int>>)
    requires LoadGeometry(g) && Spine(buf, t, lvl, h, g, cur)
    ensures Flat(t) != []
  {
    hide Flat, Pow;
    SpineGood(buf, t, lvl, h, g, cur);
    GoodNonempty(buf, t, lvl, g, lvl == h);
    assert |Entries(buf[t.bid])| >= 1;
  }

  // ----- adding one entry at the lowest open level -----

  /** t with entry e added to its last leaf (at == 1), or with the new subtree c added
      under its last node of level at. */
  ghost function Append(t: Tree, lvl: nat, at: nat, c: Tree, e: Entry): Tree
    decreases t
  {
    match t
    case Leaf(b, kvs) => Leaf(b, kvs + [e])
    case Index(b, kids) =>
      if lvl <= at then Index(b, kids + [c])
      else if kids == [] then t
      else Index(b, kids[..|kids| - 1] + [Append(kids[|kids| - 1], lvl - 1, at, c, e)])
  }

  /** The last node of level at. */
  ghost function SpineNode(t: Tree, lvl: nat, at: nat): Tree
    decreases t
  {
    if lvl <= at || t.Leaf? || t.kids == [] then t else SpineNode(t.kids[|t.kids| - 1], lvl - 1, at)
  }

  lemma {:induction false} SpineNodeHolds(buf: Blocks, t: Tree, lvl: nat, h: nat, g: Geometry, cur: seq<Option<int>>,
                                          at: nat)
    requires LoadGeometry(g) && Spine(buf, t, lvl, h, g, cur) && 1 <= at <= lvl
    ensures Spine(buf, SpineNode(t, lvl, at), at, h, g, cur)
    ensures SpineNode(t, lvl, at).bid in Bids(t)
    decreases t
  {
    hide Holds, Good, Flat, Pow;
    OwnBids(t);
    if at < lvl {
      SpineNodeHolds(buf, Last(t), lvl - 1, h, g, cur, at);
      BidsMember(t.kids, |t.kids| - 1);
    }
  }

  lemma {:induction false} AppendFlat(t: Tree, lvl: nat, at: nat, c: Tree, e: Entry, buf: Blocks, h: nat, g: Geometry,
                                      cur: seq<Option<int>>)
    requires LoadGeometry(g) && Spine(buf, t, lvl, h, g, cur) && 1 <= at <= lvl
    requires at > 1 ==> Flat(c) == [e]
    ensures Flat(Append(t, lvl, at, c, e)) == Flat(t) + [e]
    ensures Append(t, lvl, at, c, e).bid == t.bid
    ensures MinKey(Append(t, lvl, at, c, e)) == MinKey(t)
    decreases t
  {
    hide Holds, Good, Pow, FlatAll;
    SpineNonempty(buf, t, lvl, h, g, cur);
    if t.Index? {
      if lvl <= at {
        FlatConcat(t.kids, [c]);
        One(c);
      } else {
        AppendFlat(Last(t), lvl - 1, at, c, e, buf, h, g, cur);
        LastFlat(t, Append(Last(t), lvl - 1, at, c, e), e);
      }
    }
  }

  lemma LastFlat(t: Tree, a: Tree, e: Entry)
    requires t.Index? && t.kids != [] && Flat(a) == Flat(Last(t)) + [e]
    ensures FlatAll(t.kids[..|t.kids| - 1] + [a]) == FlatAll(t.kids) + [e]
  {
    hide Flat, FlatAll;
    var n := |t.kids|;
    Cut(t.kids, n - 1);
    NoTrees();
    assert t.kids[n..] == [];
    FlatConcat(t.kids[..n - 1], [a]);
    One(a);
    assert FlatAll(t.kids[..n - 1]) + (Flat(Last(t)) + [e]) == FlatAll(t.kids[..n - 1]) + Flat(Last(t)) + [e];
  }

  /** One entry has been added to the open node of level at; the levels below it were
      closed and now hold the new chain c. */
  ghost predicate Appended(buf: Blocks, buf': Blocks, cur: seq<Option<int>>, cur': seq<Option<int>>, b: int,
                           h: nat, g: Geometry, at: nat, c: Tree, e: Entry)
    requires g.kv > 0 && g.Cap(false) >= 2
  {
    && 1 <= at <= h <= |cur| == |cur'|
    && (forall j :: 0 <= j < at - 1 ==> cur[j].None?)
    && (forall j :: at <= j < h ==> cur'[j] == cur[j])
    && b in buf && b in buf' && Ok(buf[b]) && Ok(buf'[b])
    && buf'[b] == buf[b].(nentry := buf[b].nentry + 1, slots := buf'[b].slots)
    && |buf'[b].slots| == |buf[b].slots|
    && Entries(buf'[b]) == Entries(buf[b]) + [if at == 1 then e else Entry(e.key, c.bid)]
    && cur'[at - 1] == (if buf'[b].nentry >= g.Cap(false) then None else Some(b))
    && (at > 1 ==> Spine(buf', c, at - 1, h, g, cur') && Flat(c) == [e])
    && Within(buf, buf', {b})
  }

  lemma {:induction false} AppendSpine(buf: Blocks, buf': Blocks, cur: seq<Option<int>>, cur': seq<Option<int>>,
                                       t: Tree, lvl: nat, h: nat, g: Geometry, at: nat, c: Tree, e: Entry)
    requires LoadGeometry(g) && Spine(buf, t, lvl, h, g, cur) && Sep(t) && at <= lvl
    requires Appended(buf, buf', cur, cur', SpineNode(t, lvl, at).bid, h, g, at, c, e)
    ensures Spine(buf', Append(t, lvl, at, c, e), lvl, h, g, cur')
    decreases t
  {
    hide Holds, Good, Pow, FlatAll, Flat;
    if lvl == at {
      AppendHere(buf, buf', cur, cur', t, lvl, h, g, c, e);
    } else {
      OwnBids(t);
      Cut(t.kids, |t.kids| - 1);
      AppendSpine(buf, buf', cur, cur', Last(t), lvl - 1, h, g, at, c, e);
      AppendAbove(buf, buf', cur, cur', t, lvl, h, g, at, c, e);
    }
  }

  /** Children that were complete before stay complete. */
  lemma KidsKept(buf: Blocks, buf': Blocks, b: int, ts: seq<Tree>, lvl: nat, g: Geometry)
    requires g.kv > 0 && GoodAll(buf, ts, lvl, g) && Within(buf, buf', {b}) && b !in BidsAll(ts)
    ensures GoodAll(buf', ts, lvl, g)
  {
    GoodBidsAll(buf, ts, lvl, g);
    GoodFrameAll(buf, buf', ts, lvl, g);
  }

  lemma AppendHere(buf: Blocks, buf': Blocks, cur: seq<Option<int>>, cur': seq<Option<int>>, t: Tree, lvl: nat, h: nat,
                   g: Geometry, c: Tree, e: Entry)
    requires LoadGeometry(g) && Spine(buf, t, lvl, h, g, cur) && Sep(t)
    requires Appended(buf, buf', cur, cur', t.bid, h, g, lvl, c, e)
    ensures Spine(buf', Append(t, lvl, lvl, c, e), lvl, h, g, cur')
  {
    hide Pow, FlatAll, Flat, Good, Holds, Complete;
    AppendHolds(buf, buf', cur, cur', t, lvl, h, g, c, e);
    if t.Index? {
      OwnBids(t);
      var n := |t.kids|;
      SpineGood(buf, Last(t), lvl - 1, h, g, cur);
      SpineFull(buf, Last(t), lvl - 1, h, g, cur);
      assert t.kids[..n - 1] + [Last(t)] == t.kids;
      CompleteGrow(buf, t.kids[..n - 1], Last(t), lvl - 1, g);
      CompleteKept(buf, buf', t.bid, t.kids, lvl - 1, g);
      assert (t.kids + [c])[..n] == t.kids;
    }
  }

  lemma CompleteGrow(buf: Blocks, ts: seq<Tree>, k: Tree, lvl: nat, g: Geometry)
    requires LoadGeometry(g) && Complete(buf, ts, lvl, g) && Good(buf, k, lvl, g, false)
             && |Flat(k)| == Pow(g.Cap(false), lvl)
    ensures Complete(buf, ts + [k], lvl, g)
  {
    hide Good, Flat, Pow;
  }

  lemma CompleteKept(buf: Blocks, buf': Blocks, b: int, ts: seq<Tree>, lvl: nat, g: Geometry)
    requires LoadGeometry(g) && Complete(buf, ts, lvl, g) && Within(buf, buf', {b}) && b !in BidsAll(ts)
    ensures Complete(buf', ts, lvl, g)
  {
    hide Good, Flat, Pow, BidsAll;
    KidsKept(buf, buf', b, ts, lvl, g);
  }

  lemma AppendHolds(buf: Blocks, buf': Blocks, cur: seq<Option<int>>, cur': seq<Option<int>>, t: Tree, lvl: nat, h: nat,
                    g: Geometry, c: Tree, e: Entry)
    requires LoadGeometry(g) && Spine(buf, t, lvl, h, g, cur)
    requires Appended(buf, buf', cur, cur', t.bid, h, g, lvl, c, e)
    ensures Holds(buf', Append(t, lvl, lvl, c, e), lvl, g, lvl == h)
  {
    hide Pow, FlatAll, Flat, Good, Complete, EntriesOf;
    if t.Index? { EntriesGrow(t.kids, c); }
  }

  lemma EntriesGrow(ts: seq<Tree>, c: Tree)
    ensures EntriesOf(ts + [c]) == EntriesOf(ts) + [Entry(MinKey(c), c.bid)]
  {
    hide MinKey;
  }

  lemma EntriesSame(ts: seq<Tree>, a: Tree)
    requires ts != [] && MinKey(a) == MinKey(ts[|ts| - 1]) && a.bid == ts[|ts| - 1].bid
    ensures EntriesOf(ts[..|ts| - 1] + [a]) == EntriesOf(ts)
  {
    hide MinKey;
  }

  lemma AppendAbove(buf: Blocks, buf': Blocks, cur: seq<Option<int>>, cur': seq<Option<int>>, t: Tree, lvl: nat, h: nat,
                    g: Geometry, at: nat, c: Tree, e: Entry)
    requires LoadGeometry(g) && Spine(buf, t, lvl, h, g, cur) && Sep(t) && at < lvl
    requires Appended(buf, buf', cur, cur', SpineNode(t, lvl, at).bid, h, g, at, c, e)
    requires Spine(buf', Append(Last(t), lvl - 1, at, c, e), lvl - 1, h, g, cur')
    ensures Spine(buf', Append(t, lvl, at, c, e), lvl, h, g, cur')
  {
    hide Pow, FlatAll, Flat, MinKey, BidsAll, SepAll, EntriesOf, Good, Complete, Holds, Spine, Append;
    SpineOpen(buf, t, lvl, h, g, cur);
    AppendOpen(t, lvl, at, c, e);
    var b, n := SpineNode(t, lvl, at).bid, |t.kids|;
    OwnBids(t);
    Cut(t.kids, n - 1);
    SpineNodeHolds(buf, Last(t), lvl - 1, h, g, cur, at);
    CompleteKept(buf, buf', b, t.kids[..n - 1], lvl - 1, g);
    var a := Append(Last(t), lvl - 1, at, c, e);
    AppendFlat(Last(t), lvl - 1, at, c, e, buf, h, g, cur);
    HoldsAbove(buf, buf', b, t, a, lvl, h, g);
    SpineClose(buf', t.bid, t.kids[..n - 1], a, lvl, h, g, cur');
  }

  lemma SpineOpen(buf: Blocks, t: Tree, lvl: nat, h: nat, g: Geometry, cur: seq<Option<int>>)
    requires LoadGeometry(g) && Spine(buf, t, lvl, h, g, cur)
    ensures 1 <= lvl <= h <= |cur| && Holds(buf, t, lvl, g, lvl == h) && t.bid in buf && buf[t.bid].nentry >= 1
    ensures cur[lvl - 1] == (if buf[t.bid].nentry >= g.Cap(false) then None else Some(t.bid))
    ensures t.Leaf? <==> lvl == 1
    ensures t.Index? ==> |t.kids| >= 1 && Complete(buf, t.kids[..|t.kids| - 1], lvl - 1, g)
                         && Spine(buf, Last(t), lvl - 1, h, g, cur)
  {
  }

  lemma SpineClose(buf: Blocks, bid: int, ks: seq<Tree>, a: Tree, lvl: nat, h: nat, g: Geometry, cur: seq<Option<int>>)
    requires LoadGeometry(g) && 1 < lvl <= h <= |cur| && Holds(buf, Index(bid, ks + [a]), lvl, g, lvl == h)
             && bid in buf && buf[bid].nentry >= 1
    requires cur[lvl - 1] == (if buf[bid].nentry >= g.Cap(false) then None else Some(bid))
    requires Complete(buf, ks, lvl - 1, g) && Spine(buf, a, lvl - 1, h, g, cur)
    ensures Spine(buf, Index(bid, ks + [a]), lvl, h, g, cur)
  {
    assert (ks + [a])[..|ks|] == ks;
  }

  lemma AppendOpen(t: Tree, lvl: nat, at: nat, c: Tree, e: Entry)
    requires t.Index? && t.kids != [] && at < lvl
    ensures Append(t, lvl, at, c, e) == Index(t.bid, t.kids[..|t.kids| - 1] + [Append(Last(t), lvl - 1, at, c, e)])
  {
  }

  lemma HoldsAbove(buf: Blocks, buf': Blocks, b: int, t: Tree, a: Tree, lvl: nat, h: nat, g: Geometry)
    requires LoadGeometry(g) && t.Index? && t.kids != [] && Holds(buf, t, lvl, g, lvl == h)
    requires Within(buf, buf', {b}) && b != t.bid && MinKey(a) == MinKey(Last(t)) && a.bid == Last(t).bid
    ensures Holds(buf', Index(t.bid, t.kids[..|t.kids| - 1] + [a]), lvl, g, lvl == h) && buf'[t.bid] == buf[t.bid]
  {
    hide MinKey, EntriesOf;
    EntriesSame(t.kids, a);
  }

  lemma {:induction false} AppendBids(t: Tree, lvl: nat, at: nat, c: Tree, e: Entry, buf: Blocks, h: nat, g: Geometry,
                                      cur: seq<Option<int>>)
    requires LoadGeometry(g) && Spine(buf, t, lvl, h, g, cur) && 1 <= at <= lvl && Sep(t)
    requires at > 1 ==> Sep(c) && Bids(c) !! Bids(t)
    ensures Bids(Append(t, lvl, at, c, e)) == Bids(t) + (if at > 1 then Bids(c) else {})
    ensures Sep(Append(t, lvl, at, c, e))
    decreases t
  {
    hide Holds, Good, Pow, FlatAll, Flat, BidsAll, SepAll, Complete;
    if t.Index? {
      OwnBids(t);
      OwnBids(Append(t, lvl, at, c, e));
      if lvl <= at {
        BidsConcat(t.kids, [c]);
        SepConcat(t.kids, [c]);
        One(c);
      } else {
        Cut(t.kids, |t.kids| - 1);
        NoTrees();
        AppendBids(Last(t), lvl - 1, at, c, e, buf, h, g, cur);
        LastBids(t, Append(Last(t), lvl - 1, at, c, e), if at > 1 then Bids(c) else {});
      }
    }
  }

  lemma LastBids(t: Tree, a: Tree, extra: set<int>)
    requires t.Index? && t.kids != [] && SepAll(t.kids) && Sep(a)
    requires Bids(a) == Bids(Last(t)) + extra && extra !! BidsAll(t.kids)
    ensures BidsAll(t.kids[..|t.kids| - 1] + [a]) == BidsAll(t.kids) + extra
    ensures SepAll(t.kids[..|t.kids| - 1] + [a])
  {
    hide BidsAll, SepAll, Bids, Sep;
    var n := |t.kids|;
    Cut(t.kids, n - 1);
    NoTrees();
    assert t.kids[n..] == [];
    BidsConcat(t.kids[..n - 1], [a]);
    SepConcat(t.kids[..n - 1], [a]);
    One(a);
  }

  lemma {:induction false} SpineFrame(buf: Blocks, buf': Blocks, t: Tree, lvl: nat, h: nat, g: Geometry,
                                      cur: seq<Option<int>>, cur': seq<Option<int>>)
    requires LoadGeometry(g) && Spine(buf, t, lvl, h, g, cur) && |cur'| == |cur|
    requires forall j :: 0 <= j < lvl ==> cur'[j] == cur[j]
    requires forall b :: b in Bids(t) ==> b in buf && b in buf' && buf'[b] == buf[b]
    ensures Spine(buf', t, lvl, h, g, cur')
    decreases t
  {
    hide Spine, Pow, FlatAll, Flat, BidsAll, Bids, EntriesOf, Holds, Good, Sep, SepAll;
    SpineOpen(buf, t, lvl, h, g, cur);
    OwnBids(t);
    HoldsFrame(buf, buf', t, lvl, g, lvl == h);
    if t.Index? {
      var init, last := t.kids[..|t.kids| - 1], Last(t);
      Cut(t.kids, |t.kids| - 1);
      SpineFrame(buf, buf', last, lvl - 1, h, g, cur, cur');
      GoodFrameAll(buf, buf', init, lvl - 1, g);
      assert t == Index(t.bid, init + [last]);
      SpineClose(buf', t.bid, init, last, lvl, h, g, cur');
    } else {
      SpineLeaf(buf', t, h, g, cur');
    }
  }

  lemma SpineLeaf(buf: Blocks, t: Tree, h: nat, g: Geometry, cur: seq<Option<int>>)
    requires LoadGeometry(g) && t.Leaf? && 1 <= h <= |cur| && Holds(buf, t, 1, g, 1 == h) && t.bid in buf
             && buf[t.bid].nentry >= 1
    requires cur[0] == (if buf[t.bid].nentry >= g.Cap(false) then None else Some(t.bid))
    ensures Spine(buf, t, 1, h, g, cur)
  {
  }

  lemma HoldsFrame(buf: Blocks, buf': Blocks, t: Tree, lvl: nat, g: Geometry, root: bool)
    requires g.kv > 0 && Holds(buf, t, lvl, g, root) && t.bid in buf' && buf'[t.bid] == buf[t.bid]
    ensures Holds(buf', t, lvl, g, root)
  {
  }

  /** A new level of the chain of one-entry nodes above a new leaf. */
  lemma ChainUp(buf: Blocks, c: Tree, lvl: nat, h: nat, g: Geometry, cur: seq<Option<int>>, e: Entry, buf': Blocks,
                b: int)
    requires LoadGeometry(g) && 1 <= lvl <= h == |cur|
    requires lvl > 1 ==> Spine(buf, c, lvl - 1, h, g, cur) && Sep(c) && Flat(c) == [e] && Bids(c) <= buf.Keys
    requires b !in buf && b in buf' && Within(buf, buf', {}) && Ok(buf'[b])
    requires buf'[b].level == lvl && buf'[b].root == (lvl == h) && |buf'[b].slots| == g.Cap(lvl == h)
             && buf'[b].nentry == 1
    requires Entries(buf'[b]) == [if lvl == 1 then e else Entry(e.key, c.bid)]
    ensures var c' := if lvl == 1 then Leaf(b, [e]) else Index(b, [c]);
            && Spine(buf', c', lvl, h, g, cur[lvl - 1 := Some(b)]) && Sep(c') && Flat(c') == [e]
            && Bids(c') == {b} + if lvl > 1 then Bids(c) else {}
  {
    if lvl > 1 {
      hide Pow, FlatAll, BidsAll, Flat, Spine, Sep, SepAll, Holds, EntriesOf, MinKey;
      var c', cur' := Index(b, [c]), cur[lvl - 1 := Some(b)];
      SpineFrame(buf, buf', c, lvl - 1, h, g, cur, cur');
      One(c);
      OwnBids(c');
      IndexFlat(c');
      ChainHolds(buf', b, c, lvl, h, g, e);
      NoneComplete(buf', lvl - 1, g);
      assert [] + [c] == [c];
      SpineClose(buf', b, [], c, lvl, h, g, cur');
    }
  }

  lemma ChainHolds(buf: Blocks, b: int, c: Tree, lvl: nat, h: nat, g: Geometry, e: Entry)
    requires LoadGeometry(g) && lvl > 1 && b in buf && Ok(buf[b]) && Flat(c) == [e]
    requires buf[b].level == lvl && buf[b].root == (lvl == h) && |buf[b].slots| == g.Cap(lvl == h) && buf[b].nentry == 1
    requires Entries(buf[b]) == [Entry(e.key, c.bid)]
    ensures Holds(buf, Index(b, [c]), lvl, g, lvl == h)
  {
    hide Flat, EntriesOf;
    EntriesFew([c]);
  }

  lemma NoneComplete(buf: Blocks, lvl: nat, g: Geometry)
    requires g.kv > 0 && g.Cap(false) >= 2
    ensures Complete(buf, [], lvl, g)
  {
  }

  /** A tree of height h has room for more than n keys. */
  ghost predicate Room(g: Geometry, h: nat, n: nat)
    requires LoadGeometry(g) && h > 0
  {
    n < g.Cap(true) * Pow(g.Cap(false), h - 1)
  }

  /** While keys remain, the root has room whenever all levels below it are closed. */
  lemma RootOpen(buf: Blocks, t: Tree, h: nat, g: Geometry, cur: seq<Option<int>>)
    requires LoadGeometry(g) && Spine(buf, t, h, h, g, cur) && forall j :: 0 <= j < h - 1 ==> cur[j].None?
    requires Room(g, h, |Flat(t)|)
    ensures cur[h - 1] == Some(t.bid) && buf[t.bid].nentry < g.Cap(true)
  {
    RootSize(buf, t, h, g, cur);
    hide Pow, Flat, Complete;
    MulLess(buf[t.bid].nentry, g.Cap(true), Pow(g.Cap(false), h - 1));
  }

  /** With all levels below closed, every child of the root holds its full share. */
  lemma RootSize(buf: Blocks, t: Tree, h: nat, g: Geometry, cur: seq<Option<int>>)
    requires LoadGeometry(g) && Spine(buf, t, h, h, g, cur) && forall j :: 0 <= j < h - 1 ==> cur[j].None?
    ensures t.bid in buf && |Flat(t)| == buf[t.bid].nentry * Pow(g.Cap(false), h - 1)
  {
    if h > 1 {
      hide Flat, Pow, FlatAll, MinKey, EntriesOf, Complete, Holds;
      SpineFull(buf, Last(t), h - 1, h, g, cur);
      SpineSize(buf, t, h, h, g, cur);
      FullSize(buf[t.bid].nentry, Pow(g.Cap(false), h - 1));
    } else {
      RootLeaf(buf, t, h, g, cur);
      assert Pow(g.Cap(false), 0) == 1;
    }
  }

  lemma RootLeaf(buf: Blocks, t: Tree, h: nat, g: Geometry, cur: seq<Option<int>>)
    requires LoadGeometry(g) && Spine(buf, t, 1, h, g, cur)
    ensures t.bid in buf && |Flat(t)| == buf[t.bid].nentry
  {
    assert |Entries(buf[t.bid])| == buf[t.bid].nentry;
  }

  // ----- the loader -----

  /** The keys `done` have been loaded into tree t, whose last nodes are described by cur. */
  ghost predicate Loaded(blk: BlockStore, t: Tree, h: nat, g: Geometry, cur: seq<Option<int>>, done: seq<Entry>)
    requires LoadGeometry(g)
    reads blk
  {
    && Spine(blk.buf, t, h, h, g, cur)
    && Sep(t)
    && Flat(t) == done
    && Backed(blk.buf, blk.disk, blk.dirty, t, g)
  }

  /** The blocks of t that are not going to be written back are full and on disk. */
  ghost predicate Backed(buf: Blocks, disk: Blocks, dirty: set<int>, t: Tree, g: Geometry)
    requires LoadGeometry(g)
  {
    && (forall b :: b in Bids(t) ==> b in buf)
    && (forall b :: b in Bids(t) && b !in dirty ==> b in disk && disk[b] == buf[b] && buf[b].nentry >= g.Cap(false))
  }

  ghost predicate Chain(blk: BlockStore, buf0: Blocks, c: Tree, jj: nat, h: nat, g: Geometry, cur: seq<Option<int>>,
                        e: Entry)
    requires LoadGeometry(g)
    reads blk
  {
    && Spine(blk.buf, c, jj, h, g, cur)
    && Sep(c)
    && Flat(c) == [e]
    && Bids(c) <= blk.dirty
    && Bids(c) !! buf0.Keys
  }

  /** A new one-entry node for level jj + 1. */
  method NewNode(blk: BlockStore, g: Geometry, h: nat, cur: seq<Option<int>>, jj: nat, e: Entry, cbid: int,
                 ghost c: Tree, ghost buf0: Blocks)
    returns (b: int, cur': seq<Option<int>>, ghost c': Tree)
    requires LoadGeometry(g) && blk.Valid() && jj < h == |cur| && Within(buf0, blk.buf, {})
    requires jj > 0 ==> Chain(blk, buf0, c, jj, h, g, cur, e) && cbid == c.bid
    modifies blk
    ensures blk.Valid() && Within(buf0, blk.buf, {}) && blk.disk == old(blk.disk) && old(blk.dirty) <= blk.dirty
    ensures old(blk.writable) <= blk.writable && (blk.writable - old(blk.writable)) !! blk.disk.Keys
    ensures cur' == cur[jj := Some(b)] && b == c'.bid && Chain(blk, buf0, c', jj + 1, h, g, cur', e)
  {
    hide Spine, Flat, Holds;
    ghost var buf1 := blk.buf;
    if jj > 0 { ChainBids(buf1, c, jj, h, g, cur); }
    var n := InitNode(g, jj + 1, jj + 1 == h);
    n := SetKv(n, 0, if jj == 0 then e else Entry(e.key, cbid)).(nentry := 1);
    assert Entries(n) == [if jj == 0 then e else Entry(e.key, cbid)];
    b := blk.Alloc(n);
    cur' := cur[jj := Some(b)];
    ChainUp(buf1, c, jj + 1, h, g, cur, e, blk.buf, b);
    c' := if jj == 0 then Leaf(b, [e]) else Index(b, [c]);
  }

  lemma ChainBids(buf: Blocks, c: Tree, lvl: nat, h: nat, g: Geometry, cur: seq<Option<int>>)
    requires LoadGeometry(g) && Spine(buf, c, lvl, h, g, cur)
    ensures Bids(c) <= buf.Keys
  {
    hide Spine;
    SpineGood(buf, c, lvl, h, g, cur);
    GoodBids(buf, c, lvl, g, lvl == h);
  }

  /** Everything the tree keeps when an entry is appended at one level. */
  lemma AppendLoaded(buf: Blocks, buf': Blocks, cur: seq<Option<int>>, cur': seq<Option<int>>, t: Tree, h: nat,
                     g: Geometry, at: nat, c: Tree, e: Entry)
    requires LoadGeometry(g) && Spine(buf, t, h, h, g, cur) && Sep(t) && 1 <= at <= h
             && (at > 1 ==> Sep(c) && Bids(c) !! Bids(t))
    requires Appended(buf, buf', cur, cur', SpineNode(t, h, at).bid, h, g, at, c, e)
    ensures var t' := Append(t, h, at, c, e);
            && Spine(buf', t', h, h, g, cur') && Flat(t') == Flat(t) + [e] && t'.bid == t.bid && Sep(t')
            && Bids(t') == Bids(t) + (if at > 1 then Bids(c) else {})
  {
    hide Spine, Flat, Sep, Bids, Append;
    AppendSpine(buf, buf', cur, cur', t, h, h, g, at, c, e);
    AppendFlat(t, h, at, c, e, buf, h, g, cur);
    AppendBids(t, h, at, c, e, buf, h, g, cur);
  }

  /** The entry stands behind the last one of the open node of level jj + 1, which is
      written back when it is full. */
  ghost predicate LastPut(buf: Blocks, disk: Blocks, dirty: set<int>, cur: seq<Option<int>>, jj: nat, g: Geometry,
                          entry: Entry, buf': Blocks, disk': Blocks, dirty': set<int>, cur': seq<Option<int>>)
    requires LoadGeometry(g) && jj < |cur| && cur[jj].Some?
  {
    var b := cur[jj].value;
    && b in buf && b in buf' && buf' == buf[b := buf'[b]] && Ok(buf[b]) && Ok(buf'[b])
    && buf'[b] == buf[b].(nentry := buf[b].nentry + 1, slots := buf'[b].slots)
    && |buf'[b].slots| == |buf[b].slots| && Entries(buf'[b]) == Entries(buf[b]) + [entry]
    && var full := buf'[b].nentry >= g.Cap(false);
    && cur' == (if full then cur[jj := None] else cur)
    && disk' == (if full then disk[b := buf'[b]] else disk)
    && dirty' == (if full then dirty - {b} else dirty)
  }

  method PutLast(blk: BlockStore, g: Geometry, cur: seq<Option<int>>, jj: nat, entry: Entry)
    returns (cur': seq<Option<int>>)
    requires LoadGeometry(g) && blk.Valid() && jj < |cur| && cur[jj].Some? && cur[jj].value in blk.dirty
    requires var n := blk.buf[cur[jj].value]; Ok(n) && n.nentry < |n.slots|
    modifies blk
    ensures blk.Valid() && blk.writable == old(blk.writable)
    ensures LastPut(old(blk.buf), old(blk.disk), old(blk.dirty), cur, jj, g, entry, blk.buf, blk.disk, blk.dirty, cur')
  {
    var b := cur[jj].value;
    var n := blk.buf[b];
    n := SetKv(n, n.nentry, entry);
    n := n.(nentry := n.nentry + 1);
    assert Entries(n) == Entries(blk.buf[b]) + [entry];
    blk.Edit(b, n);
    cur' := cur;
    if n.nentry >= g.Cap(false) {
      blk.WriteDone(b);
      cur' := cur[jj := None];
    }
  }

  /** The open node of level jj + 1 has room and is going to be written back. */
  lemma OpenAt(buf: Blocks, disk: Blocks, dirty: set<int>, t: Tree, h: nat, g: Geometry, cur: seq<Option<int>>, jj: nat)
    requires LoadGeometry(g) && jj < h == |cur| && Spine(buf, t, h, h, g, cur) && Backed(buf, disk, dirty, t, g)
    requires (forall j :: 0 <= j < jj ==> cur[j].None?) && cur[jj].Some? && Room(g, h, |Flat(t)|)
    ensures var b := SpineNode(t, h, jj + 1).bid;
            cur[jj].value == b && b in Bids(t) && b in dirty && Ok(buf[b]) && buf[b].nentry < |buf[b].slots|
  {
    hide Spine, Flat, Holds, Bids, Pow, SpineNode, Room, Ok;
    var s := SpineNode(t, h, jj + 1);
    SpineNodeHolds(buf, t, h, h, g, cur, jj + 1);
    OpenNode(buf, s, jj + 1, h, g, cur);
    if jj + 1 == h {
      RootOpen(buf, t, h, g, cur);
      SpineTop(t, h);
    }
  }

  lemma PutAppended(buf: Blocks, disk: Blocks, dirty: set<int>, cur: seq<Option<int>>, jj: nat, h: nat, g: Geometry,
                    c: Tree, e: Entry, buf': Blocks, disk': Blocks, dirty': set<int>, cur': seq<Option<int>>,
                    cur0: seq<Option<int>>)
    requires LoadGeometry(g) && jj < h == |cur| == |cur0| && cur[jj].Some?
    requires var entry := if jj == 0 then e else Entry(e.key, c.bid);
             LastPut(buf, disk, dirty, cur, jj, g, entry, buf', disk', dirty', cur')
    requires (forall j :: 0 <= j < jj ==> cur0[j].None?) && forall j :: jj <= j < h ==> cur[j] == cur0[j]
    requires jj > 0 ==> Spine(buf, c, jj, h, g, cur) && Flat(c) == [e] && cur[jj].value !in Bids(c)
    ensures Appended(buf, buf', cur0, cur', cur[jj].value, h, g, jj + 1, c, e)
  {
    hide Spine, Flat, Bids, Ok, Entries;
    if jj > 0 {
      ChainBids(buf, c, jj, h, g, cur);
      SpineFrame(buf, buf', c, jj, h, g, cur, cur');
    }
  }

  lemma PutBacked(buf: Blocks, disk: Blocks, dirty: set<int>, cur: seq<Option<int>>, jj: nat, g: Geometry, entry: Entry,
                  buf': Blocks, disk': Blocks, dirty': set<int>, cur': seq<Option<int>>, t: Tree, t': Tree,
                  more: set<int>)
    requires LoadGeometry(g) && jj < |cur| && cur[jj].Some? && Backed(buf, disk, dirty, t, g)
    requires LastPut(buf, disk, dirty, cur, jj, g, entry, buf', disk', dirty', cur')
    requires Bids(t') == Bids(t) + more && more <= dirty && more <= buf.Keys && cur[jj].value in dirty
    ensures Backed(buf', disk', dirty', t', g)
  {
    hide Bids, Ok, Entries;
  }

  /** Add the new entry to the open node of level jj + 1 and close it if it is full. */
  method AppendEntry(blk: BlockStore, g: Geometry, h: nat, ghost cur0: seq<Option<int>>, cur: seq<Option<int>>, jj: nat,
                     e: Entry, cbid: int,
                     ghost c: Tree, ghost t: Tree, ghost done: seq<Entry>, ghost buf0: Blocks)
    returns (cur': seq<Option<int>>, ghost t': Tree)
    requires LoadGeometry(g) && blk.Valid() && jj < h == |cur| == |cur0|
    requires Within(buf0, blk.buf, {}) && Bids(t) <= buf0.Keys && Loaded(blk, t, h, g, cur0, done)
    requires forall j :: 0 <= j < jj ==> cur0[j].None?
    requires forall j :: jj <= j < h ==> cur[j] == cur0[j]
    requires cur[jj].Some? && Room(g, h, |done|)
    requires jj > 0 ==> Chain(blk, buf0, c, jj, h, g, cur, e) && cbid == c.bid
    modifies blk
    ensures blk.Valid() && Loaded(blk, t', h, g, cur', done + [e]) && t'.bid == t.bid && |cur'| == h
    ensures blk.writable == old(blk.writable) && old(blk.disk).Keys <= blk.disk.Keys
    ensures forall b :: b in old(blk.disk) && b !in old(blk.writable) ==> blk.disk[b] == old(blk.disk)[b]
  {
    hide Spine, Flat, Holds, Sep, Bids, Pow, SpineNode, Append, Room, LastPut, Backed, Appended, Ok, Entries;
    ghost var buf1, disk1, dirty1 := blk.buf, blk.disk, blk.dirty;
    OpenAt(buf1, disk1, dirty1, t, h, g, cur0, jj);
    var entry := if jj == 0 then e else Entry(e.key, cbid);
    cur' := PutLast(blk, g, cur, jj, entry);
    PutOnly(buf1, disk1, dirty1, cur, jj, g, entry, blk.buf, blk.disk, blk.dirty, cur');
    PutAppended(buf1, disk1, dirty1, cur, jj, h, g, c, e, blk.buf, blk.disk, blk.dirty, cur', cur0);
    t' := Append(t, h, jj + 1, c, e);
    AppendLoaded(buf1, blk.buf, cur0, cur', t, h, g, jj + 1, c, e);
    PutBacked(buf1, disk1, dirty1, cur, jj, g, entry, blk.buf, blk.disk, blk.dirty, cur', t, t',
              if jj > 0 then Bids(c) else {});
  }

  lemma PutOnly(buf: Blocks, disk: Blocks, dirty: set<int>, cur: seq<Option<int>>, jj: nat, g: Geometry, entry: Entry,
                buf': Blocks, disk': Blocks, dirty': set<int>, cur': seq<Option<int>>)
    requires LoadGeometry(g) && jj < |cur| && cur[jj].Some?
    requires LastPut(buf, disk, dirty, cur, jj, g, entry, buf', disk', dirty', cur')
    ensures |cur'| == |cur| && disk.Keys <= disk'.Keys
    ensures forall b :: b in disk && b != cur[jj].value ==> disk'[b] == disk[b]
  {
  }

  lemma SpineTop(t: Tree, h: nat)
    ensures SpineNode(t, h, h) == t
  {
  }

  lemma OpenNode(buf: Blocks, s: Tree, at: nat, h: nat, g: Geometry, cur: seq<Option<int>>)
    requires LoadGeometry(g) && Spine(buf, s, at, h, g, cur) && cur[at - 1].Some?
    ensures cur[at - 1].value == s.bid && s.bid in buf && Ok(buf[s.bid]) && buf[s.bid].nentry < g.Cap(false)
    ensures |buf[s.bid].slots| == g.Cap(at == h)
  {
  }

  /** Committed blocks are as they were in disk0. */
  ghost predicate Keeps(blk: BlockStore, disk0: Blocks, writable0: set<int>)
    reads blk
  {
    && disk0.Keys <= blk.disk.Keys
    && (forall b :: b in disk0 && b !in writable0 ==> blk.disk[b] == disk0[b])
    && writable0 <= blk.writable
    && (blk.writable - writable0) !! disk0.Keys
  }

  /** One round of the loader: the inner loop over levels for one key. */
  method AddKey(blk: BlockStore, g: Geometry, h: nat, cur0: seq<Option<int>>, root0: int, e: Entry, ghost t: Tree,
                ghost done: seq<Entry>,
                ghost disk0: Blocks, ghost writable0: set<int>)
    returns (cur: seq<Option<int>>, root: int, ghost t': Tree)
    requires LoadGeometry(g) && blk.Valid() && |cur0| == h >= 1 && Keeps(blk, disk0, writable0)
    requires done == [] ==> forall j :: 0 <= j < h ==> cur0[j].None?
    requires done != [] ==> Loaded(blk, t, h, g, cur0, done) && root0 == t.bid
    requires |done| < g.Cap(true) * Pow(g.Cap(false), h - 1)
    modifies blk
    ensures blk.Valid() && |cur| == h && Loaded(blk, t', h, g, cur, done + [e]) && root == t'.bid
            && Keeps(blk, disk0, writable0)
  {
    hide Spine, Flat, Holds, Sep, Bids, Pow;
    ghost var buf0, c := blk.buf, t;
    var jj, cbid := 0, 0;
    cur := cur0;
    while jj < h
      invariant 0 <= jj <= h == |cur| && blk.Valid() && Keeps(blk, disk0, writable0)
      invariant Within(buf0, blk.buf, {}) && old(blk.dirty) <= blk.dirty && blk.disk == old(blk.disk)
      invariant forall j :: 0 <= j < jj ==> cur0[j].None?
      invariant forall j :: jj <= j < h ==> cur[j] == cur0[j]
      invariant jj > 0 ==> Chain(blk, buf0, c, jj, h, g, cur, e) && cbid == c.bid
      invariant jj == h ==> done == []
    {
      if done != [] {
        LoadedFrame(buf0, blk.buf, t, h, g, cur0);
        if jj + 1 == h { RootOpen(blk.buf, t, h, g, cur0); }
      }
      if cur[jj].None? {
        cbid, cur, c := NewNode(blk, g, h, cur, jj, e, cbid, c, buf0);
        jj := jj + 1;
      } else {
        root := root0;
        cur, t' := AppendEntry(blk, g, h, cur0, cur, jj, e, cbid, c, t, done, buf0);
        return;
      }
    }
    root, t' := cbid, c;
    ChainBids(blk.buf, c, h, h, g, cur);
  }

  lemma LoadedFrame(buf: Blocks, buf': Blocks, t: Tree, h: nat, g: Geometry, cur: seq<Option<int>>)
    requires LoadGeometry(g) && Spine(buf, t, h, h, g, cur) && Within(buf, buf', {})
    ensures Spine(buf', t, h, h, g, cur) && Bids(t) <= buf.Keys
  {
    hide Spine;
    ChainBids(buf, t, h, h, g, cur);
    SpineFrame(buf, buf', t, h, h, g, cur, cur);
  }

  /** The number of levels when one is not enough: least h with n <= rc * cap^(h - 1). */
  method Height(n: nat, rc: nat, cap: nat) returns (h: nat)
    requires 1 <= rc < n && cap >= 2
    ensures h >= 2 && rc * Pow(cap, h - 2) < n <= rc * Pow(cap, h - 1)
  {
    h := 2;
    var room := rc * cap;
    assert Pow(cap, 1) == cap * Pow(cap, 0);
    while room < n
      invariant h >= 2 && room == rc * Pow(cap, h - 1) && room >= 1 && rc * Pow(cap, h - 2) < n
      decreases n - room
    {
      h := h + 1;
      Grow(rc, cap, h, room);
      room := room * cap;
    }
  }

  lemma Grow(rc: nat, cap: nat, h: nat, room: nat)
    requires cap >= 2 && h >= 3 && room == rc * Pow(cap, h - 2) && room >= 1
    ensures room * cap == rc * Pow(cap, h - 1) && room * cap > room
  {
    var p := Pow(cap, h - 2);
    assert Pow(cap, h - 1) == cap * p;
    assert rc * (cap * p) == (rc * p) * cap;
    MulMono(2, cap, room);
  }

  /** `btree_init_and_load`: None when the metadata does not fit a block, else the root
      block of a tree with exactly the given pairs. */
  method Load(g: Geometry, blk: BlockStore, kvs: seq<Entry>) returns (root: Option<int>, ghost h: nat, ghost t: Tree)
    requires g.kv > 0 && g.Cap(false) >= 2
    requires g.HeaderSize(true) <= g.nodesize && kvs != [] ==> g.Cap(true) >= 1
    requires blk.Valid() && Sorted(kvs)
    modifies blk
    ensures blk.Valid()
    ensures root.None? <==> g.HeaderSize(true) > g.nodesize
    ensures root.None? ==> blk.buf == old(blk.buf) && blk.disk == old(blk.disk)
    ensures root.Some? ==> t.bid == root.value && root.value in blk.buf && blk.buf[root.value].level == h
    ensures root.Some? ==> h >= 1 && Good(blk.buf, t, h, g, true) && Sep(t) && Flat(t) == kvs
    ensures root.Some? ==> forall b :: b in Bids(t) && b !in blk.dirty ==>
              b in blk.disk && b in blk.buf && blk.disk[b] == blk.buf[b]
    ensures root.Some? ==>
              |kvs| <= g.Cap(true) * Pow(g.Cap(false), h - 1)
              && (h > 1 ==> g.Cap(true) * Pow(g.Cap(false), h - 2) < |kvs|)
    ensures Keeps(blk, old(blk.disk), old(blk.writable))
  {
    hide Spine, Flat, Sep, Bids, Pow, Good;
    if g.HeaderSize(true) > g.nodesize {
      h, t := 0, Leaf(0, []);
      return None, h, t;
    }
    if |kvs| <= g.Cap(true) {
      var b;
      b, t := LoadLeaf(g, blk, kvs);
      PowZero(g.Cap(false));
      return Some(b), 1, t;
    }
    CapOrder(g);
    var height := Height(|kvs|, g.Cap(true), g.Cap(false));
    h := height;
    var cur: seq<Option<int>> := seq(height, _ => None);
    var r := 0;
    t := Leaf(0, []);
    for i := 0 to |kvs|
      invariant blk.Valid() && |cur| == height && Keeps(blk, old(blk.disk), old(blk.writable))
      invariant i == 0 ==> forall j :: 0 <= j < height ==> cur[j].None?
      invariant i > 0 ==> Loaded(blk, t, height, g, cur, kvs[..i]) && r == t.bid
    {
      cur, r, t := AddKey(blk, g, height, cur, r, kvs[i], t, kvs[..i], old(blk.disk), old(blk.writable));
      assert kvs[..i] + [kvs[i]] == kvs[..i + 1];
    }
    assert kvs[..|kvs|] == kvs;
    SpineGood(blk.buf, t, h, h, g, cur);
    GoodLevel(blk.buf, t, h, g);
    root := Some(r);
  }

  lemma PowZero(b: nat)
    ensures Pow(b, 0) == 1
  {
  }

  lemma GoodLevel(buf: Blocks, t: Tree, lvl: nat, g: Geometry)
    requires g.kv > 0 && Good(buf, t, lvl, g, true)
    ensures t.bid in buf && buf[t.bid].level == lvl
  {
  }

  /** All keys fit the root: a single leaf. */
  method LoadLeaf(g: Geometry, blk: BlockStore, kvs: seq<Entry>) returns (root: int, ghost t: Tree)
    requires g.kv > 0 && |kvs| <= g.Cap(true) && blk.Valid()
    modifies blk
    ensures blk.Valid() && t.bid == root && Good(blk.buf, t, 1, g, true) && Sep(t) && Flat(t) == kvs
            && Bids(t) <= blk.dirty
    ensures root in blk.buf && blk.buf[root].level == 1
    ensures blk.Grown()
  {
    var n := InitNode(g, 1, true);
    for i := 0 to |kvs|
      invariant n.level == 1 && n.root && |n.slots| == g.Cap(true) && n.nentry == i && Entries(n) == kvs[..i]
    {
      n := SetKv(n, n.nentry, kvs[i]);
      n := n.(nentry := n.nentry + 1);
    }
    root := blk.Alloc(n);
    t := Leaf(root, kvs);
  }

  /** Loading and reopening from the root block gives a tree with exactly the pairs. */
  method LoadAndOpen(g: Geometry, blk: BlockStore, kvs: seq<Entry>) returns (bt: BTree)
    requires g.Valid() && blk.Valid() && Sorted(kvs)
    modifies blk
    ensures bt.g == g && bt.blk == blk && bt.Valid() && bt.Contents() == ToMap(kvs)
    ensures |kvs| <= g.Cap(true) * Pow(g.Cap(false), bt.height - 1)
    ensures bt.height > 1 ==> g.Cap(true) * Pow(g.Cap(false), bt.height - 2) < |kvs|
    ensures Keeps(blk, old(blk.disk), old(blk.writable))
  {
    hide Flat, Sep, Bids, Good, Pow;
    CapAtLeastTwo(g);
    var root;
    ghost var h, t;
    root, h, t := Load(g, blk, kvs);
    bt := new BTree.FromBid(g, blk, root.value, t);
  }
}
