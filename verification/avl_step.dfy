/** Facts behind the pointer steps of the AVL tree (src/avltree.cc): what a rotation, a
    climb and a search know about memory. */
module AvlStep {
  import opened AvlTree
  import opened AvlCtx

  /** What rebalancing does to the shape: nothing while the lean is at most one; after a
      lean of two, the height of the taller child, plus one if that child was even. */
  ghost predicate Rebalanced(t: Tree, t': Tree) {
    && t.Bin?
    && t'.Bin?
    && var d := H(t.right) - H(t.left);
    && (-1 <= d <= 1 ==> t' == t)
    && (d == -2 && t.left.Bin? ==>
          var even := if H(t.left.right) == H(t.left.left) then 1 else 0;
          H(t') == H(t.left) + even && H(t'.right) - H(t'.left) == even)
    && (d == 2 && t.right.Bin? ==>
          var even := if H(t.right.right) == H(t.right.left) then 1 else 0;
          H(t') == H(t.right) + even && H(t'.right) - H(t'.left) == -even)
  }

  function Abs(n: int): int {
    if n < 0 then -n else n
  }

  /** The subtree t in context c is correct except that the balance factor stored at its
      root is off by bf; the ancestors still expect a subtree of height oldH. */
  ghost predicate Pending(m: Mem, c: Ctx, t: Tree, bf: int, oldH: int) {
    && t.Bin?
    && Apart(c, t)
    && Links(m, t.left, t.ptr, t.right, Parent(c))
    && Avl(m, t.left, t.ptr)
    && Avl(m, t.right, t.ptr)
    && -1 <= m[t.ptr].bf <= 1
    && m[t.ptr].bf + bf == H(t.right) - H(t.left)
    && Hold(m, c, t.ptr, oldH)
  }

  /** A subtree that got taller: a new leaf, or one whose root now leans. */
  ghost predicate Tall(t: Tree) {
    t.Bin? && ((t.left.Nil? && t.right.Nil?) || H(t.left) != H(t.right))
  }

  /** How an insertion shows at t: a new leaf, or one child one higher than before. */
  ghost predicate Grew(t: Tree, bf: int, oldH: int) {
    && t.Bin?
    && ((bf == 0 && t.left.Nil? && t.right.Nil? && oldH == 0)
        || (bf == -1 && Tall(t.left) && oldH == Max(H(t.left) - 1, H(t.right)) + 1)
        || (bf == 1 && Tall(t.right) && oldH == Max(H(t.left), H(t.right) - 1) + 1))
  }

  lemma PendingFacts(m: Mem, c: Ctx, t: Tree, bf: int, oldH: int)
    requires Pending(m, c, t, bf, oldH)
    ensures t.ptr in m && m[t.ptr].parent == Parent(c) && t.ptr != NULL
    ensures c.Root? <==> Parent(c) == NULL
    ensures Bin(t.left, t.ptr, t.right) == t
  {
  }

  lemma GrewRange(t: Tree, bf: int, oldH: int, stored: int)
    requires Grew(t, bf, oldH) && -1 <= stored <= 1 && stored + bf == H(t.right) - H(t.left)
    ensures -2 <= H(t.right) - H(t.left) <= 2
  {
  }

  /** The stop rule of the insertion climb is exact: going on means the subtree is one
      higher than the ancestors expect, stopping means its height is as before. */
  lemma GrowDecision(m: Mem, t: Tree, t': Tree, p: int, bf: int, oldH: int, bfOld: int)
    requires Grew(t, bf, oldH) && -1 <= bfOld <= 1 && bfOld + bf == H(t.right) - H(t.left) && Rebalanced(t, t')
             && Avl(m, t', p)
    ensures t'.ptr in m
    ensures (m[t'.ptr].left == NULL && m[t'.ptr].right == NULL) || Abs(bfOld) < Abs(m[t'.ptr].bf) ==>
              H(t') == oldH + 1 && Tall(t')
    ensures !(m[t'.ptr].left == NULL && m[t'.ptr].right == NULL) && Abs(bfOld) >= Abs(m[t'.ptr].bf) ==> H(t') == oldH
  {
    Present(m, t'.left, t'.ptr);
    Present(m, t'.right, t'.ptr);
    GrowHeights(t, t', bf, oldH, bfOld);
  }

  lemma GrowHeights(t: Tree, t': Tree, bf: int, oldH: int, bfOld: int)
    requires Grew(t, bf, oldH) && -1 <= bfOld <= 1 && bfOld + bf == H(t.right) - H(t.left) && Rebalanced(t, t')
    ensures (t'.left.Nil? && t'.right.Nil?) || Abs(bfOld) < Abs(H(t'.right) - H(t'.left)) ==>
              H(t') == oldH + 1 && Tall(t')
    ensures !(t'.left.Nil? && t'.right.Nil?) && Abs(bfOld) >= Abs(H(t'.right) - H(t'.left)) ==> H(t') == oldH
  {
  }

  lemma SettleDone(m1: Mem, m2: Mem, m0: Mem, c: Ctx, t: Tree, t': Tree, p: int, whole: Tree)
    requires !c.Root? && p == c.p && Apart(c, t') && Ptrs(t') == Ptrs(t) && Inorder(t') == Inorder(t)
             && Only(m1, m2, Ptrs(t) + {p})
    requires Ptrs(Plug(c, t)) == Ptrs(whole) && Inorder(Plug(c, t)) == Inorder(whole) && Only(m0, m1, Ptrs(whole))
    ensures Ptrs(Plug(c, t')) == Ptrs(whole) && Inorder(Plug(c, t')) == Inorder(whole) && Only(m0, m2, Ptrs(whole))
            && Sep(Plug(c, t'))
    ensures Addr(Plug(c, t')) == Addr(Plug(c, t))
  {
    hide Inorder, Ptrs, Sep, Plug;
    PlugSep(c, t);
    PlugSep(c, t');
    PlugInorder(c, t);
    PlugInorder(c, t');
    PlugAddr(c, t, t');
  }

  lemma SideLeft(m: Mem, c: Ctx, t: Tree, h: int)
    requires !c.Root? && t.Bin? && Hold(m, c, t.ptr, h) && Apart(c, t) && Avl(m, t, c.p)
    ensures c.p in m && t.ptr in m && (m[c.p].left == t.ptr <==> c.InLeft?)
  {
    Present(m, c.other, c.p);
  }

  /** Handing a height increase to the parent. */
  lemma ClimbGrow(m: Mem, c: Ctx, t: Tree, oldH: int)
    requires !c.Root? && t.Bin? && Apart(c, t) && Avl(m, t, c.p) && Hold(m, c, t.ptr, oldH) && H(t) == oldH + 1
             && Tall(t)
    ensures var t2 := if c.InLeft? then Bin(t, c.p, c.other) else Bin(c.other, c.p, t);
            var bf := if c.InLeft? then -1 else 1;
            && Pending(m, c.up, t2, bf, Max(oldH, H(c.other)) + 1) && Grew(t2, bf, Max(oldH, H(c.other)) + 1)
            && Plug(c.up, t2) == Plug(c, t)
  {
  }

  /** How a removal shows at t: one child one lower than before. */
  ghost predicate Shrank(t: Tree, bf: int, oldH: int) {
    && t.Bin?
    && ((bf == 1 && oldH == Max(H(t.left) + 1, H(t.right)) + 1)
        || (bf == -1 && oldH == Max(H(t.left), H(t.right) + 1) + 1))
  }

  lemma ShrankRange(t: Tree, bf: int, oldH: int, stored: int)
    requires Shrank(t, bf, oldH) && -1 <= stored <= 1 && stored + bf == H(t.right) - H(t.left)
    ensures -2 <= H(t.right) - H(t.left) <= 2
  {
  }

  /** The stop rule of the removal climb is exact. */
  lemma ShrinkDecision(m: Mem, t: Tree, t': Tree, p: int, bf: int, oldH: int, bfOld: int)
    requires Shrank(t, bf, oldH) && -1 <= bfOld <= 1 && bfOld + bf == H(t.right) - H(t.left) && Rebalanced(t, t')
             && Avl(m, t', p)
    ensures t'.ptr in m
    ensures (m[t'.ptr].left == NULL && m[t'.ptr].right == NULL) || Abs(bfOld) > Abs(m[t'.ptr].bf) ==> H(t') == oldH - 1
    ensures !(m[t'.ptr].left == NULL && m[t'.ptr].right == NULL) && Abs(bfOld) <= Abs(m[t'.ptr].bf) ==> H(t') == oldH
  {
    Present(m, t'.left, t'.ptr);
    Present(m, t'.right, t'.ptr);
    ShrinkHeights(t, t', bf, oldH, bfOld);
  }

  lemma ShrinkHeights(t: Tree, t': Tree, bf: int, oldH: int, bfOld: int)
    requires Shrank(t, bf, oldH) && -1 <= bfOld <= 1 && bfOld + bf == H(t.right) - H(t.left) && Rebalanced(t, t')
    ensures (t'.left.Nil? && t'.right.Nil?) || Abs(bfOld) > Abs(H(t'.right) - H(t'.left)) ==> H(t') == oldH - 1
    ensures !(t'.left.Nil? && t'.right.Nil?) && Abs(bfOld) <= Abs(H(t'.right) - H(t'.left)) ==> H(t') == oldH
  {
  }

  /** Handing a height decrease to the parent. */
  lemma ClimbShrink(m: Mem, c: Ctx, t: Tree, oldH: int)
    requires !c.Root? && Apart(c, t) && Avl(m, t, c.p) && Hold(m, c, Addr(t), oldH) && H(t) == oldH - 1
    ensures var t2 := if c.InLeft? then Bin(t, c.p, c.other) else Bin(c.other, c.p, t);
            var bf := if c.InLeft? then 1 else -1;
            && Pending(m, c.up, t2, bf, Max(oldH, H(c.other)) + 1) && Shrank(t2, bf, Max(oldH, H(c.other)) + 1)
            && Plug(c.up, t2) == Plug(c, t)
  {
  }

  lemma AtRoot(c: Ctx)
    requires c.Root?
    ensures forall t :: Plug(c, t) == t
  {
  }

  lemma OnlyMore(m0: Mem, m1: Mem, m2: Mem, s: set<int>)
    requires Only(m0, m1, s) && Only(m1, m2, s)
    ensures Only(m0, m2, s)
  {
  }

  lemma OnlySelf(m: Mem, s: set<int>)
    ensures Only(m, m, s)
  {
  }

  lemma Present(m: Mem, t: Tree, par: int)
    requires Avl(m, t, par)
    ensures Addr(t) == NULL <==> t.Nil?
    ensures t.Bin? ==> t.ptr in m && t.ptr in Ptrs(t)
  {
  }

  lemma AvlOpen(m: Mem, t: Tree, par: int)
    requires Avl(m, t, par) && t.Bin?
    ensures Links(m, t.left, t.ptr, t.right, par) && Avl(m, t.left, t.ptr) && Avl(m, t.right, t.ptr)
    ensures m[t.ptr].bf == H(t.right) - H(t.left) && -1 <= m[t.ptr].bf <= 1
  {
  }

  lemma AvlClose(m: Mem, t: Tree, par: int)
    requires t.Bin? && Links(m, t.left, t.ptr, t.right, par) && Avl(m, t.left, t.ptr) && Avl(m, t.right, t.ptr)
    requires m[t.ptr].bf == H(t.right) - H(t.left) && -1 <= m[t.ptr].bf <= 1
    ensures Avl(m, t, par)
  {
  }

  lemma OnlyAt(m: Mem, m': Mem, ptrs: set<int>, q: int)
    requires Only(m, m', ptrs) && q in m && q !in ptrs
    ensures m'.Keys == m.Keys && m'[q] == m[q]
    ensures forall x :: x in m && x !in ptrs ==> m'[x] == m[x]
  {
  }

  lemma OnlyTwice(m0: Mem, m2: Mem, m3: Mem, s1: set<int>, s2: set<int>, e: int, all: set<int>, m4: Mem)
    requires Only(m0, m2, s1) && Only(m2, m3, s2) && m4.Keys == m3.Keys && e in m3 && m4[e].key == m3[e].key
             && (forall q :: q in m3 && q != e ==> m4[q] == m3[q])
    requires s1 <= all && s2 <= all && e in all
    ensures Only(m0, m4, all)
  {
  }

  lemma PtrsBin(l: Tree, p: int, r: Tree)
    ensures Ptrs(Bin(l, p, r)) == Ptrs(l) + {p} + Ptrs(r)
  {
  }

  lemma TopIn(t: Tree)
    ensures Top(t) <= Ptrs(t)
  {
  }

  lemma InLR(a: Tree, c: int, b: Tree, e: int, f: Tree, p: int, d: Tree)
    ensures var all := Ptrs(a) + {c} + Ptrs(b) + {e} + Ptrs(f) + {p} + Ptrs(d);
            && Ptrs(Bin(Bin(a, c, Bin(b, e, f)), p, d)) == all
            && Ptrs(Bin(a, c, Bin(Bin(b, e, f), p, d))) == all
            && Ptrs(Bin(Bin(a, c, b), e, Bin(f, p, d))) == all
    ensures Top(b) <= Ptrs(b) && Top(f) <= Ptrs(f)
  {
    hide Ptrs, Top;
    TopIn(b);
    TopIn(f);
    PtrsBin(b, e, f);
    PtrsBin(a, c, Bin(b, e, f));
    PtrsBin(Bin(a, c, Bin(b, e, f)), p, d);
    PtrsBin(Bin(b, e, f), p, d);
    PtrsBin(a, c, Bin(Bin(b, e, f), p, d));
    PtrsBin(a, c, b);
    PtrsBin(f, p, d);
    PtrsBin(Bin(a, c, b), e, Bin(f, p, d));
  }

  lemma SepLR(a: Tree, c: int, b: Tree, e: int, f: Tree, p: int, d: Tree)
    requires Sep(Bin(Bin(a, c, Bin(b, e, f)), p, d))
    ensures Sep(Bin(a, c, Bin(b, e, f))) && Sep(Bin(Bin(Bin(a, c, b), e, f), p, d))
            && Sep(Bin(Bin(a, c, b), e, Bin(f, p, d)))
    ensures p != c && p != e && c != e && p !in Top(b) && {c, e} + Top(b) !! Ptrs(d)
    ensures p !in Ptrs(Bin(a, c, b)) && p !in Ptrs(f) && p !in Ptrs(d) && e !in Ptrs(Bin(a, c, b))
            && e !in Ptrs(Bin(f, p, d))
  {
    SepRR(a, c, b, e, f);
    SepLL(Bin(a, c, b), e, f, p, d);
  }

  lemma SepRL(a: Tree, p: int, b: Tree, e: int, f: Tree, c: int, d: Tree)
    requires Sep(Bin(a, p, Bin(Bin(b, e, f), c, d)))
    ensures Sep(Bin(Bin(b, e, f), c, d)) && Sep(Bin(a, p, Bin(b, e, Bin(f, c, d))))
            && Sep(Bin(Bin(a, p, b), e, Bin(f, c, d)))
    ensures p != c && p != e && c != e && p !in Top(f) && {c, e} + Top(f) !! Ptrs(a)
    ensures p !in Ptrs(Bin(f, c, d)) && p !in Ptrs(b) && p !in Ptrs(a) && e !in Ptrs(Bin(a, p, b))
            && e !in Ptrs(Bin(f, c, d))
  {
    SepLL(b, e, f, c, d);
    SepRR(a, p, b, e, Bin(f, c, d));
  }

  lemma SepBin(l: Tree, p: int, r: Tree)
    requires Sep(Bin(l, p, r))
    ensures p !in Ptrs(l) && p !in Ptrs(r) && p in Ptrs(Bin(l, p, r)) && Sep(l) && Sep(r) && Ptrs(l) !! Ptrs(r)
    ensures Ptrs(Bin(l, p, r)) == Ptrs(l) + {p} + Ptrs(r)
  {
  }

  lemma InorderLL(a: Tree, c: int, b: Tree, p: int, d: Tree)
    ensures Inorder(Bin(a, c, Bin(b, p, d))) == Inorder(Bin(Bin(a, c, b), p, d))
    ensures Ptrs(Bin(a, c, Bin(b, p, d))) == Ptrs(Bin(Bin(a, c, b), p, d)) == Ptrs(a) + {c} + Ptrs(b) + {p} + Ptrs(d)
    ensures Top(b) <= Ptrs(b)
  {
    assert Ptrs(Bin(b, p, d)) == Ptrs(b) + {p} + Ptrs(d) && Ptrs(Bin(a, c, b)) == Ptrs(a) + {c} + Ptrs(b);
  }

  lemma InorderLR(a: Tree, c: int, b: Tree, e: int, f: Tree, p: int, d: Tree)
    ensures Inorder(Bin(Bin(a, c, Bin(b, e, f)), p, d)) == Inorder(Bin(Bin(a, c, b), e, Bin(f, p, d)))
    ensures Inorder(Bin(a, c, Bin(Bin(b, e, f), p, d))) == Inorder(Bin(Bin(a, c, b), e, Bin(f, p, d)))
  {
    hide Inorder;
    InorderBin(b, e, f);
    InorderBin(a, c, b);
    InorderBin(f, p, d);
    InorderBin(a, c, Bin(b, e, f));
    InorderBin(Bin(b, e, f), p, d);
    InorderBin(Bin(a, c, Bin(b, e, f)), p, d);
    InorderBin(Bin(a, c, b), e, Bin(f, p, d));
    InorderBin(a, c, Bin(Bin(b, e, f), p, d));
    Seven(Inorder(a), [c], Inorder(b), [e], Inorder(f), [p], Inorder(d));
  }

  lemma Seven(a: seq<int>, c: seq<int>, b: seq<int>, e: seq<int>, f: seq<int>, p: seq<int>, d: seq<int>)
    ensures a + c + (b + e + f) + p + d == a + c + b + e + (f + p + d)
    ensures a + c + (b + e + f + p + d) == a + c + b + e + (f + p + d)
  {
  }

  lemma OnlyOne(m: Mem, m': Mem, p: int, all: set<int>)
    requires p in m && p in all && m'.Keys == m.Keys && m'[p].key == m[p].key && forall q :: q in m && q != p ==>
               m'[q] == m[q]
    ensures Only(m, m', all)
  {
  }

  lemma OnlyThen(m0: Mem, m1: Mem, m2: Mem, s: set<int>, p: int, all: set<int>)
    requires Only(m0, m1, s) && s <= all && p in all && p in m1
    requires m2.Keys == m1.Keys && m2[p].key == m1[p].key && forall q :: q in m1 && q != p ==> m2[q] == m1[q]
    ensures Only(m0, m2, all)
  {
  }

  lemma HeightsLR(a: Tree, c: int, b: Tree, e: int, f: Tree, p: int, d: Tree)
    requires H(Bin(b, e, f)) == H(a) + 1 && -1 <= H(f) - H(b) <= 1 && H(d) == H(Bin(a, c, Bin(b, e, f))) - 2
    ensures -1 <= H(b) - H(a) <= 1 && -1 <= H(d) - H(f) <= 1 && H(Bin(f, p, d)) == H(Bin(a, c, b))
  {
  }

  lemma HeightsRL(a: Tree, p: int, b: Tree, e: int, f: Tree, c: int, d: Tree)
    requires H(Bin(b, e, f)) == H(d) + 1 && -1 <= H(f) - H(b) <= 1 && H(a) == H(Bin(Bin(b, e, f), c, d)) - 2
    ensures -1 <= H(b) - H(a) <= 1 && -1 <= H(d) - H(f) <= 1 && H(Bin(f, c, d)) == H(Bin(a, p, b))
  {
  }

  lemma HoldParent(m: Mem, c: Ctx, a: int, h: int)
    requires !c.Root? && Hold(m, c, a, h)
    ensures c.p in m && c.p != NULL
  {
  }

  /** The child that is being rebalanced is the right one exactly when the context says so. */
  lemma SideOf(m: Mem, c: Ctx, t: Tree, node: int, h: int)
    requires !c.Root? && Hold(m, c, node, h) && Apart(c, t) && t.Bin? && node == t.ptr && node != NULL
    ensures c.p in m && (m[c.p].right == node <==> c.InRight?)
  {
    Present(m, c.other, c.p);
  }

  lemma HoldOnly(m: Mem, m': Mem, c: Ctx, a: int, h: int, touched: set<int>)
    requires Hold(m, c, a, h) && Only(m, m', touched) && touched !! Above(c)
    ensures Hold(m', c, a, h)
  {
    HoldFrame(m, m', c, a, h);
  }

  lemma OnlyJoin(m0: Mem, m1: Mem, m2: Mem, s1: set<int>, s2: set<int>)
    requires Only(m0, m1, s1) && Only(m1, m2, s2)
    ensures Only(m0, m2, s1 + s2)
  {
  }

  lemma NilFacts()
    ensures H(Nil) == 0 && Inorder(Nil) == [] && Ptrs(Nil) == {} && Addr(Nil) == NULL
  {
  }

  /** A key that fits between its neighbours is not in the tree. */
  lemma AbsentKey(m: Mem, c: Ctx, key: int)
    requires KeysAround(m, c, key)
    ensures forall q :: q in Ptrs(Plug(c, Nil)) && q in m ==> m[q].key != key
  {
    hide Plug, Ptrs, Inorder;
    NilFacts();
    PlugInorder(c, Nil);
    forall q | q in Ptrs(Plug(c, Nil)) && q in m ensures m[q].key != key {
      InorderPtrs(Plug(c, Nil), q);
      assert q in Before(c) + After(c);
    }
  }

  /** Preparing the new cell disturbs nothing in the tree. */
  lemma PlaceNode(m: Mem, m': Mem, c: Ctx, node: int)
    requires Hold(m, c, NULL, 0) && node !in Above(c) && m'.Keys == m.Keys && forall q :: q in m && q != node ==>
               m'[q] == m[q]
    ensures Hold(m', c, NULL, 0)
  {
    HoldFrame(m, m', c, NULL, 0);
  }

  lemma SideByKey(m: Mem, c: Ctx, key: int, h: int)
    requires !c.Root? && KeysAround(m, c, key) && Hold(m, c, NULL, h)
    ensures c.p in m && (m[c.p].key > key <==> c.InLeft?) && (m[c.p].key < key <==> c.InRight?) && c.p in Above(c)
  {
    if c.InLeft? {
      assert After(c)[0] == c.p;
    } else {
      assert Before(c)[|Before(c)| - 1] == c.p;
    }
  }

  lemma PlaceLink(m: Mem, m': Mem, c: Ctx, node: int)
    requires !c.Root? && Hold(m, c, NULL, 0) && SepCtx(c)
             && m' == (if c.InLeft? then SetLeft(m, c.p, node) else SetRight(m, c.p, node))
    ensures Hold(m', c, node, 0)
  {
    HoldRelink(m, m', c, NULL, node, 0);
  }

  lemma LeafPending(m: Mem, c: Ctx, node: int)
    requires node in m && node != NULL && m[node].parent == Parent(c) && m[node].bf == 0 && m[node].left == NULL
             && m[node].right == NULL
    requires Hold(m, c, node, 0) && SepCtx(c) && node !in Above(c)
    ensures Pending(m, c, Bin(Nil, node, Nil), 0, 0) && Grew(Bin(Nil, node, Nil), 0, 0)
    ensures Inorder(Bin(Nil, node, Nil)) == [node] && Ptrs(Bin(Nil, node, Nil)) == {node}
  {
    var leaf := Bin(Nil, node, Nil);
    assert Ptrs(leaf) == {node} && Sep(leaf);
    assert forall q :: q in Ptrs(leaf) ==> q !in Above(c);
  }

  lemma NewInorder(m0: Mem, c: Ctx, node: int, tree: Tree)
    requires node in m0 && KeysAround(m0, c, m0[node].key) && KeysSorted(m0, Inorder(Plug(c, Nil)))
    requires Inorder(tree) == Inorder(Plug(c, Bin(Nil, node, Nil)))
    ensures KeysSorted(m0, Inorder(tree))
    ensures var i := |Before(c)|;
            i <= |Inorder(Plug(c, Nil))|
            && Inorder(tree) == Inorder(Plug(c, Nil))[..i] + [node] + Inorder(Plug(c, Nil))[i..]
  {
    hide Plug, KeysSorted, KeysAround;
    PlugInorder(c, Nil);
    PlugInorder(c, Bin(Nil, node, Nil));
    var b, a := Before(c), After(c);
    assert Inorder(Plug(c, Nil)) == b + a && Inorder(tree) == b + [node] + a;
    NewSorted(m0, c, node);
  }

  lemma NewSorted(m: Mem, c: Ctx, node: int)
    requires node in m && KeysAround(m, c, m[node].key) && KeysSorted(m, Before(c) + After(c))
    ensures KeysSorted(m, Before(c) + [node] + After(c))
  {
    hide Before, After, KeysSorted;
    SortedPut(m, Before(c), node, After(c));
  }

  lemma SortedPut(m: Mem, b: seq<int>, node: int, a: seq<int>)
    requires node in m && KeysSorted(m, b + a)
    requires forall i :: 0 <= i < |b| && b[i] in m ==> m[b[i]].key < m[node].key
    requires forall i :: 0 <= i < |a| && a[i] in m ==> m[node].key < m[a[i]].key
    ensures KeysSorted(m, b + [node] + a)
  {
    var s, w := b + a, b + [node] + a;
    forall k | 0 <= k < |w| && k != |b| ensures w[k] == s[if k < |b| then k else k - 1] && w[k] in m {}
    forall i, j | 0 <= i < j < |w| ensures m[w[i]].key < m[w[j]].key {
      if i == |b| {
        assert w[j] == a[j - |b| - 1];
      } else if j == |b| {
        assert w[i] == b[i];
      } else {
        assert w[i] == s[if i < |b| then i else i - 1] && w[j] == s[if j < |b| then j else j - 1];
      }
    }
  }

  lemma KeysStay(m0: Mem, m1: Mem, m2: Mem, s: set<int>)
    requires m1.Keys == m0.Keys && (forall q :: q in m0 ==> m1[q].key == m0[q].key) && Only(m1, m2, s)
    ensures m2.Keys == m0.Keys && (forall q :: q in m0 ==> m2[q].key == m0[q].key)
    ensures forall ps: seq<int> :: KeysSorted(m0, ps) ==> KeysSorted(m2, ps)
  {
  }

  lemma NoContext(m: Mem, t: Tree)
    requires Avl(m, t, NULL) && Sep(t)
    ensures Avl(m, t, Parent(Root)) && Hold(m, Root, Addr(t), H(t)) && Apart(Root, t)
  {
  }

  lemma HoldRoot(m: Mem, c: Ctx, a: int, h: int)
    requires Hold(m, c, a, h)
    ensures Parent(c) == NULL <==> c.Root?
  {
  }

  lemma AfterUp(c: Ctx)
    ensures c.InLeft? ==> |After(c)| > 0 && After(c)[0] == c.p
    ensures c.InRight? ==> After(c) == After(c.up)
    ensures c.Root? ==> After(c) == []
  {
  }

  lemma BeforeUp(c: Ctx)
    ensures c.InRight? ==> |Before(c)| > 0 && Before(c)[|Before(c)| - 1] == c.p
    ensures c.InLeft? ==> Before(c) == Before(c.up)
    ensures c.Root? ==> Before(c) == []
  {
  }

  lemma FirstIsNext(c: Ctx, t: Tree, c': Ctx, t': Tree)
    requires t.Bin? && Leftward(c', InRight(c, t.ptr, t.left)) && t'.Bin? && t'.left.Nil? && Plug(c', t') == Plug(c, t)
    ensures At(Inorder(Plug(c, t)), |Before(c)| + |Inorder(t.left)| + 1) == t'.ptr
  {
    hide Plug, Inorder, Before, After, Above;
    LeftwardFacts(c', InRight(c, t.ptr, t.left));
    BeforeRight(c, t.ptr, t.left);
    PlugInorder(c', t');
    InorderBin(Nil, t'.ptr, t'.right);
    assert t' == Bin(Nil, t'.ptr, t'.right);
    NilFacts();
    var b := Before(c) + Inorder(t.left) + [t.ptr];
    HeadOf(b, t'.ptr, Inorder(t'.right), After(c'));
  }

  lemma HeadOf(b: seq<int>, x: int, r: seq<int>, a: seq<int>)
    ensures At(b + ([] + [x] + r) + a, |b|) == x
  {
  }

  lemma SideRight(m: Mem, c: Ctx, t: Tree, h: int)
    requires !c.Root? && t.Bin? && Hold(m, c, t.ptr, h) && Apart(c, t) && Avl(m, t, c.p)
    ensures c.p in m && t.ptr in m && (m[c.p].right == t.ptr <==> c.InRight?)
  {
    Present(m, c.other, c.p);
  }

  lemma LastIsPrev(c: Ctx, t: Tree, c': Ctx, t': Tree)
    requires t.Bin? && Rightward(c', InLeft(c, t.ptr, t.right)) && t'.Bin? && t'.right.Nil?
             && Plug(c', t') == Plug(c, t)
    ensures At(Inorder(Plug(c, t)), |Before(c)| + |Inorder(t.left)| - 1) == t'.ptr
  {
    hide Plug, Before;
    RightwardFacts(c', InLeft(c, t.ptr, t.right));
    PlugInorder(c', t');
    PlugInorder(c, t);
    assert Inorder(t') == Inorder(t'.left) + [t'.ptr];
    assert |Inorder(t)| == |Inorder(t.left)| + 1 + |Inorder(t.right)|;
  }

  /** r is the node with the least key at or above key, NULL if there is none. */
  ghost predicate IsCeiling(m: Mem, ps: seq<int>, key: int, r: int) {
    if r == NULL then forall i :: 0 <= i < |ps| && ps[i] in m ==> m[ps[i]].key < key
    else r in ps && r in m && key <= m[r].key && forall i :: 0 <= i < |ps| && ps[i] in m && key <= m[ps[i]].key ==>
           m[r].key <= m[ps[i]].key
  }

  ghost predicate IsFloor(m: Mem, ps: seq<int>, key: int, r: int) {
    if r == NULL then forall i :: 0 <= i < |ps| && ps[i] in m ==> key < m[ps[i]].key
    else r in ps && r in m && m[r].key <= key && forall i :: 0 <= i < |ps| && ps[i] in m && m[ps[i]].key <= key ==>
           m[ps[i]].key <= m[r].key
  }

  lemma FoundExact(m: Mem, c: Ctx, t: Tree, key: int)
    requires t.Bin? && t.ptr in m && m[t.ptr].key == key && t.ptr != NULL
    ensures IsCeiling(m, Inorder(Plug(c, t)), key, t.ptr) && IsFloor(m, Inorder(Plug(c, t)), key, t.ptr)
  {
    hide Plug;
    PlugInorder(c, t);
    assert t.ptr in Inorder(t);
  }

  /** At an empty place the neighbours of the key are the ends of the two sides. */
  lemma MissBounds(m: Mem, c: Ctx, key: int)
    requires KeysAround(m, c, key) && KeysSorted(m, Inorder(Plug(c, Nil))) && NULL !in Above(c)
    ensures IsCeiling(m, Inorder(Plug(c, Nil)), key, At(After(c), 0))
    ensures IsFloor(m, Inorder(Plug(c, Nil)), key, At(Before(c), |Before(c)| - 1))
  {
    hide Plug, Before, After, KeysSorted, IsCeiling, IsFloor;
    PlugInorder(c, Nil);
    var b, a := Before(c), After(c);
    assert Inorder(Plug(c, Nil)) == b + a;
    forall q | q in b + a ensures q != NULL { InorderPtrs(Plug(c, Nil), q); PlugSep(c, Nil); }
    forall i | 0 <= i < |b| ensures b[i] != NULL { assert b[i] == (b + a)[i] && (b + a)[i] in b + a; }
    forall i | 0 <= i < |a| ensures a[i] != NULL { assert a[i] == (b + a)[|b| + i] && (b + a)[|b| + i] in b + a; }
    GapCeiling(m, b, a, key);
    GapFloor(m, b, a, key);
  }

  lemma GapCeiling(m: Mem, b: seq<int>, a: seq<int>, key: int)
    requires KeysSorted(m, b + a) && (forall i :: 0 <= i < |b| ==> b[i] in m && m[b[i]].key < key)
    requires forall i :: 0 <= i < |a| ==> a[i] in m && key < m[a[i]].key && a[i] != NULL
    ensures IsCeiling(m, b + a, key, At(a, 0))
  {
    assert |a| > 0 ==> (b + a)[|b|] == a[0];
  }

  lemma GapFloor(m: Mem, b: seq<int>, a: seq<int>, key: int)
    requires KeysSorted(m, b + a) && (forall i :: 0 <= i < |b| ==> b[i] in m && m[b[i]].key < key && b[i] != NULL)
    requires forall i :: 0 <= i < |a| ==> a[i] in m && key < m[a[i]].key
    ensures IsFloor(m, b + a, key, At(b, |b| - 1))
  {
    assert |b| > 0 ==> (b + a)[|b| - 1] == b[|b| - 1];
  }

  /** The last ancestor of an empty place is its in-order neighbour. */
  lemma PrevSlot(c: Ctx)
    requires !c.Root?
    ensures c.InRight? ==>
              At(Inorder(Plug(c, Nil)), |Before(c)| - 1) == c.p
              && At(Inorder(Plug(c, Nil)), |Before(c)|) == At(After(c), 0)
    ensures c.InLeft? ==>
              At(Inorder(Plug(c, Nil)), |Before(c)|) == c.p
              && At(Inorder(Plug(c, Nil)), |Before(c)| - 1) == At(Before(c), |Before(c)| - 1)
    ensures c.p in Above(c)
  {
    hide Plug, Inorder, Before, After;
    PlugInorder(c, Nil);
    NilFacts();
    assert Before(c) + [] + After(c) == Before(c) + After(c);
    AfterUp(c);
    BeforeUp(c);
    SlotEnds(Before(c), After(c));
  }

  lemma SlotEnds(b: seq<int>, a: seq<int>)
    ensures At(b + a, |b|) == At(a, 0) && At(b + a, |b| - 1) == At(b, |b| - 1)
  {
  }

  lemma SameHead(b: seq<int>, i: seq<int>, a: seq<int>, i': seq<int>, a': seq<int>)
    requires b + i + a == b + i' + a' && |i| > 0 && |i'| > 0
    ensures i[0] == i'[0]
  {
    assert (b + i + a)[|b|] == i[0] && (b + i' + a')[|b|] == i'[0];
  }

  lemma SameLast(b: seq<int>, i: seq<int>, a: seq<int>, b': seq<int>, i': seq<int>)
    requires b + i + a == b' + i' + a && |i| > 0 && |i'| > 0
    ensures i[|i| - 1] == i'[|i'| - 1]
  {
    assert (b + i + a)[|b + i| - 1] == i[|i| - 1] && (b' + i' + a)[|b' + i'| - 1] == i'[|i'| - 1];
  }

  lemma LeftEdge(c': Ctx, t': Tree, c: Ctx, t: Tree)
    requires Leftward(c', c) && t.Bin? && t'.Bin? && t'.left.Nil? && Plug(c', t') == Plug(c, t)
    ensures |Inorder(t)| > 0 && Inorder(t)[0] == t'.ptr
  {
    hide Plug, Before, After, Inorder;
    LeftwardFacts(c', c);
    PlugInorder(c', t');
    PlugInorder(c, t);
    InorderBin(t'.left, t'.ptr, t'.right);
    InorderBin(t.left, t.ptr, t.right);
    NilFacts();
    SameHead(Before(c), Inorder(t), After(c), Inorder(t'), After(c'));
  }

  lemma RightEdge(c': Ctx, t': Tree, c: Ctx, t: Tree)
    requires Rightward(c', c) && t.Bin? && t'.Bin? && t'.right.Nil? && Plug(c', t') == Plug(c, t)
    ensures |Inorder(t)| > 0 && Inorder(t)[|Inorder(t)| - 1] == t'.ptr
  {
    hide Plug, Before, After, Inorder;
    RightwardFacts(c', c);
    PlugInorder(c', t');
    PlugInorder(c, t);
    InorderBin(t'.left, t'.ptr, t'.right);
    InorderBin(t.left, t.ptr, t.right);
    NilFacts();
    SameLast(Before(c), Inorder(t), After(c), Before(c'), Inorder(t'));
  }
}
