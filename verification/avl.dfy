/** AVL tree operations by pointer relinking (src/avltree.cc). */
module AvlOps {
  import opened Sets
  import opened AvlTree
  import opened AvlCtx
  import opened AvlStep
  import opened AvlCut

  class AvlIndex {
    var m: Mem
    var root: int
    ghost var tree: Tree

    ghost predicate Valid()
      reads this
    {
      root == Addr(tree) && Avl(m, tree, NULL) && Sep(tree) && KeysSorted(m, Inorder(tree))
    }

    /** `_rotate_LL` */
    method RotateLL(p: int, parentBf: int, childBf: int, ghost a: Tree, ghost c: int, ghost b: Tree, ghost d: Tree,
                    ghost par: int)
      returns (ret: int, childBf': int, delta: int)
      requires Links(m, Bin(a, c, b), p, d, par) && Links(m, a, c, b, p) && Avl(m, a, c) && Avl(m, b, c) && Avl(m, d, p)
      requires Sep(Bin(Bin(a, c, b), p, d)) && parentBf == H(d) - H(Bin(a, c, b)) && childBf == H(b) - H(a)
      modifies this`m
      ensures ret == c && Links(m, a, c, Bin(b, p, d), par) && Links(m, b, p, d, c)
      ensures Avl(m, a, c) && Avl(m, b, p) && Avl(m, d, p)
      ensures m[p].bf == H(d) - H(b) && childBf' == H(Bin(b, p, d)) - H(a)
      ensures parentBf <= 0 ==> delta == H(Bin(a, c, Bin(b, p, d))) - H(Bin(Bin(a, c, b), p, d))
      ensures Only(old(m), m, {p, c} + Top(b))
    {
      hide H, Inorder, Avl, Sep, Ptrs, TurnLL, Only;
      ghost var m0 := m;
      SepLL(a, c, b, p, d);
      var child := m[p].left;
      TurnLLTrue(a, c, b, p, d, m[child].left != NULL, m[child].right != NULL);
      var turn := TurnLL(m[child].left != NULL, m[child].right != NULL, parentBf, childBf);
      childBf', delta := turn.0, turn.2;
      m := SetBf(m, p, turn.1);
      var mid := m[child].right;
      m := SetLeft(m, p, mid);
      Present(m0, b, c);
      if mid != NULL {
        m := SetParent(m, mid, p);
      }
      m := SetRight(m, child, p);
      m := SetParent(m, child, m[p].parent);
      m := SetParent(m, p, child);
      ret := child;
      Relinked(m0, m, a, c, b, p, d);
    }

    /** `_rotate_RR` */
    method RotateRR(p: int, parentBf: int, childBf: int, ghost a: Tree, ghost b: Tree, ghost c: int, ghost d: Tree,
                    ghost par: int)
      returns (ret: int, childBf': int, delta: int)
      requires Links(m, a, p, Bin(b, c, d), par) && Links(m, b, c, d, p) && Avl(m, a, p) && Avl(m, b, c) && Avl(m, d, c)
      requires Sep(Bin(a, p, Bin(b, c, d))) && parentBf == H(Bin(b, c, d)) - H(a) && childBf == H(d) - H(b)
      modifies this`m
      ensures ret == c && Links(m, Bin(a, p, b), c, d, par) && Links(m, a, p, b, c)
      ensures Avl(m, a, p) && Avl(m, b, p) && Avl(m, d, c)
      ensures m[p].bf == H(b) - H(a) && childBf' == H(d) - H(Bin(a, p, b))
      ensures parentBf >= 0 ==> delta == H(Bin(Bin(a, p, b), c, d)) - H(Bin(a, p, Bin(b, c, d)))
      ensures Only(old(m), m, {p, c} + Top(b))
    {
      hide H, Inorder, Avl, Sep, Ptrs, TurnRR, Only;
      ghost var m0 := m;
      SepRR(a, p, b, c, d);
      var child := m[p].right;
      TurnRRTrue(a, p, b, c, d, m[child].left != NULL, m[child].right != NULL);
      var turn := TurnRR(m[child].left != NULL, m[child].right != NULL, parentBf, childBf);
      childBf', delta := turn.0, turn.2;
      m := SetBf(m, p, turn.1);
      var mid := m[child].left;
      m := SetRight(m, p, mid);
      Present(m0, b, c);
      if mid != NULL {
        m := SetParent(m, mid, p);
      }
      m := SetLeft(m, child, p);
      m := SetParent(m, child, m[p].parent);
      m := SetParent(m, p, child);
      ret := child;
      Relinked(m0, m, d, c, b, p, a);
    }

    /** The first half of `_rotate_LR`: the left child is turned left. */
    method TurnLeftChild(p: int, ghost a: Tree, ghost c: int, ghost b: Tree, ghost e: int, ghost f: Tree,
                         ghost d: Tree, ghost par: int)
      returns (childBf: int, delta: int)
      requires var l := Bin(a, c, Bin(b, e, f));
               && Links(m, l, p, d, par) && Avl(m, l, p) && Avl(m, d, p) && Sep(Bin(l, p, d))
               && H(Bin(b, e, f)) == H(a) + 1 && -1 <= H(b) - H(a) <= 1
      modifies this`m
      ensures Links(m, Bin(Bin(a, c, b), e, f), p, d, par) && Links(m, Bin(a, c, b), e, f, p)
      ensures Avl(m, Bin(a, c, b), e) && Avl(m, f, e) && Avl(m, d, p) && childBf == H(f) - H(Bin(a, c, b))
      ensures delta == H(Bin(Bin(a, c, b), e, f)) - H(Bin(a, c, Bin(b, e, f)))
      ensures Only(old(m), m, {c, e, p} + Top(b))
    {
      hide Inorder, Avl, Sep, Ptrs, Only, H;
      ghost var m0 := m;
      SepLR(a, c, b, e, f, p, d);
      AvlOpen(m, Bin(a, c, Bin(b, e, f)), p);
      AvlOpen(m, Bin(b, e, f), c);
      var child, top := m[p].left, 0;
      top, childBf, delta := RotateRR(child, m[child].bf, m[m[child].right].bf, a, b, e, f, p);
      ghost var m1 := m;
      OnlyAt(m0, m1, {c, e} + Top(b), p);
      m := SetLeft(m, p, top);
      AvlKept(m0, m1, d, p, {c, e} + Top(b));
      AvlClose(m1, Bin(a, c, b), e);
      AvlKept(m1, m, Bin(a, c, b), e, {p});
      AvlKept(m1, m, f, e, {p});
      AvlKept(m1, m, d, p, {p});
      OnlyThen(m0, m1, m, {c, e} + Top(b), p, {c, e, p} + Top(b));
    }

    /** `_rotate_LR` on a left child that leans right by one, two levels taller than the
        right side. */
    method RotateLR(p: int, parentBf: int, ghost a: Tree, ghost c: int, ghost b: Tree, ghost e: int, ghost f: Tree,
                    ghost d: Tree, ghost par: int)
      returns (ret: int)
      requires var l := Bin(a, c, Bin(b, e, f));
               && Links(m, l, p, d, par) && Avl(m, l, p) && Avl(m, d, p) && Sep(Bin(l, p, d))
               && H(Bin(b, e, f)) == H(a) + 1 && parentBf == H(d) - H(l) == -2
      modifies this`m
      ensures ret == e && Avl(m, Bin(Bin(a, c, b), e, Bin(f, p, d)), par) && m[e].bf == 0
      ensures Only(old(m), m, Ptrs(Bin(Bin(a, c, Bin(b, e, f)), p, d)))
    {
      hide Inorder, Avl, Sep, Ptrs, Only, H;
      SepLR(a, c, b, e, f, p, d);
      AvlOpen(m, Bin(a, c, Bin(b, e, f)), p);
      AvlOpen(m, Bin(b, e, f), c);
      HeightsLR(a, c, b, e, f, p, d);
      ghost var m0 := m;
      var childBf, delta := TurnLeftChild(p, a, c, b, e, f, d, par);
      ghost var m2 := m;
      ret, childBf, delta := RotateLL(p, parentBf - delta, childBf, Bin(a, c, b), e, f, d, par);
      ghost var m3 := m;
      m := SetBf(m, ret, childBf);
      AvlClose(m3, Bin(f, p, d), e);
      AvlKept(m3, m, Bin(f, p, d), e, {e});
      AvlKept(m3, m, Bin(a, c, b), e, {e});
      AvlClose(m, Bin(Bin(a, c, b), e, Bin(f, p, d)), par);
      InLR(a, c, b, e, f, p, d);
      OnlyTwice(m0, m2, m3, {c, e, p} + Top(b), {p, e} + Top(f), e, Ptrs(Bin(Bin(a, c, Bin(b, e, f)), p, d)), m);
    }

    /** The first half of `_rotate_RL`: the right child is turned right. */
    method TurnRightChild(p: int, ghost a: Tree, ghost b: Tree, ghost e: int, ghost f: Tree, ghost c: int,
                          ghost d: Tree, ghost par: int)
      returns (childBf: int, delta: int)
      requires var r := Bin(Bin(b, e, f), c, d);
               && Links(m, a, p, r, par) && Avl(m, r, p) && Avl(m, a, p) && Sep(Bin(a, p, r))
               && H(Bin(b, e, f)) == H(d) + 1 && -1 <= H(d) - H(f) <= 1
      modifies this`m
      ensures Links(m, a, p, Bin(b, e, Bin(f, c, d)), par) && Links(m, b, e, Bin(f, c, d), p)
      ensures Avl(m, Bin(f, c, d), e) && Avl(m, b, e) && Avl(m, a, p) && childBf == H(Bin(f, c, d)) - H(b)
      ensures delta == H(Bin(b, e, Bin(f, c, d))) - H(Bin(Bin(b, e, f), c, d))
      ensures Only(old(m), m, {c, e, p} + Top(f))
    {
      hide Inorder, Avl, Sep, Ptrs, Only, H;
      ghost var m0 := m;
      SepRL(a, p, b, e, f, c, d);
      AvlOpen(m, Bin(Bin(b, e, f), c, d), p);
      AvlOpen(m, Bin(b, e, f), c);
      var child, top := m[p].right, 0;
      top, childBf, delta := RotateLL(child, m[child].bf, m[m[child].left].bf, b, e, f, d, p);
      ghost var m1 := m;
      OnlyAt(m0, m1, {c, e} + Top(f), p);
      m := SetRight(m, p, top);
      AvlKept(m0, m1, a, p, {c, e} + Top(f));
      AvlClose(m1, Bin(f, c, d), e);
      AvlKept(m1, m, Bin(f, c, d), e, {p});
      AvlKept(m1, m, b, e, {p});
      AvlKept(m1, m, a, p, {p});
      OnlyThen(m0, m1, m, {c, e} + Top(f), p, {c, e, p} + Top(f));
    }

    /** `_rotate_RL` on a right child that leans left by one, two levels taller than the
        left side. */
    method RotateRL(p: int, parentBf: int, ghost a: Tree, ghost b: Tree, ghost e: int, ghost f: Tree, ghost c: int,
                    ghost d: Tree, ghost par: int)
      returns (ret: int)
      requires var r := Bin(Bin(b, e, f), c, d);
               && Links(m, a, p, r, par) && Avl(m, r, p) && Avl(m, a, p) && Sep(Bin(a, p, r))
               && H(Bin(b, e, f)) == H(d) + 1 && parentBf == H(r) - H(a) == 2
      modifies this`m
      ensures ret == e && Avl(m, Bin(Bin(a, p, b), e, Bin(f, c, d)), par) && m[e].bf == 0
      ensures Only(old(m), m, Ptrs(Bin(a, p, Bin(Bin(b, e, f), c, d))))
    {
      hide Inorder, Avl, Sep, Ptrs, Only, H;
      SepRL(a, p, b, e, f, c, d);
      AvlOpen(m, Bin(Bin(b, e, f), c, d), p);
      AvlOpen(m, Bin(b, e, f), c);
      HeightsRL(a, p, b, e, f, c, d);
      ghost var m0 := m;
      var childBf, delta := TurnRightChild(p, a, b, e, f, c, d, par);
      ghost var m2 := m;
      ret, childBf, delta := RotateRR(p, parentBf + delta, childBf, a, b, e, Bin(f, c, d), par);
      ghost var m3 := m;
      m := SetBf(m, ret, childBf);
      AvlClose(m3, Bin(a, p, b), e);
      AvlKept(m3, m, Bin(a, p, b), e, {e});
      AvlKept(m3, m, Bin(f, c, d), e, {e});
      AvlClose(m, Bin(Bin(a, p, b), e, Bin(f, c, d)), par);
      InLR(a, p, b, e, f, c, d);
      OnlyTwice(m0, m2, m3, {c, e, p} + Top(f), {p, e} + Top(b), e, Ptrs(Bin(a, p, Bin(Bin(b, e, f), c, d))), m);
    }

    /** `_balance_tree`: the cell at node is off by bf; rebalance its subtree. */
    method Balance(node: int, bf: int, ghost l: Tree, ghost r: Tree, ghost par: int) returns (ret: int, ghost t: Tree)
      requires Links(m, l, node, r, par) && Avl(m, l, node) && Avl(m, r, node) && Sep(Bin(l, node, r))
      requires m[node].bf + bf == H(r) - H(l) && -2 <= H(r) - H(l) <= 2
      modifies this`m
      ensures ret == Addr(t) && t.Bin? && Avl(m, t, par) && Sep(t) && Ptrs(t) == Ptrs(Bin(l, node, r))
              && Inorder(t) == Inorder(Bin(l, node, r))
      ensures Only(old(m), m, Ptrs(Bin(l, node, r)))
      ensures Rebalanced(Bin(l, node, r), t)
    {
      hide Inorder, Avl, Sep, Ptrs, Only;
      var diff := m[node].bf + bf;
      if diff < -1 && m[node].left != NULL {
        ret, t := BalanceLeft(node, diff, l, r, par);
      } else if diff > 1 && m[node].right != NULL {
        ret, t := BalanceRight(node, diff, l, r, par);
      } else {
        Present(m, l, node);
        Present(m, r, node);
        ghost var m0 := m;
        m := SetBf(m, node, m[node].bf + bf);
        ret, t := node, Bin(l, node, r);
        SepBin(l, node, r);
        AvlKept(m0, m, l, node, {node});
        AvlKept(m0, m, r, node, {node});
        AvlClose(m, t, par);
        OnlyOne(m0, m, node, Ptrs(t));
      }
    }

    /** One turn to the right, when the left child does not lean right. */
    method TurnLeftOnce(node: int, diff: int, ghost l: Tree, ghost r: Tree, ghost par: int)
      returns (ret: int, ghost t: Tree)
      requires Links(m, l, node, r, par) && Avl(m, l, node) && Avl(m, r, node) && Sep(Bin(l, node, r)) && l.Bin?
      requires diff == H(r) - H(l) == -2 && H(l.right) <= H(l.left)
      modifies this`m
      ensures ret == Addr(t) && t.Bin? && Avl(m, t, par) && Sep(t) && Ptrs(t) == Ptrs(Bin(l, node, r))
              && Inorder(t) == Inorder(Bin(l, node, r))
      ensures Only(old(m), m, Ptrs(Bin(l, node, r)))
      ensures Rebalanced(Bin(l, node, r), t)
    {
      hide Inorder, Avl, Sep, Ptrs, Only;
      ghost var m0 := m;
      AvlOpen(m, l, node);
      SepLL(l.left, l.ptr, l.right, node, r);
      var childBf, delta;
      ret, childBf, delta := RotateLL(node, diff, m[m[node].left].bf, l.left, l.ptr, l.right, r, par);
      ghost var m1 := m;
      m := SetBf(m, ret, childBf);
      t := Bin(l.left, l.ptr, Bin(l.right, node, r));
      AvlClose(m1, t.right, l.ptr);
      SepBin(l.left, l.ptr, t.right);
      AvlKept(m1, m, l.left, l.ptr, {l.ptr});
      AvlKept(m1, m, t.right, l.ptr, {l.ptr});
      AvlClose(m, t, par);
      InorderLL(l.left, l.ptr, l.right, node, r);
      OnlyThen(m0, m1, m, {node, l.ptr} + Top(l.right), l.ptr, Ptrs(Bin(l, node, r)));
    }

    method BalanceLeft(node: int, diff: int, ghost l: Tree, ghost r: Tree, ghost par: int)
      returns (ret: int, ghost t: Tree)
      requires Links(m, l, node, r, par) && Avl(m, l, node) && Avl(m, r, node) && Sep(Bin(l, node, r)) && l.Bin?
      requires diff == H(r) - H(l) == -2
      modifies this`m
      ensures ret == Addr(t) && t.Bin? && Avl(m, t, par) && Sep(t) && Ptrs(t) == Ptrs(Bin(l, node, r))
              && Inorder(t) == Inorder(Bin(l, node, r))
      ensures Only(old(m), m, Ptrs(Bin(l, node, r)))
      ensures Rebalanced(Bin(l, node, r), t)
    {
      hide Inorder, Avl, Sep, Ptrs, Only;
      AvlOpen(m, l, node);
      if m[m[node].left].bf <= 0 {
        ret, t := TurnLeftOnce(node, diff, l, r, par);
      } else {
        ghost var x := l.right;
        SepLR(l.left, l.ptr, x.left, x.ptr, x.right, node, r);
        InLR(l.left, l.ptr, x.left, x.ptr, x.right, node, r);
        InorderLR(l.left, l.ptr, x.left, x.ptr, x.right, node, r);
        ret := RotateLR(node, diff, l.left, l.ptr, x.left, x.ptr, x.right, r, par);
        t := Bin(Bin(l.left, l.ptr, x.left), x.ptr, Bin(x.right, node, r));
        AvlOpen(m, t, par);
      }
    }

    /** One turn to the left, when the right child does not lean left. */
    method TurnRightOnce(node: int, diff: int, ghost l: Tree, ghost r: Tree, ghost par: int)
      returns (ret: int, ghost t: Tree)
      requires Links(m, l, node, r, par) && Avl(m, l, node) && Avl(m, r, node) && Sep(Bin(l, node, r)) && r.Bin?
      requires diff == H(r) - H(l) == 2 && H(r.left) <= H(r.right)
      modifies this`m
      ensures ret == Addr(t) && t.Bin? && Avl(m, t, par) && Sep(t) && Ptrs(t) == Ptrs(Bin(l, node, r))
              && Inorder(t) == Inorder(Bin(l, node, r))
      ensures Only(old(m), m, Ptrs(Bin(l, node, r)))
      ensures Rebalanced(Bin(l, node, r), t)
    {
      hide Inorder, Avl, Sep, Ptrs, Only;
      ghost var m0 := m;
      AvlOpen(m, r, node);
      SepRR(l, node, r.left, r.ptr, r.right);
      var childBf, delta;
      ret, childBf, delta := RotateRR(node, diff, m[m[node].right].bf, l, r.left, r.ptr, r.right, par);
      ghost var m1 := m;
      m := SetBf(m, ret, childBf);
      t := Bin(Bin(l, node, r.left), r.ptr, r.right);
      AvlClose(m1, t.left, r.ptr);
      SepBin(t.left, r.ptr, r.right);
      AvlKept(m1, m, t.left, r.ptr, {r.ptr});
      AvlKept(m1, m, r.right, r.ptr, {r.ptr});
      AvlClose(m, t, par);
      InorderLL(l, node, r.left, r.ptr, r.right);
      OnlyThen(m0, m1, m, {node, r.ptr} + Top(r.left), r.ptr, Ptrs(Bin(l, node, r)));
    }

    method BalanceRight(node: int, diff: int, ghost l: Tree, ghost r: Tree, ghost par: int)
      returns (ret: int, ghost t: Tree)
      requires Links(m, l, node, r, par) && Avl(m, l, node) && Avl(m, r, node) && Sep(Bin(l, node, r)) && r.Bin?
      requires diff == H(r) - H(l) == 2
      modifies this`m
      ensures ret == Addr(t) && t.Bin? && Avl(m, t, par) && Sep(t) && Ptrs(t) == Ptrs(Bin(l, node, r))
              && Inorder(t) == Inorder(Bin(l, node, r))
      ensures Only(old(m), m, Ptrs(Bin(l, node, r)))
      ensures Rebalanced(Bin(l, node, r), t)
    {
      hide Inorder, Avl, Sep, Ptrs, Only;
      AvlOpen(m, r, node);
      if m[m[node].right].bf >= 0 {
        ret, t := TurnRightOnce(node, diff, l, r, par);
      } else {
        ghost var x := r.left;
        SepRL(l, node, x.left, x.ptr, x.right, r.ptr, r.right);
        InLR(l, node, x.left, x.ptr, x.right, r.ptr, r.right);
        InorderLR(l, node, x.left, x.ptr, x.right, r.ptr, r.right);
        ret := RotateRL(node, diff, l, x.left, x.ptr, x.right, r.ptr, r.right, par);
        t := Bin(Bin(l, node, x.left), x.ptr, Bin(x.right, r.ptr, r.right));
        AvlOpen(m, t, par);
      }
    }

    /** Store ret as the child of c's innermost ancestor, where node was. */
    method Hang(p: int, right: bool, ret: int, ghost c: Ctx, ghost node: int, ghost t: Tree, ghost h: int)
      requires !c.Root? && p == c.p && right == c.InRight? && Hold(m, c, node, h) && Apart(c, t) && Avl(m, t, p)
               && ret == Addr(t)
      modifies this`m
      ensures Hold(m, c, ret, h) && Avl(m, t, p) && Only(old(m), m, {p})
      ensures forall q :: q in Ptrs(t) && q in old(m) ==> m[q] == old(m)[q]
    {
      hide Avl, H;
      ghost var m0 := m;
      if right {
        m := SetRight(m, p, ret);
      } else {
        m := SetLeft(m, p, ret);
      }
      HoldRelink(m0, m, c, node, ret, h);
      AvlKept(m0, m, t, p, {p});
    }

    /** One rebalancing step below a parent: rebalance node and hang the result. */
    method Settle(node: int, bf: int, p: int, ghost c: Ctx, ghost t: Tree, ghost oldH: int)
      returns (ret: int, ghost t': Tree)
      requires !c.Root? && p == c.p && t.Bin? && node == t.ptr && Apart(c, t) && Hold(m, c, node, oldH)
      requires Links(m, t.left, node, t.right, p) && Avl(m, t.left, node) && Avl(m, t.right, node)
      requires m[node].bf + bf == H(t.right) - H(t.left) && -2 <= H(t.right) - H(t.left) <= 2
      modifies this`m
      ensures ret == Addr(t') && t'.Bin? && Avl(m, t', p) && Apart(c, t') && Ptrs(t') == Ptrs(t)
              && Inorder(t') == Inorder(t)
      ensures Hold(m, c, ret, oldH) && Only(old(m), m, Ptrs(t) + {p})
      ensures Rebalanced(t, t')
    {
      hide Avl, H, Inorder, Ptrs, Sep, Only, Hold, Rebalanced;
      ghost var m0 := m;
      HoldParent(m, c, node, oldH);
      var right := m[p].right == node;
      SideOf(m, c, t, node, oldH);
      ret, t' := Balance(node, bf, t.left, t.right, p);
      assert Bin(t.left, t.ptr, t.right) == t;
      HoldOnly(m0, m, c, node, oldH, Ptrs(t));
      ghost var m1 := m;
      Hang(p, right, ret, c, node, t', oldH);
      OnlyJoin(m0, m1, m, Ptrs(t), {p});
    }

    /** The climb of `avl_insert` from the new leaf. */
    method GrowUp(start: int, ghost c0: Ctx, ghost t0: Tree)
      requires t0.Bin? && start == t0.ptr && Pending(m, c0, t0, 0, 0) && Grew(t0, 0, 0) && root == Addr(Plug(c0, t0))
      modifies this
      ensures root == Addr(tree) && Avl(m, tree, NULL) && Sep(tree) && Inorder(tree) == Inorder(Plug(c0, t0))
      ensures Only(old(m), m, Ptrs(Plug(c0, t0)))
    {
      hide Avl, Inorder, Ptrs, Sep, Only, Hold, Plug, Above, Grew, Links, Rebalanced, H;
      var node, bf := start, 0;
      ghost var c, t, oldH, whole := c0, t0, 0, Plug(c0, t0);
      PlugSep(c, t);
      OnlySelf(m, Ptrs(whole));
      while true
        invariant t.Bin? && node == t.ptr && Pending(m, c, t, bf, oldH) && Grew(t, bf, oldH)
        invariant root == Addr(Plug(c, t)) && Inorder(Plug(c, t)) == Inorder(whole) && Ptrs(Plug(c, t)) == Ptrs(whole)
        invariant Only(old(m), m, Ptrs(whole))
        decreases c
      {
        PendingFacts(m, c, t, bf, oldH);
        GrewRange(t, bf, oldH, m[node].bf);
        PlugSep(c, t);
        PlugInorder(c, t);
        var p := m[node].parent;
        ghost var m1 := m;
        if p != NULL {
          var bfOld := m[node].bf;
          ghost var t';
          node, t' := Settle(node, bf, p, c, t, oldH);
          SettleDone(m1, m, old(m), c, t, t', p, whole);
          GrowDecision(m, t, t', p, bf, oldH, bfOld);
          SideLeft(m, c, t', oldH);
          var leaf := m[node].left == NULL && m[node].right == NULL;
          var left := m[p].left == node;
          if leaf {
            bf := if left then -1 else 1;
          } else {
            bf := 0;
            if Abs(bfOld) < Abs(m[node].bf) {
              bf := if left then -1 else 1;
            }
          }
          if bf == 0 {
            PlugAvl(m, c, t');
            tree := Plug(c, t');
            return;
          }
          ClimbGrow(m, c, t', oldH);
          t := if c.InLeft? then Bin(t', c.p, c.other) else Bin(c.other, c.p, t');
          oldH := Max(oldH, H(c.other)) + 1;
          c := c.up;
          node := p;
        } else {
          AtRoot(c);
          root, tree := Balance(root, bf, t.left, t.right, NULL);
          OnlyMore(old(m), m1, m, Ptrs(whole));
          return;
        }
      }
    }

    /** The climb of `avl_remove` from the place where a subtree got lower. */
    method ShrinkUp(start: int, startBf: int, ghost c0: Ctx, ghost t0: Tree, ghost h0: int)
      requires t0.Bin? && start == t0.ptr && Pending(m, c0, t0, startBf, h0) && Shrank(t0, startBf, h0)
               && root == Addr(Plug(c0, t0))
      modifies this
      ensures root == Addr(tree) && Avl(m, tree, NULL) && Sep(tree) && Inorder(tree) == Inorder(Plug(c0, t0))
      ensures Only(old(m), m, Ptrs(Plug(c0, t0)))
    {
      hide Avl, Inorder, Ptrs, Sep, Only, Hold, Plug, Above, Shrank, Links, Rebalanced, H;
      var node, bf := start, startBf;
      ghost var c, t, oldH, whole := c0, t0, h0, Plug(c0, t0);
      PlugSep(c, t);
      OnlySelf(m, Ptrs(whole));
      while true
        invariant t.Bin? && node == t.ptr && Pending(m, c, t, bf, oldH) && Shrank(t, bf, oldH)
        invariant root == Addr(Plug(c, t)) && Inorder(Plug(c, t)) == Inorder(whole) && Ptrs(Plug(c, t)) == Ptrs(whole)
        invariant Only(old(m), m, Ptrs(whole))
        decreases c
      {
        PendingFacts(m, c, t, bf, oldH);
        ShrankRange(t, bf, oldH, m[node].bf);
        PlugSep(c, t);
        PlugInorder(c, t);
        var p := m[node].parent;
        ghost var m1 := m;
        if p != NULL {
          var bfOld := m[node].bf;
          ghost var t';
          node, t' := Settle(node, bf, p, c, t, oldH);
          SettleDone(m1, m, old(m), c, t, t', p, whole);
          ShrinkDecision(m, t, t', p, bf, oldH, bfOld);
          SideLeft(m, c, t', oldH);
          var leaf := m[node].left == NULL && m[node].right == NULL;
          var left := m[p].left == node;
          if leaf {
            bf := if left then 1 else -1;
          } else {
            bf := 0;
            if Abs(bfOld) > Abs(m[node].bf) {
              bf := if left then 1 else -1;
            }
          }
          if bf == 0 {
            PlugAvl(m, c, t');
            tree := Plug(c, t');
            return;
          }
          ClimbShrink(m, c, t', oldH);
          t := if c.InLeft? then Bin(t', c.p, c.other) else Bin(c.other, c.p, t');
          oldH := Max(oldH, H(c.other)) + 1;
          c := c.up;
          node := p;
        } else {
          AtRoot(c);
          root, tree := Balance(root, bf, t.left, t.right, NULL);
          OnlyMore(old(m), m1, m, Ptrs(whole));
          return;
        }
      }
    }

    constructor (m: Mem)
      ensures this.m == m && Valid() && tree == Nil
    {
      this.m := m;
      root := NULL;
      tree := Nil;
    }

    /** The descent shared by `avl_search`, `avl_insert` and the nearest-key searches: down
        to an equal key or to the empty place where the key belongs. */
    method Descend(key: int) returns (cur: int, p: int, ghost c: Ctx, ghost t: Tree)
      requires Valid()
      ensures cur == Addr(t) && p == Parent(c) && Plug(c, t) == tree && (cur == NULL <==> t.Nil?)
      ensures Avl(m, t, p) && Hold(m, c, cur, H(t)) && Apart(c, t) && KeysAround(m, c, key)
      ensures t.Bin? ==> t.ptr in m && m[t.ptr].key == key
    {
      hide Avl, H, Plug, Inorder, Sep, Ptrs, KeysSorted;
      cur, p, c, t := root, NULL, Root, tree;
      AtRoot(c);
      Present(m, t, p);
      while cur != NULL
        invariant cur == Addr(t) && p == Parent(c) && Plug(c, t) == tree && (cur == NULL <==> t.Nil?)
        invariant Avl(m, t, p) && Hold(m, c, cur, H(t)) && Apart(c, t) && KeysAround(m, c, key)
        decreases t
      {
        DownKeys(m, c, t, key);
        AvlOpen(m, t, p);
        if m[cur].key > key {
          Down(m, c, t, true);
          c, t, p, cur := InLeft(c, t.ptr, t.right), t.left, cur, m[cur].left;
        } else if m[cur].key < key {
          Down(m, c, t, false);
          c, t, p, cur := InRight(c, t.ptr, t.left), t.right, cur, m[cur].right;
        } else {
          return;
        }
        Present(m, t, p);
      }
    }

    /** `avl_search`: the node with the given key, or NULL. */
    method Search(key: int) returns (r: int)
      requires Valid()
      ensures r == NULL ==> forall q :: q in Ptrs(tree) && q in m ==> m[q].key != key
      ensures r != NULL ==> r in Ptrs(tree) && r in m && m[r].key == key
    {
      hide Avl, H, Plug, Sep, Ptrs, Inorder, KeysSorted;
      var p;
      ghost var c, t;
      r, p, c, t := Descend(key);
      PlugSep(c, t);
      Present(m, t, p);
      if r == NULL { AbsentKey(m, c, key); }
    }

    /** `avl_insert` */
    method Insert(node: int) returns (dup: bool)
      requires Valid() && node in m && node != NULL && node !in Ptrs(tree)
      modifies this
      ensures Valid() && m.Keys == old(m).Keys && forall q :: q in m ==> m[q].key == old(m)[q].key
      ensures dup <==> exists q :: q in Ptrs(old(tree)) && q in old(m) && old(m)[q].key == old(m)[node].key
      ensures dup ==> m == old(m) && tree == old(tree)
      ensures !dup ==>
                exists i ::
                  0 <= i <= |Inorder(old(tree))|
                  && Inorder(tree) == Inorder(old(tree))[..i] + [node] + Inorder(old(tree))[i..]
    {
      hide Avl, H, Plug, Sep, Ptrs, Inorder, KeysSorted, Hold, Above, Grew;
      ghost var m0, tree0 := m, tree;
      var cur, p;
      ghost var c, t;
      cur, p, c, t := Descend(m[node].key);
      PlugSep(c, t);
      Present(m, t, p);
      if cur != NULL {
        assert t.ptr in Ptrs(tree) && m[t.ptr].key == m[node].key;
        return true;
      }
      AbsentKey(m, c, m[node].key);
      NilFacts();
      m := m[node := m[node].(parent := p, bf := 0, left := NULL, right := NULL)];
      PlaceNode(m0, m, c, node);
      if p != NULL {
        SideByKey(m0, c, m[node].key, H(t));
        ghost var m1 := m;
        if m[p].key > m[node].key {
          m := SetLeft(m, p, node);
        } else {
          m := SetRight(m, p, node);
        }
        PlaceLink(m1, m, c, node);
      } else {
        root := node;
      }
      ghost var leaf := Bin(Nil, node, Nil);
      LeafPending(m, c, node);
      PlugSep(c, leaf);
      ghost var m2 := m;
      if p != NULL { PlugAddr(c, Nil, leaf); } else { AtRoot(c); }
      GrowUp(node, c, leaf);
      NewInorder(m0, c, node, tree);
      KeysStay(m0, m2, m, Ptrs(Plug(c, leaf)));
      dup := false;
    }

    /** `avl_first` on the subtree at start. */
    method First(start: int, ghost c: Ctx, ghost t: Tree) returns (p: int, ghost c': Ctx, ghost t': Tree)
      requires start == Addr(t) && Avl(m, t, Parent(c)) && Hold(m, c, start, H(t)) && Apart(c, t)
      ensures p == NULL <==> t.Nil?
      ensures t.Bin? ==> t'.Bin? && t'.left.Nil? && p == t'.ptr && Leftward(c', c) && Plug(c', t') == Plug(c, t)
      ensures t.Bin? ==> Avl(m, t', Parent(c')) && Hold(m, c', p, H(t')) && Apart(c', t')
      ensures t.Bin? ==> |Inorder(t)| > 0 && p == Inorder(t)[0]
    {
      hide Avl, H, Plug, Hold, Apart, Inorder;
      p, c', t' := NULL, c, t;
      var node := start;
      ghost var cn, tn := c, t;
      Present(m, t, Parent(c));
      while node != NULL
        invariant node == Addr(tn) && Avl(m, tn, Parent(cn)) && Hold(m, cn, node, H(tn)) && Apart(cn, tn)
                  && Leftward(cn, c)
        invariant Plug(cn, tn) == Plug(c, t) && (node == NULL <==> tn.Nil?)
        invariant if p == NULL then tn == t && cn == c else
          t.Bin? && t'.Bin? && tn == t'.left && p == t'.ptr && Leftward(c', c) && Plug(c', t') == Plug(c, t)
              && Avl(m, t', Parent(c')) && Hold(m, c', p, H(t')) && Apart(c', t')
        decreases tn
      {
        AvlOpen(m, tn, Parent(cn));
        Down(m, cn, tn, true);
        p, c', t' := node, cn, tn;
        node := m[node].left;
        cn, tn := InLeft(cn, tn.ptr, tn.right), tn.left;
        Present(m, tn, Parent(cn));
      }
      if p != NULL { LeftEdge(c', t', c, t); }
    }

    /** `avl_last` on the subtree at start. */
    method Last(start: int, ghost c: Ctx, ghost t: Tree) returns (p: int, ghost c': Ctx, ghost t': Tree)
      requires start == Addr(t) && Avl(m, t, Parent(c)) && Hold(m, c, start, H(t)) && Apart(c, t)
      ensures p == NULL <==> t.Nil?
      ensures t.Bin? ==> t'.Bin? && t'.right.Nil? && p == t'.ptr && Rightward(c', c) && Plug(c', t') == Plug(c, t)
      ensures t.Bin? ==> |Inorder(t)| > 0 && p == Inorder(t)[|Inorder(t)| - 1]
    {
      hide Avl, H, Plug, Hold, Apart, Inorder;
      p, c', t' := NULL, c, t;
      var node := start;
      ghost var cn, tn := c, t;
      Present(m, t, Parent(c));
      while node != NULL
        invariant node == Addr(tn) && Avl(m, tn, Parent(cn)) && Hold(m, cn, node, H(tn)) && Apart(cn, tn)
                  && Rightward(cn, c)
        invariant Plug(cn, tn) == Plug(c, t) && (node == NULL <==> tn.Nil?)
        invariant if p == NULL then tn == t && cn == c else
          t.Bin? && t'.Bin? && tn == t'.right && p == t'.ptr && Rightward(c', c) && Plug(c', t') == Plug(c, t)
        decreases tn
      {
        AvlOpen(m, tn, Parent(cn));
        Down(m, cn, tn, false);
        p, c', t' := node, cn, tn;
        node := m[node].right;
        cn, tn := InRight(cn, tn.ptr, tn.left), tn.right;
        Present(m, tn, Parent(cn));
      }
      if p != NULL { RightEdge(c', t', c, t); }
    }

    /** `avl_next`: the in-order successor. */
    method Next(start: int) returns (r: int)
      requires Valid() && start in Ptrs(tree)
      ensures forall i :: 0 <= i < |Inorder(tree)| && Inorder(tree)[i] == start ==> r == At(Inorder(tree), i + 1)
    {
      hide Avl, H, Plug, Hold, Apart, Inorder, KeysSorted, Distinct, Before, After, Leftward;
      AtRoot(Root);
      NoContext(m, tree);
      ghost var c, t := Locate(m, Root, tree, start);
      SortedDistinct(m, Inorder(tree));
      RootAt(c, t);
      AvlOpen(m, t, Parent(c));
      Present(m, t.right, start);
      Down(m, c, t, false);
      if m[start].right != NULL {
        ghost var cr := InRight(c, start, t.left);
        ghost var c', t';
        r, c', t' := First(m[start].right, cr, t.right);
        FirstIsNext(c, t, c', t');
        return;
      }
      NilFacts();
      ghost var after := After(c);
      var p, node := start, m[start].parent;
      while node != NULL
        invariant t.Bin? && p == t.ptr && Avl(m, t, Parent(c)) && node == Parent(c) && Hold(m, c, p, H(t))
                  && Apart(c, t) && After(c) == after
        decreases c
      {
        SideLeft(m, c, t, H(t));
        AfterUp(c);
        if m[node].left == p {
          return node;
        }
        Up(m, c, t);
        t := Bin(c.other, c.p, t);
        c := c.up;
        AvlOpen(m, t, Parent(c));
        p, node := node, m[node].parent;
      }
      HoldRoot(m, c, p, H(t));
      AfterUp(c);
      r := NULL;
    }

    /** `avl_prev`: the in-order predecessor. */
    method Prev(start: int) returns (r: int)
      requires Valid() && start in Ptrs(tree)
      ensures forall i :: 0 <= i < |Inorder(tree)| && Inorder(tree)[i] == start ==> r == At(Inorder(tree), i - 1)
    {
      hide Avl, H, Plug, Hold, Apart, Inorder, KeysSorted, Distinct, Before, After, Rightward;
      AtRoot(Root);
      NoContext(m, tree);
      ghost var c, t := Locate(m, Root, tree, start);
      SortedDistinct(m, Inorder(tree));
      RootAt(c, t);
      AvlOpen(m, t, Parent(c));
      Present(m, t.left, start);
      Down(m, c, t, true);
      if m[start].left != NULL {
        ghost var cl := InLeft(c, start, t.right);
        ghost var c', t';
        r, c', t' := Last(m[start].left, cl, t.left);
        LastIsPrev(c, t, c', t');
        return;
      }
      NilFacts();
      ghost var before := Before(c);
      var p, node := start, m[start].parent;
      while node != NULL
        invariant t.Bin? && p == t.ptr && Avl(m, t, Parent(c)) && node == Parent(c) && Hold(m, c, p, H(t))
                  && Apart(c, t) && Before(c) == before
        decreases c
      {
        SideRight(m, c, t, H(t));
        BeforeUp(c);
        if m[node].right == p {
          return node;
        }
        Up(m, c, t);
        t := Bin(t, c.p, c.other);
        c := c.up;
        AvlOpen(m, t, Parent(c));
        p, node := node, m[node].parent;
      }
      HoldRoot(m, c, p, H(t));
      BeforeUp(c);
      r := NULL;
    }

    /** `avl_search_greater`: the least key at or above the given one. */
    method SearchGreater(key: int) returns (r: int)
      requires Valid()
      ensures IsCeiling(m, Inorder(tree), key, r)
    {
      hide Avl, H, Plug, Hold, Apart, Inorder, KeysSorted, Before, After, Distinct, IsCeiling, KeysAround;
      var cur, pp;
      ghost var c, t;
      cur, pp, c, t := Descend(key);
      if cur != NULL {
        FoundExact(m, c, t, key);
        return cur;
      }
      HoldPtrs(m, c, cur, H(t));
      MissBounds(m, c, key);
      AfterUp(c);
      HoldRoot(m, c, cur, H(t));
      if pp == NULL {
        return NULL;
      }
      NilFacts();
      SideByKey(m, c, key, H(t));
      if m[pp].key > key {
        return pp;
      }
      PlugSep(c, t);
      PrevSlot(c);
      r := Next(pp);
    }

    /** `avl_search_smaller`: the greatest key at or below the given one. */
    method SearchSmaller(key: int) returns (r: int)
      requires Valid()
      ensures IsFloor(m, Inorder(tree), key, r)
    {
      hide Avl, H, Plug, Hold, Apart, Inorder, KeysSorted, Before, After, Distinct, IsFloor, KeysAround;
      var cur, pp;
      ghost var c, t;
      cur, pp, c, t := Descend(key);
      if cur != NULL {
        FoundExact(m, c, t, key);
        return cur;
      }
      HoldPtrs(m, c, cur, H(t));
      MissBounds(m, c, key);
      BeforeUp(c);
      HoldRoot(m, c, cur, H(t));
      if pp == NULL {
        return NULL;
      }
      NilFacts();
      SideByKey(m, c, key, H(t));
      if m[pp].key < key {
        return pp;
      }
      PlugSep(c, t);
      PrevSlot(c);
      r := Prev(pp);
    }

    /** The first steps of `avl_remove` when next is not node's own child. */
    method Unlink(next: int, ghost cn: Ctx, ghost tn: Tree)
      requires cn.InLeft? && tn.Bin? && tn.left.Nil? && next == tn.ptr && Avl(m, tn, cn.p) && Hold(m, cn, next, H(tn))
               && Apart(cn, tn) && next != cn.p
      modifies this`m
      ensures Hold(m, cn, Addr(tn.right), H(tn)) && Avl(m, tn.right, cn.p) && Apart(cn, tn.right)
              && H(tn.right) == H(tn) - 1
      ensures next !in Ptrs(tn.right) && next in m && m[next] == old(m)[next]
      ensures m.Keys == old(m).Keys && forall q :: q in m ==> m[q].key == old(m)[q].key
    {
      hide Avl, H, Hold, Apart, Ptrs;
      ghost var m0 := m;
      AvlOpen(m, tn, cn.p);
      HoldParent(m, cn, next, H(tn));
      Present(m, tn.right, next);
      var p := m[next].parent;
      m := SetLeft(m, p, m[next].right);
      if m[next].right != NULL {
        m := SetParent(m, m[next].right, p);
      }
      Unlinked(m0, m, cn, tn);
    }

    /** next replaces node in the links. */
    method Replace(node: int, next: int) returns (cur: int, bf: int)
      requires Apt(m, node, next)
      modifies this`m
      ensures TakesOver(old(m), m, node, next)
      ensures if old(m)[node].right == next then cur == next && bf == -1 else cur == old(m)[next].parent && bf == 1
    {
      hide TakesOver, Pointed, TookRight, TookLeft;
      ghost var m0 := m;
      var x := m[node];
      PointedCells(m, node, next);
      Point(node, next);
      RightCells(m, next, x);
      cur, bf := LinkRight(next, x);
      LeftCells(m, next, x);
      LinkLeft(next, x);
      TookOver(m0, node, next);
    }

    /** next takes the right child of x, unless it is that child. */
    method LinkRight(next: int, x: Cell) returns (cur: int, bf: int)
      requires next in m && x.right in m && x.right != NULL
      modifies this`m
      ensures m == TookRight(old(m), next, x)
      ensures if x.right == next then cur == next && bf == -1 else cur == old(m)[next].parent && bf == 1
    {
      if x.right != next {
        m := SetRight(m, next, x.right);
        if x.right != NULL {
          m := SetParent(m, x.right, next);
        }
        cur, bf := m[next].parent, 1;
      } else {
        cur, bf := next, -1;
      }
    }

    /** next takes the left child, the parent and the balance factor of x. */
    method LinkLeft(next: int, x: Cell)
      requires next in m && (x.left != NULL ==> x.left in m)
      modifies this`m
      ensures m == TookLeft(old(m), next, x)
    {
      m := SetLeft(m, next, x.left);
      if x.left != NULL {
        m := SetParent(m, x.left, next);
      }
      m := SetParent(m, next, x.parent);
      m := SetBf(m, next, x.bf);
    }

    /** The parent of node, if any, is made to point to next. */
    method Point(node: int, next: int)
      requires Apt(m, node, next)
      modifies this`m
      ensures m == Pointed(old(m), node, next)
    {
      var p := m[node].parent;
      if p != NULL {
        if m[p].left == node {
          m := SetLeft(m, p, next);
        } else {
          m := SetRight(m, p, next);
        }
      }
    }

    /** `avl_remove` of a node without a right child. */
    method RemoveBare(node: int, ghost c: Ctx, ghost t: Tree)
      requires t.Bin? && t.right.Nil? && node == t.ptr && Avl(m, t, Parent(c)) && Hold(m, c, node, H(t)) && Apart(c, t)
      requires root == Addr(Plug(c, t))
      modifies this
      ensures root == Addr(tree) && Avl(m, tree, NULL) && Sep(tree)
      ensures Inorder(tree) == Before(c) + Inorder(t.left) + (Inorder(t.right) + After(c))
      ensures m.Keys == old(m).Keys && forall q :: q in m ==> m[q].key == old(m)[q].key
    {
      hide Avl, H, Hold, Plug, Inorder, Ptrs, Sep, Above, Before, After, SepCtx, Only;
      ghost var m0 := m;
      AvlOpen(m, t, Parent(c));
      Present(m, t, Parent(c));
      Present(m, t.left, node);
      HoldRoot(m, c, node, H(t));
      var p, bf := m[node].parent, 0;
      if p != NULL {
        HoldParent(m, c, node, H(t));
        SideLeft(m, c, t, H(t));
        RootAbove(c, t);
        if m[p].left == node {
          m := SetLeft(m, p, m[node].left);
          bf := 1;
        } else {
          m := SetRight(m, p, m[node].left);
          bf := -1;
        }
      } else {
        AtRoot(c);
      }
      ghost var m1 := m;
      Selfless(m0, m1, c, t);
      if m[node].left != NULL {
        m := SetParent(m, m[node].left, p);
      }
      BareDone(m0, m1, m, c, t);
      BareWalk(c, t);
      var cur := m[node].parent;
      if root == node {
        root := if m[node].left != NULL then m[node].left else NULL;
      }
      if cur != NULL {
        ClimbShrink(m, c, t.left, H(t));
        ghost var t2 := if c.InLeft? then Bin(t.left, c.p, c.other) else Bin(c.other, c.p, t.left);
        PlugAddr(c, t, t.left);
        ghost var m2 := m;
        ShrinkUp(cur, bf, c.up, t2, Max(H(t), H(c.other)) + 1);
        KeysStay(m0, m2, m, Ptrs(Plug(c.up, t2)));
      } else {
        tree := t.left;
      }
    }

    /** `avl_remove` of a node whose right child is its in-order successor. */
    method RemoveDirect(node: int, next: int, ghost c: Ctx, ghost t: Tree)
      requires t.Bin? && t.right.Bin? && t.right.left.Nil? && node == t.ptr && next == t.right.ptr
      requires Avl(m, t, Parent(c)) && Hold(m, c, node, H(t)) && Apart(c, t) && root == Addr(Plug(c, t))
      modifies this
      ensures root == Addr(tree) && Avl(m, tree, NULL) && Sep(tree)
      ensures Inorder(tree) == Before(c) + Inorder(t.left) + (Inorder(t.right) + After(c))
      ensures m.Keys == old(m).Keys && forall q :: q in m ==> m[q].key == old(m)[q].key
    {
      hide Avl, H, Hold, Plug, Inorder, Ptrs, Sep, Above, Before, After, SepCtx, Only, TakesOver, Apt, Pending, Shrank,
           Apart;
      ghost var m0 := m;
      Down(m, c, t, false);
      AvlOpen(m, t, Parent(c));
      NextApart(m, InRight(c, node, t.left), t.right, InRight(c, node, t.left));
      ApartCtx(InRight(c, node, t.left), t.right);
      AptBase(m, c, node, t.left, next, H(t.right), next);
      var cur, bf := Replace(node, next);
      TakenKeys(m0, m, node, next);
      DirectPending(m0, m, c, t, next);
      DirectWalk(c, t);
      ghost var t2 := Bin(t.left, next, t.right.right);
      RootSwap(c, t, t2);
      if root == node {
        root := next;
      }
      ghost var m2 := m;
      ShrinkUp(cur, bf, c, t2, H(t));
      KeysStay(m0, m2, m, Ptrs(Plug(c, t2)));
    }

    /** `avl_remove` of a node whose in-order successor lies further down. */
    method RemoveDeep(node: int, next: int, ghost c: Ctx, ghost t: Tree, ghost cn: Ctx, ghost tn: Tree)
      requires t.Bin? && node == t.ptr && root == Addr(Plug(c, t)) && Apart(c, t) && node != NULL
      requires tn.Bin? && tn.left.Nil? && next == tn.ptr && cn.InLeft? && Leftward(cn.up, InRight(c, node, t.left))
               && Plug(cn, tn) == Plug(c, t)
      requires Avl(m, tn, Parent(cn)) && Hold(m, cn, next, H(tn)) && Apart(cn, tn)
      modifies this
      ensures root == Addr(tree) && Avl(m, tree, NULL) && Sep(tree)
      ensures Inorder(tree) == Before(c) + Inorder(t.left) + (Inorder(t.right) + After(c))
      ensures m.Keys == old(m).Keys && forall q :: q in m ==> m[q].key == old(m)[q].key
    {
      hide Avl, H, Hold, Plug, Inorder, Ptrs, Sep, Above, Before, After, SepCtx, Only, TakesOver, Apt, Pending, Shrank,
           Apart, Leftward, Rebase;
      ghost var m0, base := m, InRight(c, node, t.left);
      LeftwardStep(cn, base);
      NextApart(m, cn, tn, base);
      Unlink(next, cn, tn);
      ghost var m1, q, qr, cq := m, cn.p, cn.other, cn.up;
      ghost var t2, h2 := Bin(tn.right, q, qr), Max(H(tn), H(qr)) + 1;
      ClimbShrink(m, cn, tn.right, H(tn));
      DeepApt(m, cq, t2, c, node, t.left, next, 1, h2);
      var cur, bf := Replace(node, next);
      TakenKeys(m1, m, node, next);
      NextApartT2(tn, cn);
      DeepPending(m1, m, cq, t2, c, node, t.left, next, 1, h2);
      DeepWalk(cn, tn, c, t);
      ghost var c' := Rebase(cq, base, InRight(c, next, t.left));
      ghost var r := RebasePlug(cq, c, t.left, node, next, t2);
      RootSwap(c, t, Bin(t.left, next, r));
      if root == node {
        root := next;
      }
      ghost var m2 := m;
      ShrinkUp(cur, bf, c', t2, h2);
      KeysStay(m0, m2, m, Ptrs(Plug(c', t2)));
    }

    /** `avl_remove` */
    method Remove(node: int)
      requires Valid() && (node == NULL || node in Ptrs(tree))
      modifies this
      ensures Valid() && m.Keys == old(m).Keys && forall q :: q in m ==> m[q].key == old(m)[q].key
      ensures node == NULL ==> m == old(m) && tree == old(tree)
      ensures node != NULL ==>
                exists i ::
                  0 <= i < |Inorder(old(tree))| && Inorder(old(tree))[i] == node
                  && Inorder(tree) == Inorder(old(tree))[..i] + Inorder(old(tree))[i + 1..]
    {
      hide Avl, H, Hold, Plug, Inorder, Ptrs, Sep, Above, Before, After, Apart, Leftward, KeysSorted, Distinct;
      if node == NULL {
        return;
      }
      ghost var m0, ps := m, Inorder(tree);
      AtRoot(Root);
      NoContext(m, tree);
      ghost var c, t := Locate(m, Root, tree, node);
      SortedDistinct(m, Inorder(tree));
      RootAt(c, t);
      AvlOpen(m, t, Parent(c));
      Down(m, c, t, false);
      ghost var base := InRight(c, node, t.left);
      var next;
      ghost var cn, tn;
      next, cn, tn := First(m[node].right, base, t.right);
      if next == NULL {
        RemoveBare(node, c, t);
      } else {
        NextApart(m, cn, tn, base);
        if m[next].parent == node {
          PlugInjective(base, t.right, tn);
          RemoveDirect(node, next, c, t);
        } else {
          RemoveDeep(node, next, c, t, cn, tn);
        }
      }
      Dropped(m0, m, Before(c) + Inorder(t.left), node, Inorder(t.right) + After(c));
    }
  }
}
