/** Facts behind `avl_remove` (src/avltree.cc): taking a node out of the links and
    putting its in-order successor in its place. */
module AvlCut {
  import opened Sets
  import opened AvlTree
  import opened AvlCtx
  import opened AvlStep

  lemma {:induction false} AvlParents(m: Mem, t: Tree, par: int, q: int)
    requires Avl(m, t, par) && q in Ptrs(t)
    ensures q in m && m[q].parent in Ptrs(t) + {par}
    decreases t
  {
    if q == t.ptr {
    } else if q in Ptrs(t.left) {
      AvlParents(m, t.left, t.ptr, q);
    } else {
      AvlParents(m, t.right, t.ptr, q);
    }
  }

  /** The context c' with the ancestor frame base below it replaced. */
  ghost function Rebase(c': Ctx, base: Ctx, base': Ctx): Ctx
    requires Leftward(c', base)
    decreases c'
  {
    if c' == base then base' else InLeft(Rebase(c'.up, base, base'), c'.p, c'.other)
  }

  lemma {:induction false} RebaseSep(cq: Ctx, c: Ctx, l: Tree, node: int, next: int)
    requires Leftward(cq, InRight(c, node, l)) && SepCtx(cq) && next !in Above(cq)
    ensures var c' := Rebase(cq, InRight(c, node, l), InRight(c, next, l));
            SepCtx(c') && Above(c') == Above(cq) - {node} + {next}
    decreases cq
  {
    if cq == InRight(c, node, l) {
    } else {
      LeftwardFacts(cq.up, InRight(c, node, l));
      RebaseSep(cq.up, c, l, node, next);
    }
  }

  lemma {:induction false} RebaseWalk(cq: Ctx, c: Ctx, l: Tree, node: int, next: int)
    requires Leftward(cq, InRight(c, node, l))
    ensures var c' := Rebase(cq, InRight(c, node, l), InRight(c, next, l));
            Before(c') == Before(c) + Inorder(l) + [next] && After(c') == After(cq)
    decreases cq
  {
    if cq != InRight(c, node, l) {
      RebaseWalk(cq.up, c, l, node, next);
    }
  }

  lemma {:induction false} RebasePlug(cq: Ctx, c: Ctx, l: Tree, node: int, next: int, t: Tree) returns (r: Tree)
    requires Leftward(cq, InRight(c, node, l))
    ensures Plug(Rebase(cq, InRight(c, node, l), InRight(c, next, l)), t) == Plug(c, Bin(l, next, r))
    decreases cq
  {
    if cq == InRight(c, node, l) {
      r := t;
    } else {
      r := RebasePlug(cq.up, c, l, node, next, Bin(t, cq.p, cq.other));
    }
  }

  /** next stands where node stood: it has node's links and balance factor, and node's
      neighbours point to it. */
  ghost predicate TakesOver(m: Mem, m': Mem, node: int, next: int) {
    && node in m && next in m && m'.Keys == m.Keys
    && var x := m[node];
    && m'[next] == m[next].(left := x.left, right := if x.right == next then m[next].right
                            else x.right, parent := x.parent, bf := x.bf)
    && (x.left != NULL && x.left in m ==> m'[x.left] == m[x.left].(parent := next))
    && (x.right != next && x.right in m ==> m'[x.right] == m[x.right].(parent := next))
    && (x.parent != NULL && x.parent in m ==>
          m'[x.parent] == if m[x.parent].left == node then m[x.parent].(left := next) else m[x.parent].(right := next))
    && (forall q ::
          q in m && q != next && (q != x.left || q == NULL) && q != x.right && (q != x.parent || q == NULL) ==>
            m'[q] == m[q])
  }

  /** The cells around node are distinct, so that they can be relinked one by one. */
  ghost predicate Apt(m: Mem, node: int, next: int) {
    && node in m && next in m && node != NULL && next != NULL && next != node
    && var x := m[node];
    && (x.parent != NULL ==>
          x.parent in m && x.parent != next && x.parent != node && x.parent != x.left && x.parent != x.right)
    && (x.left != NULL ==> x.left in m && x.left != next && x.left != node && x.left != x.right)
    && x.right in m && x.right != node && x.right != NULL
  }

  /** The memory after the parent of node was made to point to next. */
  function Pointed(m: Mem, node: int, next: int): Mem
    requires node in m
  {
    var p := m[node].parent;
    if p == NULL || p !in m then m
    else if m[p].left == node then SetLeft(m, p, next) else SetRight(m, p, next)
  }

  function TookRight(m: Mem, next: int, x: Cell): Mem
    requires next in m && x.right in m
  {
    if x.right == next then m else SetParent(SetRight(m, next, x.right), x.right, next)
  }

  function TookLeft(m: Mem, next: int, x: Cell): Mem
    requires next in m && (x.left != NULL ==> x.left in m)
  {
    var m1 := SetLeft(m, next, x.left);
    var m2 := if x.left == NULL then m1 else SetParent(m1, x.left, next);
    SetBf(SetParent(m2, next, x.parent), next, x.bf)
  }

  lemma PointedCells(m: Mem, node: int, next: int)
    requires Apt(m, node, next)
    ensures var m', x := Pointed(m, node, next), m[node];
            && m'.Keys == m.Keys && (forall q :: q in m && (q != x.parent || q == NULL) ==> m'[q] == m[q])
            && (x.parent != NULL ==>
                  var c := m[x.parent]; m'[x.parent] == if c.left == node then c.(left := next) else c.(right := next))
  {
  }

  lemma RightCells(m: Mem, next: int, x: Cell)
    requires next in m && x.right in m
    ensures var m' := TookRight(m, next, x);
            && m'.Keys == m.Keys && (forall q :: q in m && q != next && q != x.right ==> m'[q] == m[q])
            && m'[next] == (if x.right == next then m[next] else m[next].(right := x.right))
            && (x.right != next ==> m'[x.right] == m[x.right].(parent := next))
  {
  }

  lemma LeftCells(m: Mem, next: int, x: Cell)
    requires next in m && (x.left != NULL ==> x.left in m && x.left != next)
    ensures var m' := TookLeft(m, next, x);
            && m'.Keys == m.Keys && (forall q :: q in m && q != next && (q != x.left || q == NULL) ==> m'[q] == m[q])
            && m'[next] == m[next].(left := x.left, parent := x.parent, bf := x.bf)
            && (x.left != NULL ==> m'[x.left] == m[x.left].(parent := next))
  {
  }

  /** The three groups of links together. */
  lemma TookOver(m: Mem, node: int, next: int)
    requires Apt(m, node, next) && Pointed(m, node, next).Keys == m.Keys
    requires TookRight(Pointed(m, node, next), next, m[node]).Keys == m.Keys
    ensures var x := m[node]; TakesOver(m, TookLeft(TookRight(Pointed(m, node, next), next, x), next, x), node, next)
  {
    hide Pointed, TookRight, TookLeft;
    var x := m[node];
    var m1 := Pointed(m, node, next);
    PointedCells(m, node, next);
    RightCells(m1, next, x);
    LeftCells(TookRight(m1, next, x), next, x);
  }

  lemma TakenKeys(m: Mem, m': Mem, node: int, next: int)
    requires TakesOver(m, m', node, next)
    ensures m'.Keys == m.Keys && forall q :: q in m ==> m'[q].key == m[q].key
  {
  }

  lemma AwayTaken(m: Mem, m': Mem, node: int, next: int, s: set<int>)
    requires TakesOver(m, m', node, next) && next !in s && m[node].left !in s && m[node].right !in s
             && m[node].parent !in s
    ensures forall q :: q in s && q in m ==> q in m' && m'[q] == m[q]
  {
  }

  lemma ParentTaken(m: Mem, m': Mem, node: int, next: int)
    requires TakesOver(m, m', node, next) && m[node].parent != NULL && m[node].parent in m
    ensures var p := m[node].parent;
            p in m' && m'[p] == if m[p].left == node then m[p].(left := next) else m[p].(right := next)
  {
  }

  /** What Hold says of the innermost ancestor. */
  ghost predicate HoldHere(m: Mem, c: Ctx, a: int, h: int)
    requires !c.Root?
  {
    && c.p != NULL && c.p in m && m[c.p].parent == Parent(c.up) && Avl(m, c.other, c.p)
    && (if c.InLeft? then m[c.p].left == a && m[c.p].right == Addr(c.other)
        else m[c.p].right == a && m[c.p].left == Addr(c.other))
    && m[c.p].bf == (if c.InLeft? then H(c.other) - h else h - H(c.other)) && -1 <= m[c.p].bf <= 1
  }

  lemma HoldSplit(m: Mem, c: Ctx, a: int, h: int)
    requires !c.Root? && Hold(m, c, a, h)
    ensures HoldHere(m, c, a, h) && Hold(m, c.up, c.p, Max(h, H(c.other)) + 1)
  {
  }

  lemma HoldJoin(m: Mem, c: Ctx, a: int, h: int)
    requires !c.Root? && HoldHere(m, c, a, h) && Hold(m, c.up, c.p, Max(h, H(c.other)) + 1)
    ensures Hold(m, c, a, h)
  {
  }

  lemma HoldNone(m: Mem, a: int, h: int)
    ensures Hold(m, Root, a, h)
  {
  }

  lemma AboveSplit(c: Ctx)
    requires !c.Root? && SepCtx(c)
    ensures Above(c) == Above(c.up) + {c.p} + Ptrs(c.other) && c.p !in Above(c.up) && c.p !in Ptrs(c.other)
  {
  }

  lemma HoldTaken(m: Mem, m': Mem, c: Ctx, node: int, next: int, h: int)
    requires Hold(m, c, node, h) && SepCtx(c) && node in m && next !in Above(c) && node !in Above(c) && node != NULL
    requires TakesOver(m, m', node, next) && m[node].parent == Parent(c) && m[node].left !in Above(c)
             && m[node].right !in Above(c)
    ensures Hold(m', c, next, h)
  {
    hide TakesOver, Avl, H, Hold, SepCtx, Above;
    if c.Root? {
      HoldNone(m', next, h);
    } else {
      HoldSplit(m, c, node, h);
      AboveSplit(c);
      AwayTaken(m, m', node, next, Above(c.up) + Ptrs(c.other));
      ParentTaken(m, m', node, next);
      HoldFrame(m, m', c.up, c.p, Max(h, H(c.other)) + 1);
      AvlFrame(m, m', c.other, c.p);
      Present(m, c.other, c.p);
      HoldJoin(m', c, next, h);
    }
  }

  lemma LeftTaken(m: Mem, m': Mem, l: Tree, node: int, next: int)
    requires Avl(m, l, node) && Sep(l) && TakesOver(m, m', node, next) && m[node].left == Addr(l)
    requires next !in Ptrs(l) && m[node].right !in Ptrs(l) && m[node].parent !in Ptrs(l) && NULL !in Ptrs(l)
    ensures Avl(m', l, next)
  {
    AvlReparent(m, m', l, node, next);
  }

  /** The frame of node becomes a frame of next. */
  lemma BaseTaken(m: Mem, m': Mem, c: Ctx, node: int, l: Tree, next: int, a: int, h: int)
    requires Hold(m, InRight(c, node, l), a, h) && SepCtx(InRight(c, node, l)) && next !in Above(InRight(c, node, l))
    requires TakesOver(m, m', node, next) && a !in Above(InRight(c, node, l)) && a != next && next != NULL
    ensures Hold(m', InRight(c, next, l), a, h)
  {
    hide TakesOver, H, Avl;
    Around(m, c, node, l, a, h);
    HoldTaken(m, m', c, node, next, Max(h, H(l)) + 1);
    LeftTaken(m, m', l, node, next);
    NextTaken(m, m', node, next);
  }

  lemma Around(m: Mem, c: Ctx, node: int, l: Tree, a: int, h: int)
    requires Hold(m, InRight(c, node, l), a, h) && SepCtx(InRight(c, node, l))
    ensures NULL !in Ptrs(l) && NULL !in Above(c) && m[node].parent == Parent(c) && Addr(l) !in Above(c)
            && Parent(c) !in Ptrs(l)
  {
    HoldPtrs(m, InRight(c, node, l), a, h);
    Present(m, l, node);
  }

  lemma NextTaken(m: Mem, m': Mem, node: int, next: int)
    requires TakesOver(m, m', node, next)
    ensures next in m' && m'[next].left == m[node].left && m'[next].parent == m[node].parent
            && m'[next].bf == m[node].bf
    ensures m[node].right != next ==> m'[next].right == m[node].right
    ensures m[node].right == next ==> m'[next].right == m[next].right
  {
  }

  /** What the frames between node's right child and q see of the exchange: only the
      topmost cell's parent link moved. */
  ghost predicate TopMoved(m: Mem, m': Mem, base: Ctx, base': Ctx) {
    && base.InRight? && base'.InRight? && base.p in m && m'.Keys == m.Keys
    && var top := m[base.p].right;
    && top in m && top !in Above(base) && m[top].parent == base.p
    && m'[top] == m[top].(parent := base'.p)
    && (forall q :: q in m && q !in Above(base) && q != base'.p && q != top ==> m'[q] == m[q])
    && (forall a, h :: Hold(m, base, a, h) ==> Hold(m', base', a, h))
  }

  lemma {:induction false} RebaseHold(m: Mem, m': Mem, cq: Ctx, base: Ctx, base': Ctx, a: int, h: int)
    requires Leftward(cq, base) && Hold(m, cq, a, h) && SepCtx(cq) && TopMoved(m, m', base, base')
             && base'.p !in Above(cq)
    ensures Hold(m', Rebase(cq, base, base'), a, h)
    decreases cq
  {
    if cq != base {
      RebaseHold(m, m', cq.up, base, base', cq.p, Max(h, H(cq.other)) + 1);
      LeftwardFacts(cq.up, base);
      OtherKept(m, m', cq, base, base', a, h);
      FrameKept(m, m', cq, base, base', a, h);
    }
  }

  lemma OtherKept(m: Mem, m': Mem, cq: Ctx, base: Ctx, base': Ctx, a: int, h: int)
    requires cq.InLeft? && Hold(m, cq, a, h) && SepCtx(cq) && TopMoved(m, m', base, base') && base'.p !in Above(cq)
             && Above(base) <= Above(cq.up)
    ensures Avl(m', cq.other, cq.p)
  {
    hide Hold, Avl, H;
    HoldSplit(m, cq, a, h);
    assert base.p in Above(base);
    var top := m[base.p].right;
    if top in Ptrs(cq.other) {
      AvlParents(m, cq.other, cq.p, top);
      assert false;
    }
    AvlFrame(m, m', cq.other, cq.p);
  }

  lemma FrameKept(m: Mem, m': Mem, cq: Ctx, base: Ctx, base': Ctx, a: int, h: int)
    requires cq.InLeft? && Leftward(cq.up, base) && Hold(m, cq, a, h) && SepCtx(cq) && TopMoved(m, m', base, base')
    requires base'.p !in Above(cq) && Above(base) <= Above(cq.up)
    ensures cq.p in m && m'[cq.p] == m[cq.p].(parent := Parent(Rebase(cq.up, base, base')))
  {
    hide Avl, H;
    if cq.up != base {
      LeftwardFacts(cq.up.up, base);
      assert base.p in Above(base);
    }
  }

  lemma {:induction false} PlugInjective(c: Ctx, t: Tree, t': Tree)
    requires Plug(c, t) == Plug(c, t')
    ensures t == t'
    decreases c
  {
    if c.InLeft? {
      PlugInjective(c.up, Bin(t, c.p, c.other), Bin(t', c.p, c.other));
    } else if c.InRight? {
      PlugInjective(c.up, Bin(c.other, c.p, t), Bin(c.other, c.p, t'));
    }
  }

  /** The right child of the base frame, seen from a place further down its left edge. */
  lemma {:induction false} TopFacts(m: Mem, cq: Ctx, base: Ctx, a: int, h: int)
    requires Leftward(cq, base) && base.InRight? && Hold(m, cq, a, h) && SepCtx(cq)
    requires a in m && a != NULL && m[a].parent == Parent(cq) && a !in Above(cq)
    ensures base.p in m
    ensures var top := m[base.p].right;
            top in m && top != NULL && m[top].parent == base.p && top !in Above(base) && (top == a || top in Above(cq))
                && (cq == base ==> top == a)
    decreases cq
  {
    hide Avl, H;
    if cq != base {
      TopFacts(m, cq.up, base, cq.p, Max(h, H(cq.other)) + 1);
    }
  }

  lemma {:induction false} BaseHold(m: Mem, cq: Ctx, base: Ctx, a: int, h: int) returns (a0: int, h0: int)
    requires Leftward(cq, base) && Hold(m, cq, a, h) && SepCtx(cq)
    ensures Hold(m, base, a0, h0) && SepCtx(base)
    decreases cq
  {
    if cq == base {
      a0, h0 := a, h;
    } else {
      a0, h0 := BaseHold(m, cq.up, base, cq.p, Max(h, H(cq.other)) + 1);
    }
  }

  lemma AptBase(m: Mem, c: Ctx, node: int, l: Tree, a: int, h: int, next: int)
    requires Hold(m, InRight(c, node, l), a, h) && SepCtx(InRight(c, node, l)) && a !in Above(InRight(c, node, l))
             && a in m && a != NULL
    requires next !in Above(InRight(c, node, l)) && next in m && next != NULL
    ensures Apt(m, node, next)
  {
    hide Avl, H;
    HoldPtrs(m, InRight(c, node, l), a, h);
    Present(m, l, node);
  }

  lemma TopMovedBy(m: Mem, m': Mem, c: Ctx, node: int, l: Tree, next: int)
    requires TakesOver(m, m', node, next) && SepCtx(InRight(c, node, l)) && next !in Above(InRight(c, node, l))
             && next != NULL
    requires var top := m[node].right;
             top in m && m[top].parent == node && top !in Above(InRight(c, node, l)) && top != next
    requires m[node].left == Addr(l) && (l.Nil? || l.ptr != NULL) && m[node].parent == Parent(c)
    ensures TopMoved(m, m', InRight(c, node, l), InRight(c, next, l))
  {
    hide Hold;
    var base := InRight(c, node, l);
    assert Top(l) <= Ptrs(l);
    forall a, h | Hold(m, base, a, h) ensures Hold(m', InRight(c, next, l), a, h) {
      HoldRight(m, base, a, h);
      BaseTaken(m, m', c, node, l, next, a, h);
    }
    assert node in Above(base) && (c.Root? || c.p in Above(base));
  }

  lemma HoldRight(m: Mem, c: Ctx, a: int, h: int)
    requires c.InRight? && Hold(m, c, a, h)
    ensures c.p in m && m[c.p].right == a && m[c.p].left == Addr(c.other) && (c.other.Nil? || c.other.ptr != NULL)
            && m[c.p].parent == Parent(c.up)
  {
  }

  /** The subtree in the hole sees only its root's parent link move. */
  lemma BelowKept(m: Mem, m': Mem, cq: Ctx, base: Ctx, base': Ctx, t: Tree, par: int)
    requires Leftward(cq, base) && TopMoved(m, m', base, base') && base'.p !in Ptrs(t) && Ptrs(t) !! Above(cq)
    requires Avl(m, t, par) && par != base.p
    ensures Avl(m', t, par)
  {
    hide Hold, Avl, H;
    LeftwardFacts(cq, base);
    assert base.p in Above(base);
    var top := m[base.p].right;
    if top in Ptrs(t) {
      AvlParents(m, t, par, top);
      assert false;
    }
    AvlFrame(m, m', t, par);
  }

  lemma RootMoved(m: Mem, m': Mem, cq: Ctx, base: Ctx, base': Ctx, a: int, h: int)
    requires Leftward(cq, base) && Hold(m, cq, a, h) && SepCtx(cq) && TopMoved(m, m', base, base')
    requires a in m && a != NULL && m[a].parent == Parent(cq) && a !in Above(cq) && a != base'.p
    ensures a in m' && m'[a] == m[a].(parent := Parent(Rebase(cq, base, base')))
  {
    hide Avl, H;
    TopFacts(m, cq, base, a, h);
    LeftwardFacts(cq, base);
    if cq != base {
      LeftwardFacts(cq.up, base);
      assert base.p in Above(base);
    }
  }

  lemma DeepTop(m: Mem, m': Mem, cq: Ctx, a: int, h: int, c: Ctx, node: int, l: Tree, next: int)
    requires Leftward(cq, InRight(c, node, l)) && Hold(m, cq, a, h) && SepCtx(cq) && TakesOver(m, m', node, next)
    requires a in m && a != NULL && m[a].parent == Parent(cq) && a !in Above(cq) && next !in Above(cq) && next != a
             && next != NULL
    ensures TopMoved(m, m', InRight(c, node, l), InRight(c, next, l))
  {
    hide Avl, H, Hold, TakesOver, TopMoved;
    var base := InRight(c, node, l);
    TopFacts(m, cq, base, a, h);
    LeftwardFacts(cq, base);
    var a0, h0 := BaseHold(m, cq, base, a, h);
    HoldRight(m, base, a0, h0);
    TopMovedBy(m, m', c, node, l, next);
  }

  /** The pending shrink below node's right child survives the exchange of node and next. */
  lemma DeepPending(m: Mem, m': Mem, cq: Ctx, t: Tree, c: Ctx, node: int, l: Tree, next: int, bf: int, h: int)
    requires Pending(m, cq, t, bf, h) && Leftward(cq, InRight(c, node, l)) && TakesOver(m, m', node, next)
    requires next !in Above(cq) && next !in Ptrs(t) && next != NULL
    ensures Pending(m', Rebase(cq, InRight(c, node, l), InRight(c, next, l)), t, bf, h)
  {
    hide Avl, H, Hold, TakesOver, TopMoved, Leftward, Rebase, SepCtx, Sep, Above, Ptrs;
    var base, base' := InRight(c, node, l), InRight(c, next, l);
    var a := t.ptr;
    RootIn(t);
    DeepTop(m, m', cq, a, h, c, node, l, next);
    RebaseHold(m, m', cq, base, base', a, h);
    RebaseSep(cq, c, l, node, next);
    RootMoved(m, m', cq, base, base', a, h);
    BaseIn(cq, base);
    BelowKept(m, m', cq, base, base', t.left, a);
    BelowKept(m, m', cq, base, base', t.right, a);
  }

  lemma RootIn(t: Tree)
    requires t.Bin?
    ensures Ptrs(t) == Ptrs(t.left) + {t.ptr} + Ptrs(t.right)
  {
  }

  lemma BaseIn(c': Ctx, c: Ctx)
    requires Leftward(c', c) && !c.Root?
    ensures c.p in Above(c')
  {
    LeftwardFacts(c', c);
  }

  /** When node's right child is next, next takes node's place and lost one level on its right. */
  lemma DirectPending(m: Mem, m': Mem, c: Ctx, t: Tree, next: int)
    requires t.Bin? && t.right.Bin? && t.right.left.Nil? && next == t.right.ptr && Apart(c, t)
    requires Avl(m, t, Parent(c)) && Hold(m, c, t.ptr, H(t)) && TakesOver(m, m', t.ptr, next)
    ensures var t2 := Bin(t.left, next, t.right.right); Pending(m', c, t2, -1, H(t)) && Shrank(t2, -1, H(t))
  {
    hide TakesOver, Avl, Hold;
    var node := t.ptr;
    var l, r := t.left, t.right;
    SepBin(l, node, r);
    SepBin(Nil, next, r.right);
    AvlOpen(m, t, Parent(c));
    AvlOpen(m, r, node);
    AvlPtrs(m, t, Parent(c));
    HoldPtrs(m, c, node, H(t));
    assert Top(l) <= Ptrs(l);
    HoldTaken(m, m', c, node, next, H(t));
    LeftTaken(m, m', l, node, next);
    NextTaken(m, m', node, next);
    AwayTaken(m, m', node, next, Ptrs(r.right));
    AvlFrame(m, m', r.right, next);
    assert Ptrs(Bin(l, next, r.right)) == Ptrs(l) + {next} + Ptrs(r.right);
  }

  /** next, the leftmost node below node's right child, is out of the links and its right
      subtree hangs in its place. */
  lemma Unlinked(m: Mem, m': Mem, cn: Ctx, tn: Tree)
    requires cn.InLeft? && tn.Bin? && tn.left.Nil? && Avl(m, tn, cn.p) && Hold(m, cn, tn.ptr, H(tn)) && Apart(cn, tn)
             && cn.p in m
    requires var r := tn.right;
             m' == if r.Nil? || r.ptr !in m then SetLeft(m, cn.p, Addr(r))
             else SetParent(SetLeft(m, cn.p, Addr(r)), r.ptr, cn.p)
    ensures Hold(m', cn, Addr(tn.right), H(tn)) && Avl(m', tn.right, cn.p) && Apart(cn, tn.right)
            && H(tn.right) == H(tn) - 1
    ensures tn.ptr !in Ptrs(tn.right)
  {
    hide Avl, Hold;
    var r := tn.right;
    SepBin(Nil, tn.ptr, r);
    var m1 := SetLeft(m, cn.p, Addr(r));
    HoldRelink(m, m1, cn, tn.ptr, Addr(r), H(tn));
    assert Top(r) <= Ptrs(r);
    HoldFrame(m1, m', cn, Addr(r), H(tn));
    AvlOpen(m, tn, cn.p);
    assert cn.p in Above(cn);
    AvlReparent(m, m', r, tn.ptr, cn.p);
  }

  lemma Cancel(x: seq<int>, y: seq<int>, z: seq<int>)
    requires x + y == x + z
    ensures y == z
  {
    assert y == (x + y)[|x|..] && z == (x + z)[|x|..];
  }

  /** The walk from next on, seen from below: next, its right subtree, then what follows. */
  ghost function Tail(cn: Ctx, tn: Tree): seq<int>
    requires cn.InLeft? && tn.Bin?
  {
    [tn.ptr] + Inorder(Bin(tn.right, cn.p, cn.other)) + After(cn.up)
  }

  lemma TailIs(cn: Ctx, tn: Tree)
    requires cn.InLeft? && tn.Bin?
    ensures Tail(cn, tn) == [tn.ptr] + Inorder(Bin(tn.right, cn.p, cn.other)) + After(cn.up)
  {
  }

  lemma TailBelow(cn: Ctx, tn: Tree)
    requires cn.InLeft? && tn.Bin? && tn.left.Nil?
    ensures Inorder(Plug(cn, tn)) == Before(cn.up) + Tail(cn, tn)
  {
    hide Plug;
    PlugInorder(cn, tn);
    assert Inorder(tn) == [tn.ptr] + Inorder(tn.right);
    InorderBin(tn.right, cn.p, cn.other);
    assert After(cn) == [cn.p] + Inorder(cn.other) + After(cn.up);
    assert Inorder(tn) + After(cn) == Tail(cn, tn);
  }

  lemma TailAbove(cn: Ctx, tn: Tree, c: Ctx, t: Tree)
    requires t.Bin? && cn.InLeft? && tn.Bin? && tn.left.Nil? && Leftward(cn.up, InRight(c, t.ptr, t.left))
             && Plug(cn, tn) == Plug(c, t)
    ensures Inorder(t.right) + After(c) == Tail(cn, tn)
  {
    hide Plug, Leftward, Tail, Inorder, Before, After, Above;
    PlugInorder(c, t);
    assert t == Bin(t.left, t.ptr, t.right);
    InorderBin(t.left, t.ptr, t.right);
    TailBelow(cn, tn);
    LeftwardFacts(cn.up, InRight(c, t.ptr, t.left));
    BeforeRight(c, t.ptr, t.left);
    var head := Before(c) + Inorder(t.left) + [t.ptr];
    GroupMid(Before(c), Inorder(t.left), [t.ptr], Inorder(t.right), After(c));
    Cancel(head, Inorder(t.right) + After(c), Tail(cn, tn));
  }

  lemma Regroup4(a: seq<int>, b: seq<int>, c: seq<int>, d: seq<int>)
    ensures a + b + c + d == a + (b + c + d)
  {
  }

  /** The exchange drops exactly node from the in-order walk. */
  lemma DeepWalk(cn: Ctx, tn: Tree, c: Ctx, t: Tree)
    requires t.Bin? && cn.InLeft? && tn.Bin? && tn.left.Nil? && Leftward(cn.up, InRight(c, t.ptr, t.left))
             && Plug(cn, tn) == Plug(c, t)
    ensures Inorder(Plug(Rebase(cn.up, InRight(c, t.ptr, t.left), InRight(c, tn.ptr, t.left)),
                         Bin(tn.right, cn.p, cn.other)))
            == Before(c) + Inorder(t.left) + (Inorder(t.right) + After(c))
  {
    hide Plug, Rebase, Leftward, Inorder, Before, After, Tail;
    TailAbove(cn, tn, c, t);
    RebaseWalk(cn.up, c, t.left, t.ptr, tn.ptr);
    var t2 := Bin(tn.right, cn.p, cn.other);
    PlugInorder(Rebase(cn.up, InRight(c, t.ptr, t.left), InRight(c, tn.ptr, t.left)), t2);
    TailIs(cn, tn);
    Regroup4(Before(c) + Inorder(t.left), [tn.ptr], Inorder(t2), After(cn.up));
  }

  lemma DirectWalk(c: Ctx, t: Tree)
    requires t.Bin? && t.right.Bin? && t.right.left.Nil?
    ensures Inorder(Plug(c, Bin(t.left, t.right.ptr, t.right.right))) == Before(c) + Inorder(t.left)
            + (Inorder(t.right) + After(c))
  {
    hide Plug, Before, After, Inorder;
    var l, r := t.left, t.right;
    PlugInorder(c, Bin(l, r.ptr, r.right));
    InorderBin(l, r.ptr, r.right);
    InorderBin(Nil, r.ptr, r.right);
    NilFacts();
    assert r == Bin(Nil, r.ptr, r.right);
    GroupWalk(Before(c), Inorder(l), r.ptr, Inorder(r.right), After(c));
  }

  lemma GroupWalk(b: seq<int>, l: seq<int>, p: int, r: seq<int>, a: seq<int>)
    ensures b + (l + [p] + r) + a == b + l + ([] + [p] + r + a)
  {
  }

  lemma BareWalk(c: Ctx, t: Tree)
    requires t.Bin? && t.right.Nil?
    ensures Inorder(Plug(c, t.left)) == Before(c) + Inorder(t.left) + (Inorder(t.right) + After(c))
  {
    hide Plug, Before, After;
    PlugInorder(c, t.left);
    assert Inorder(t.right) + After(c) == After(c);
  }

  lemma Dropped(m: Mem, m': Mem, x: seq<int>, p: int, y: seq<int>)
    requires KeysSorted(m, x + [p] + y) && m'.Keys == m.Keys && forall q :: q in m ==> m'[q].key == m[q].key
    ensures KeysSorted(m', x + y) && (x + [p] + y)[..|x|] + (x + [p] + y)[|x| + 1..] == x + y
  {
    var all := x + [p] + y;
    forall i | 0 <= i < |x + y| ensures (x + y)[i] == all[if i < |x| then i else i + 1] {}
    assert all[..|x|] == x && all[|x| + 1..] == y;
  }

  lemma {:induction false} RootAbove(c: Ctx, t: Tree)
    requires !c.Root?
    ensures Addr(Plug(c, t)) in Above(c)
    decreases c
  {
    var t' := if c.InLeft? then Bin(t, c.p, c.other) else Bin(c.other, c.p, t);
    if !c.up.Root? {
      RootAbove(c.up, t');
    }
  }

  /** A node without a right child is replaced by its left subtree. */
  lemma BareDone(m: Mem, m1: Mem, m': Mem, c: Ctx, t: Tree)
    requires t.Bin? && t.right.Nil? && Avl(m, t, Parent(c)) && Hold(m, c, t.ptr, H(t)) && Apart(c, t)
    requires if c.Root? then m1 == m else c.p in m && m1 == if c.InLeft? then SetLeft(m, c.p, Addr(t.left))
             else SetRight(m, c.p, Addr(t.left))
    requires var l := t.left; m' == if l.Nil? || l.ptr !in m1 then m1 else SetParent(m1, l.ptr, Parent(c))
    ensures Hold(m', c, Addr(t.left), H(t)) && Avl(m', t.left, Parent(c)) && Apart(c, t.left) && H(t.left) == H(t) - 1
  {
    hide Avl, Hold;
    var l := t.left;
    SepBin(l, t.ptr, Nil);
    if c.Root? { HoldAtRoot(m, m', c, t.ptr, Addr(l), H(t)); } else {
      HoldRelink(m, m1, c, t.ptr, Addr(l), H(t));
      HoldFrame(m1, m', c, Addr(l), H(t));
    }
    AvlOpen(m, t, Parent(c));
    assert c.Root? || c.p in Above(c);
    AvlReparent(m, m', l, t.ptr, Parent(c));
  }

  lemma HoldAtRoot(m: Mem, m': Mem, c: Ctx, a: int, a': int, h: int)
    requires c.Root?
    ensures Hold(m', c, a', h)
  {
  }

  /** Before the exchange: next is apart from node's surroundings, and is node's own child
      exactly when it was not found further down. */
  lemma NextApart(m: Mem, cn: Ctx, tn: Tree, base: Ctx)
    requires base.InRight? && tn.Bin? && Leftward(cn, base) && Apart(cn, tn) && Hold(m, cn, tn.ptr, H(tn))
             && Avl(m, tn, Parent(cn))
    ensures tn.ptr in m && tn.ptr != NULL && tn.ptr !in Above(cn) && m[tn.ptr].parent == Parent(cn)
            && Parent(cn) != NULL
    ensures Parent(cn) == base.p <==> cn == base
    ensures cn != base ==>
              cn.InLeft? && Leftward(cn.up, base) && Parent(cn) == cn.p && tn.ptr !in Above(cn.up) && tn.ptr != cn.p
              && tn.ptr !in Ptrs(cn.other)
  {
    hide H, Avl;
    AvlOpen(m, tn, Parent(cn));
    assert tn.ptr in Ptrs(tn);
    if cn != base { BaseIn(cn.up, base); }
  }

  /** Relinking node's parent does not touch node itself. */
  lemma Selfless(m: Mem, m': Mem, c: Ctx, t: Tree)
    requires t.Bin? && t.ptr in m && t.ptr in Ptrs(t) && Apart(c, t) && m'.Keys == m.Keys
    requires c.Root? ==> m' == m
    requires !c.Root? ==> forall q :: q in m && q != c.p ==> m'[q] == m[q]
    ensures m'[t.ptr] == m[t.ptr] && (c.Root? || (t.ptr != c.p && t.ptr !in Above(c)))
    ensures t.left.Nil? || t.left.ptr != t.ptr
  {
  }

  lemma ApartCtx(c: Ctx, t: Tree)
    requires t.Bin? && Apart(c, t)
    ensures SepCtx(c) && t.ptr !in Above(c)
  {
    assert t.ptr in Ptrs(t);
  }

  /** The root of the whole tree moves from t's root to t2's exactly when t was the whole. */
  lemma RootSwap(c: Ctx, t: Tree, t2: Tree)
    requires t.Bin? && t2.Bin? && Apart(c, t)
    ensures Addr(Plug(c, t2)) == if Addr(Plug(c, t)) == t.ptr then t2.ptr else Addr(Plug(c, t))
  {
    hide Plug;
    ApartCtx(c, t);
    if c.Root? {
      AtRoot(c);
    } else {
      RootAbove(c, t);
      PlugAddr(c, t, t2);
    }
  }

  lemma LeftwardStep(cn: Ctx, base: Ctx)
    requires cn.InLeft? && Leftward(cn.up, base) && base.InRight?
    ensures Leftward(cn, base) && cn != base
  {
  }

  lemma NextApartT2(tn: Tree, cn: Ctx)
    requires tn.Bin? && cn.InLeft? && tn.ptr !in Ptrs(tn.right) && tn.ptr != cn.p && tn.ptr !in Ptrs(cn.other)
    ensures tn.ptr !in Ptrs(Bin(tn.right, cn.p, cn.other))
  {
  }

  lemma DeepApt(m: Mem, cq: Ctx, t: Tree, c: Ctx, node: int, l: Tree, next: int, bf: int, h: int)
    requires Pending(m, cq, t, bf, h) && Leftward(cq, InRight(c, node, l)) && next !in Above(cq) && next != t.ptr
             && next in m && next != NULL
    ensures Apt(m, node, next) && m[node].right != next
  {
    hide Avl, H, Hold, Apt, Above;
    var base := InRight(c, node, l);
    RootIn(t);
    TopFacts(m, cq, base, t.ptr, h);
    LeftwardFacts(cq, base);
    var a0, h0 := BaseHold(m, cq, base, t.ptr, h);
    HoldRight(m, base, a0, h0);
    AptBase(m, c, node, l, a0, h0, next);
  }

  // ----- a successor with a right child -----

  const SEVEN: Mem := map[1 := Cell(1, 2, 0, 0, 0), 2 := Cell(2, 3, 1, 0, -1), 3 := Cell(3, 0, 2, 6, 1),
                          4 := Cell(4, 6, 0, 5, 1), 5 := Cell(5, 4, 0, 0, 0), 6 := Cell(6, 3, 4, 7, -1),
                          7 := Cell(7, 6, 0, 0, 0)]

  lemma LeafAvl(p: int, par: int)
    requires p in SEVEN && p != NULL && SEVEN[p] == Cell(p, par, 0, 0, 0)
    ensures var t := Bin(Nil, p, Nil); Avl(SEVEN, t, par) && H(t) == 1 && Inorder(t) == [p] && Ptrs(t) == {p} && Sep(t)
  {
    var t := Bin(Nil, p, Nil);
    assert t.left == Nil && t.right == Nil;
    assert H(t) == Max(H(Nil), H(Nil)) + 1;
    assert Inorder(t) == Inorder(Nil) + [p] + Inorder(Nil);
  }

  lemma BinAvl(l: Tree, p: int, r: Tree, par: int)
    requires Avl(SEVEN, l, p) && Avl(SEVEN, r, p) && Links(SEVEN, l, p, r, par) && SEVEN[p].bf == H(r) - H(l)
             && -1 <= SEVEN[p].bf <= 1
    requires Sep(l) && Sep(r) && p !in Ptrs(l) && p !in Ptrs(r) && Ptrs(l) !! Ptrs(r)
    ensures var t := Bin(l, p, r);
            Avl(SEVEN, t, par) && Sep(t) && H(t) == Max(H(l), H(r)) + 1 && Inorder(t) == Inorder(l) + [p] + Inorder(r)
            && Ptrs(t) == Ptrs(l) + {p} + Ptrs(r)
  {
  }

  lemma NilAvl(par: int)
    ensures Avl(SEVEN, Nil, par) && H(Nil) == 0 && Inorder(Nil) == [] && Ptrs(Nil) == {} && Sep(Nil)
  {
  }

  /** In this tree the successor of the root, node 4, is not its child and has a right
      child. */
  lemma SuccessorChild()
    ensures var low := Bin(Nil, 4, Bin(Nil, 5, Nil));
            var t := Bin(Bin(Bin(Nil, 1, Nil), 2, Nil), 3, Bin(low, 6, Bin(Nil, 7, Nil)));
            && Avl(SEVEN, t, NULL) && Sep(t) && Inorder(t) == [1, 2, 3, 4, 5, 6, 7] && KeysSorted(SEVEN, Inorder(t))
            && t.ptr == 3 && SEVEN[3].right != 4 && SEVEN[4].right == 5
  {
    hide Avl, H, Inorder, Ptrs, Sep;
    NilAvl(2);
    NilAvl(4);
    LeafAvl(1, 2);
    LeafAvl(5, 4);
    LeafAvl(7, 6);
    var one, five, seven := Bin(Nil, 1, Nil), Bin(Nil, 5, Nil), Bin(Nil, 7, Nil);
    BinAvl(one, 2, Nil, 3);
    BinAvl(Nil, 4, five, 6);
    BinAvl(Bin(Nil, 4, five), 6, seven, 3);
    BinAvl(Bin(one, 2, Nil), 3, Bin(Bin(Nil, 4, five), 6, seven), NULL);
  }
}
