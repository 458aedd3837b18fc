/** A position in an AVL tree: the subtree there and everything above it. */
module AvlCtx {
  import opened Sets
  import opened AvlTree

  /** The part of a tree above a subtree, innermost ancestor first. */
  datatype Ctx = Root | InLeft(up: Ctx, p: int, other: Tree) | InRight(up: Ctx, p: int, other: Tree)

  ghost function Plug(c: Ctx, t: Tree): Tree
    decreases c
  {
    match c
    case Root => t
    case InLeft(up, p, r) => Plug(up, Bin(t, p, r))
    case InRight(up, p, l) => Plug(up, Bin(l, p, t))
  }

  ghost function Parent(c: Ctx): int {
    if c.Root? then NULL else c.p
  }

  ghost function Above(c: Ctx): set<int> {
    if c.Root? then {} else Above(c.up) + {c.p} + Ptrs(c.other)
  }

  /** In-order positions left and right of the hole. */
  ghost function Before(c: Ctx): seq<int> {
    match c
    case Root => []
    case InLeft(up, _, _) => Before(up)
    case InRight(up, p, l) => Before(up) + Inorder(l) + [p]
  }

  ghost function After(c: Ctx): seq<int> {
    match c
    case Root => []
    case InLeft(up, p, r) => [p] + Inorder(r) + After(up)
    case InRight(up, _, _) => After(up)
  }

  /** Memory holds the context, with links and balance factors that are right for a
      subtree at address a of height h in the hole. */
  ghost predicate Hold(m: Mem, c: Ctx, a: int, h: int)
    decreases c
  {
    c.Root? ||
    (&& c.p != NULL
     && c.p in m
     && m[c.p].parent == Parent(c.up)
     && Avl(m, c.other, c.p)
     && (if c.InLeft? then m[c.p].left == a && m[c.p].right == Addr(c.other)
         else m[c.p].right == a && m[c.p].left == Addr(c.other))
     && m[c.p].bf == (if c.InLeft? then H(c.other) - h else h - H(c.other))
     && -1 <= m[c.p].bf <= 1
     && Hold(m, c.up, c.p, Max(h, H(c.other)) + 1))
  }

  ghost predicate SepCtx(c: Ctx)
    decreases c
  {
    c.Root? || (SepCtx(c.up) && Sep(c.other) && c.p !in Above(c.up) && c.p !in Ptrs(c.other)
                && Ptrs(c.other) !! Above(c.up))
  }

  ghost predicate Apart(c: Ctx, t: Tree) {
    SepCtx(c) && Sep(t) && Ptrs(t) !! Above(c)
  }

  lemma {:induction false} PlugSep(c: Ctx, t: Tree)
    ensures Apart(c, t) ==> Sep(Plug(c, t))
    ensures Ptrs(Plug(c, t)) == Ptrs(t) + Above(c)
    decreases c
  {
    if !c.Root? {
      var t' := if c.InLeft? then Bin(t, c.p, c.other) else Bin(c.other, c.p, t);
      assert Ptrs(t') == Ptrs(t) + {c.p} + Ptrs(c.other);
      PlugSep(c.up, t');
    }
  }

  lemma BeforeRight(c: Ctx, p: int, l: Tree)
    ensures Before(InRight(c, p, l)) == Before(c) + Inorder(l) + [p]
  {
  }

  lemma AfterLeft(c: Ctx, p: int, r: Tree)
    ensures After(InLeft(c, p, r)) == [p] + Inorder(r) + After(c)
  {
  }

  lemma {:induction false} PlugInorder(c: Ctx, t: Tree)
    ensures Inorder(Plug(c, t)) == Before(c) + Inorder(t) + After(c)
    decreases c
  {
    hide Inorder;
    if c.InLeft? {
      hide After;
      PlugInorder(c.up, Bin(t, c.p, c.other));
      InorderBin(t, c.p, c.other);
      AfterLeft(c.up, c.p, c.other);
      GroupRight(Before(c.up), Inorder(t), [c.p], Inorder(c.other), After(c.up));
    } else if c.InRight? {
      hide Before;
      PlugInorder(c.up, Bin(c.other, c.p, t));
      InorderBin(c.other, c.p, t);
      BeforeRight(c.up, c.p, c.other);
      GroupLeft(Before(c.up), Inorder(c.other), [c.p], Inorder(t), After(c.up));
    }
  }

  /** A fitting subtree in the hole makes an AVL tree. */
  lemma {:induction false} PlugAvl(m: Mem, c: Ctx, t: Tree)
    requires Avl(m, t, Parent(c)) && Hold(m, c, Addr(t), H(t))
    ensures Avl(m, Plug(c, t), NULL)
    decreases c
  {
    if !c.Root? {
      PlugAvl(m, c.up, if c.InLeft? then Bin(t, c.p, c.other) else Bin(c.other, c.p, t));
    }
  }

  lemma {:induction false} PlugAddr(c: Ctx, t: Tree, t': Tree)
    requires !c.Root?
    ensures Addr(Plug(c, t)) == Addr(Plug(c, t')) && Plug(c, t).Bin?
    decreases c
  {
    if !c.up.Root? {
      PlugAddr(c.up, if c.InLeft? then Bin(t, c.p, c.other)
               else Bin(c.other, c.p, t), if c.InLeft? then Bin(t', c.p, c.other) else Bin(c.other, c.p, t'));
    }
  }

  lemma {:induction false} HoldFrame(m: Mem, m': Mem, c: Ctx, a: int, h: int)
    requires Hold(m, c, a, h) && forall q :: q in Above(c) && q in m ==> q in m' && m'[q] == m[q]
    ensures Hold(m', c, a, h)
    decreases c
  {
    if !c.Root? {
      AvlFrame(m, m', c.other, c.p);
      HoldFrame(m, m', c.up, c.p, Max(h, H(c.other)) + 1);
    }
  }

  /** Pointing the innermost ancestor at another subtree. */
  lemma HoldRelink(m: Mem, m': Mem, c: Ctx, a: int, a': int, h: int)
    requires !c.Root? && Hold(m, c, a, h) && SepCtx(c)
    requires m' == if c.InLeft? then SetLeft(m, c.p, a') else SetRight(m, c.p, a')
    ensures Hold(m', c, a', h)
  {
    HoldFrame(m, m', c.up, c.p, Max(h, H(c.other)) + 1);
    AvlFrame(m, m', c.other, c.p);
  }

  /** Descending one level. */
  lemma Down(m: Mem, c: Ctx, t: Tree, left: bool)
    requires t.Bin? && Avl(m, t, Parent(c)) && Hold(m, c, t.ptr, H(t)) && Apart(c, t)
    ensures var c', t' := if left then InLeft(c, t.ptr, t.right) else InRight(c, t.ptr, t.left), if left then t.left
            else t.right;
            Avl(m, t', t.ptr) && Hold(m, c', Addr(t'), H(t')) && Apart(c', t') && Plug(c', t') == Plug(c, t)
  {
  }

  lemma {:induction false} HoldPtrs(m: Mem, c: Ctx, a: int, h: int)
    requires Hold(m, c, a, h)
    ensures Above(c) <= m.Keys && NULL !in Above(c)
    decreases c
  {
    if !c.Root? {
      AvlPtrs(m, c.other, c.p);
      HoldPtrs(m, c.up, c.p, Max(h, H(c.other)) + 1);
    }
  }

  // ----- keys around a position -----

  ghost predicate KeysBelow(m: Mem, s: seq<int>, key: int) {
    forall i :: 0 <= i < |s| ==> s[i] in m && m[s[i]].key < key
  }

  ghost predicate KeysAbove(m: Mem, s: seq<int>, key: int) {
    forall i :: 0 <= i < |s| ==> s[i] in m && key < m[s[i]].key
  }

  ghost predicate KeysAround(m: Mem, c: Ctx, key: int) {
    KeysBelow(m, Before(c), key) && KeysAbove(m, After(c), key)
  }

  lemma BelowJoin(m: Mem, a: seq<int>, l: seq<int>, p: int, key: int)
    requires KeysBelow(m, a, key) && KeysBelow(m, l, key) && p in m && m[p].key < key
    ensures KeysBelow(m, a + l + [p], key)
  {
  }

  lemma AboveJoin(m: Mem, p: int, r: seq<int>, a: seq<int>, key: int)
    requires KeysAbove(m, a, key) && KeysAbove(m, r, key) && p in m && key < m[p].key
    ensures KeysAbove(m, [p] + r + a, key)
  {
  }

  lemma DownKeys(m: Mem, c: Ctx, t: Tree, key: int)
    requires t.Bin? && KeysAround(m, c, key) && KeysSorted(m, Inorder(Plug(c, t)))
    ensures t.ptr in m
    ensures key < m[t.ptr].key ==> KeysAround(m, InLeft(c, t.ptr, t.right), key)
    ensures m[t.ptr].key < key ==> KeysAround(m, InRight(c, t.ptr, t.left), key)
  {
    hide Plug, Inorder, Before, After;
    PlugInorder(c, t);
    InorderBin(t.left, t.ptr, t.right);
    assert t == Bin(t.left, t.ptr, t.right);
    GroupMid(Before(c), Inorder(t.left), [t.ptr], Inorder(t.right), After(c));
    BeforeRight(c, t.ptr, t.left);
    AfterLeft(c, t.ptr, t.right);
    SideKeys(m, Before(c), Inorder(t.left), t.ptr, Inorder(t.right), After(c));
    if key < m[t.ptr].key {
      AboveJoin(m, t.ptr, Inorder(t.right), After(c), key);
      LeftBefore(c, t);
    } else if m[t.ptr].key < key {
      BelowJoin(m, Before(c), Inorder(t.left), t.ptr, key);
      RightAfter(c, t);
    }
  }

  lemma LeftBefore(c: Ctx, t: Tree)
    requires t.Bin?
    ensures Before(InLeft(c, t.ptr, t.right)) == Before(c)
  {
  }

  lemma RightAfter(c: Ctx, t: Tree)
    requires t.Bin?
    ensures After(InRight(c, t.ptr, t.left)) == After(c)
  {
  }

  /** Keys of a sorted walk around one of its nodes. */
  lemma SideKeys(m: Mem, b: seq<int>, l: seq<int>, p: int, r: seq<int>, a: seq<int>)
    requires KeysSorted(m, b + l + [p] + (r + a))
    ensures p in m && KeysBelow(m, l, m[p].key) && KeysAbove(m, r, m[p].key)
  {
    var ps := b + l + [p] + (r + a);
    assert ps[|b| + |l|] == p;
    forall i | 0 <= i < |l| ensures ps[|b| + i] == l[i] {}
    forall i | 0 <= i < |r| ensures ps[|b| + |l| + 1 + i] == r[i] {}
  }

  /** Where an address of the tree sits. */
  lemma {:induction false} Locate(m: Mem, c: Ctx, t: Tree, q: int) returns (c': Ctx, t': Tree)
    requires Avl(m, t, Parent(c)) && Hold(m, c, Addr(t), H(t)) && Apart(c, t) && q in Ptrs(t)
    ensures t'.Bin? && t'.ptr == q && Plug(c', t') == Plug(c, t)
    ensures Avl(m, t', Parent(c')) && Hold(m, c', q, H(t')) && Apart(c', t')
    decreases t
  {
    hide Plug, Hold, H;
    if t.ptr == q {
      c', t' := c, t;
    } else if q in Ptrs(t.left) {
      Down(m, c, t, true);
      c', t' := Locate(m, InLeft(c, t.ptr, t.right), t.left, q);
    } else {
      Down(m, c, t, false);
      c', t' := Locate(m, InRight(c, t.ptr, t.left), t.right, q);
    }
  }

  /** c' lies below c along left links only. */
  ghost predicate Leftward(c': Ctx, c: Ctx)
    decreases c'
  {
    c' == c || (c'.InLeft? && Leftward(c'.up, c))
  }

  ghost predicate Rightward(c': Ctx, c: Ctx)
    decreases c'
  {
    c' == c || (c'.InRight? && Rightward(c'.up, c))
  }

  lemma {:induction false} LeftwardFacts(c': Ctx, c: Ctx)
    requires Leftward(c', c)
    ensures Before(c') == Before(c) && Above(c) <= Above(c')
    decreases c'
  {
    if c' != c { LeftwardFacts(c'.up, c); }
  }

  lemma {:induction false} RightwardFacts(c': Ctx, c: Ctx)
    requires Rightward(c', c)
    ensures After(c') == After(c)
    decreases c'
  {
    if c' != c { RightwardFacts(c'.up, c); }
  }

  /** Ascending one level. */
  lemma Up(m: Mem, c: Ctx, t: Tree)
    requires !c.Root? && Avl(m, t, c.p) && Hold(m, c, Addr(t), H(t)) && Apart(c, t)
    ensures var t' := if c.InLeft? then Bin(t, c.p, c.other) else Bin(c.other, c.p, t);
            Avl(m, t', Parent(c.up)) && Hold(m, c.up, c.p, H(t')) && Apart(c.up, t') && Plug(c.up, t') == Plug(c, t)
  {
    var t' := if c.InLeft? then Bin(t, c.p, c.other) else Bin(c.other, c.p, t);
    assert Ptrs(t') == Ptrs(t) + {c.p} + Ptrs(c.other);
  }

  /** The address after position i of an in-order walk, NULL past its ends. */
  ghost function At(ps: seq<int>, i: int): int {
    if 0 <= i < |ps| then ps[i] else NULL
  }

  lemma SortedDistinct(m: Mem, ps: seq<int>)
    requires KeysSorted(m, ps)
    ensures Distinct(ps)
  {
  }

  lemma OnlyAtOne(x: seq<int>, p: int, y: seq<int>)
    requires Distinct(x + [p] + y)
    ensures (x + [p] + y)[|x|] == p && forall j :: 0 <= j < |x + [p] + y| && (x + [p] + y)[j] == p ==> j == |x|
  {
  }

  /** Where the root of a subtree sits in the in-order walk of the whole. */
  lemma RootAt(c: Ctx, t: Tree)
    requires t.Bin? && Distinct(Inorder(Plug(c, t)))
    ensures var ps, i := Inorder(Plug(c, t)), |Before(c)| + |Inorder(t.left)|;
            && i < |ps| && ps[i] == t.ptr && (forall j :: 0 <= j < |ps| && ps[j] == t.ptr ==> j == i)
            && ps == Before(c) + Inorder(t.left) + [t.ptr] + (Inorder(t.right) + After(c))
  {
    hide Plug, Distinct, Before, After;
    PlugInorder(c, t);
    var x, y := Before(c) + Inorder(t.left), Inorder(t.right) + After(c);
    assert Inorder(Plug(c, t)) == x + [t.ptr] + y;
    OnlyAtOne(x, t.ptr, y);
  }
}
