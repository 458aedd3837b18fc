/** The shape of an AVL tree and the memory that holds it (src/avltree.cc).

    `Mem` maps an address to the node stored there, with the fields of
    `struct avl_node` in the layout that keeps the balance factor apart from the
    parent pointer.  `Avl` says that memory holds a given tree with correct links and
    balance factors. */
module AvlTree {
  const NULL := 0

  datatype Cell = Cell(key: int, parent: int, left: int, right: int, bf: int)

  type Mem = map<int, Cell>

  datatype Tree = Nil | Bin(left: Tree, ptr: int, right: Tree)

  function Max(a: int, b: int): int {
    if a > b then a else b
  }

  ghost function H(t: Tree): nat {
    match t
    case Nil => 0
    case Bin(l, _, r) => Max(H(l), H(r)) + 1
  }

  ghost function Addr(t: Tree): int {
    if t.Nil? then NULL else t.ptr
  }

  ghost function Inorder(t: Tree): seq<int> {
    match t
    case Nil => []
    case Bin(l, p, r) => Inorder(l) + [p] + Inorder(r)
  }

  ghost function Ptrs(t: Tree): set<int> {
    match t
    case Nil => {}
    case Bin(l, p, r) => Ptrs(l) + {p} + Ptrs(r)
  }

  ghost predicate Sep(t: Tree) {
    t.Nil? ||
    (Sep(t.left) && Sep(t.right) && t.ptr !in Ptrs(t.left) && t.ptr !in Ptrs(t.right) && Ptrs(t.left) !! Ptrs(t.right))
  }

  /** The cell at p links to the trees l and r and back to par. */
  ghost predicate Links(m: Mem, l: Tree, p: int, r: Tree, par: int) {
    && p != NULL
    && p in m
    && m[p].left == Addr(l)
    && m[p].right == Addr(r)
    && m[p].parent == par
  }

  /** Memory holds the AVL tree t under parent par. */
  ghost predicate Avl(m: Mem, t: Tree, par: int)
    decreases t
  {
    t.Nil? ||
    (&& Links(m, t.left, t.ptr, t.right, par)
     && m[t.ptr].bf == H(t.right) - H(t.left)
     && -1 <= m[t.ptr].bf <= 1
     && Avl(m, t.left, t.ptr)
     && Avl(m, t.right, t.ptr))
  }

  /** The keys along ps rise strictly. */
  ghost predicate KeysSorted(m: Mem, ps: seq<int>) {
    && (forall i :: 0 <= i < |ps| ==> ps[i] in m)
    && (forall i, j :: 0 <= i < j < |ps| ==> m[ps[i]].key < m[ps[j]].key)
  }

  lemma {:induction false} AvlFrame(m: Mem, m': Mem, t: Tree, par: int)
    requires Avl(m, t, par)
    requires forall q :: q in Ptrs(t) && q in m ==> q in m' && m'[q] == m[q]
    ensures Avl(m', t, par)
    decreases t
  {
    if t.Bin? {
      AvlFrame(m, m', t.left, t.ptr);
      AvlFrame(m, m', t.right, t.ptr);
    }
  }

  lemma {:induction false} AvlPtrs(m: Mem, t: Tree, par: int)
    requires Avl(m, t, par)
    ensures Ptrs(t) <= m.Keys && NULL !in Ptrs(t)
    decreases t
  {
    if t.Bin? {
      AvlPtrs(m, t.left, t.ptr);
      AvlPtrs(m, t.right, t.ptr);
    }
  }

  /** Giving a tree a new parent touches only its root cell. */
  lemma AvlReparent(m: Mem, m': Mem, t: Tree, par: int, par': int)
    requires Avl(m, t, par) && Sep(t)
    requires forall q :: q in Ptrs(t) && q in m ==> q in m' && m'[q] == if q == t.ptr then m[q].(parent := par')
             else m[q]
    ensures Avl(m', t, par')
  {
    if t.Bin? {
      AvlFrame(m, m', t.left, t.ptr);
      AvlFrame(m, m', t.right, t.ptr);
    }
  }

  lemma InorderBin(l: Tree, p: int, r: Tree)
    ensures Inorder(Bin(l, p, r)) == Inorder(l) + [p] + Inorder(r)
  {
  }

  lemma {:induction false} InorderPtrs(t: Tree, q: int)
    ensures q in Inorder(t) <==> q in Ptrs(t)
  {
    if t.Bin? {
      InorderPtrs(t.left, q);
      InorderPtrs(t.right, q);
    }
  }

  /** A single rotation keeps the in-order walk. */
  lemma InorderTurn(a: Tree, c: int, b: Tree, p: int, d: Tree)
    ensures Inorder(Bin(a, c, Bin(b, p, d))) == Inorder(Bin(Bin(a, c, b), p, d))
  {
    hide Inorder;
    InorderBin(b, p, d);
    InorderBin(a, c, b);
    InorderBin(a, c, Bin(b, p, d));
    InorderBin(Bin(a, c, b), p, d);
    var l, r := Inorder(a) + [c] + Inorder(b), [p] + Inorder(d);
    assert Inorder(a) + [c] + (Inorder(b) + [p] + Inorder(d)) == l + [p] + Inorder(d);
  }

  // ----- relative heights -----

  /** The height arithmetic of `_rotate_LL` from balance factors alone: the new balance
      factors of child and parent and the height change of the subtree. */
  function TurnLL(hasLeft: bool, hasRight: bool, parentBf: int, childBf: int): (int, int, int) {
    var l0, r0 := if hasLeft then 1 else 0, if hasRight then 1 else 0;
    var cl := if childBf < 0 then r0 - childBf else l0;
    var cr := if childBf < 0 then r0 else l0 + childBf;
    var pr := (if childBf < 0 then cl else cr) + 1 + parentBf;
    (Max(cr, pr) + 1 - cl, pr - cr, Max(cl, Max(cr, pr) + 1) - ((if childBf < 0 then cl else cr) + 1))
  }

  /** `_rotate_RR`, the mirror image. */
  function TurnRR(hasLeft: bool, hasRight: bool, parentBf: int, childBf: int): (int, int, int) {
    var l0, r0 := if hasLeft then 1 else 0, if hasRight then 1 else 0;
    var cl := if childBf < 0 then r0 - childBf else l0;
    var cr := if childBf < 0 then r0 else l0 + childBf;
    var pl := (if childBf < 0 then cl else cr) + 1 - parentBf;
    (cr - (Max(cl, pl) + 1), cl - pl, Max(cr, Max(cl, pl) + 1) - ((if childBf < 0 then cl else cr) + 1))
  }

  /** Heights a, b and d give the arithmetic its meaning. */
  lemma TurnLLHeights(a: int, b: int, d: int, hasLeft: bool, hasRight: bool)
    ensures var r := TurnLL(hasLeft, hasRight, d - (Max(a, b) + 1), b - a);
            && r.0 == Max(b, d) + 1 - a
            && r.1 == d - b
            && (d <= Max(a, b) + 1 ==> r.2 == Max(a, Max(b, d) + 1) - (Max(a, b) + 1))
  {
  }

  lemma TurnRRHeights(a: int, b: int, d: int, hasLeft: bool, hasRight: bool)
    ensures var r := TurnRR(hasLeft, hasRight, Max(b, d) + 1 - a, d - b);
            && r.0 == d - (Max(a, b) + 1)
            && r.1 == b - a
            && (a <= Max(b, d) + 1 ==> r.2 == Max(d, Max(a, b) + 1) - (Max(b, d) + 1))
  {
  }

  /** For all subtrees the relative arithmetic gives the true balance factors, and the
      true height change whenever the parent leans to the child's side. */
  lemma TurnLLTrue(a: Tree, c: int, b: Tree, p: int, d: Tree, hasLeft: bool, hasRight: bool)
    ensures var before, after := Bin(Bin(a, c, b), p, d), Bin(a, c, Bin(b, p, d));
            var r := TurnLL(hasLeft, hasRight, H(d) - H(before.left), H(b) - H(a));
            && r.0 == H(after.right) - H(a)
            && r.1 == H(d) - H(b)
            && (H(d) <= H(before.left) ==> r.2 == H(after) - H(before))
            && Inorder(after) == Inorder(before)
  {
    hide Inorder, TurnLL;
    TurnLLHeights(H(a), H(b), H(d), hasLeft, hasRight);
    InorderTurn(a, c, b, p, d);
  }

  lemma TurnRRTrue(a: Tree, p: int, b: Tree, c: int, d: Tree, hasLeft: bool, hasRight: bool)
    ensures var before, after := Bin(a, p, Bin(b, c, d)), Bin(Bin(a, p, b), c, d);
            var r := TurnRR(hasLeft, hasRight, H(before.right) - H(a), H(d) - H(b));
            && r.0 == H(d) - H(after.left)
            && r.1 == H(b) - H(a)
            && (H(a) <= H(before.right) ==> r.2 == H(after) - H(before))
            && Inorder(after) == Inorder(before)
  {
    hide Inorder, TurnRR;
    TurnRRHeights(H(a), H(b), H(d), hasLeft, hasRight);
    InorderTurn(a, p, b, c, d);
  }

  // ----- logarithmic height -----

  ghost function Size(t: Tree): nat {
    match t
    case Nil => 0
    case Bin(l, _, r) => Size(l) + 1 + Size(r)
  }

  ghost function Fib(n: nat): nat {
    if n < 2 then n else Fib(n - 1) + Fib(n - 2)
  }

  lemma {:induction false} FibMono(a: nat, b: nat)
    requires a <= b
    ensures Fib(a) <= Fib(b)
    decreases b
  {
    if a < b {
      FibMono(a, b - 1);
    }
  }

  /** An AVL tree of height h has at least Fib(h + 2) - 1 nodes, so its height is
      logarithmic in its size. */
  lemma {:induction false} HeightBound(m: Mem, t: Tree, par: int)
    requires Avl(m, t, par)
    ensures Fib(H(t) + 2) <= Size(t) + 1
    decreases t
  {
    hide Fib;
    if t.Nil? {
      FibLow();
    } else {
      HeightBound(m, t.left, t.ptr);
      HeightBound(m, t.right, t.ptr);
      FibSum(H(t.left), H(t.right));
    }
  }

  lemma FibLow()
    ensures Fib(2) == 1
  {
  }

  /** Subtree heights that differ by at most one. */
  lemma FibSum(a: nat, b: nat)
    requires -1 <= a - b <= 1
    ensures Fib(Max(a, b) + 3) <= Fib(a + 2) + Fib(b + 2)
  {
    var h := Max(a, b) + 1;
    assert Fib(h + 2) == Fib(h + 1) + Fib(h);
    if a >= b {
      FibMono(h, b + 2);
    } else {
      FibMono(h, a + 2);
    }
  }

  // ----- changing memory -----

  /** Only cells in ptrs changed, and no key did. */
  ghost predicate Only(m: Mem, m': Mem, ptrs: set<int>) {
    && m'.Keys == m.Keys
    && (forall q :: q in m ==> m'[q].key == m[q].key)
    && (forall q :: q in m && q !in ptrs ==> m'[q] == m[q])
  }

  ghost function Top(t: Tree): set<int> {
    if t.Nil? then {} else {t.ptr}
  }

  /** The cells a rotation touches are apart from the subtrees it only carries. */
  lemma SepLL(a: Tree, c: int, b: Tree, p: int, d: Tree)
    requires Sep(Bin(Bin(a, c, b), p, d))
    ensures p != c && {p, c} + Top(b) !! Ptrs(a) && {p, c} + Top(b) !! Ptrs(d) && {p, c} !! Ptrs(b)
    ensures Sep(a) && Sep(b) && Sep(d) && Top(b) <= Ptrs(b)
    ensures Sep(Bin(a, c, Bin(b, p, d))) && Ptrs(Bin(a, c, Bin(b, p, d))) == Ptrs(Bin(Bin(a, c, b), p, d))
  {
    assert Ptrs(Bin(Bin(a, c, b), p, d)) == Ptrs(a) + {c} + Ptrs(b) + {p} + Ptrs(d);
    assert Ptrs(Bin(b, p, d)) == Ptrs(b) + {p} + Ptrs(d);
  }

  lemma SepRR(a: Tree, p: int, b: Tree, c: int, d: Tree)
    requires Sep(Bin(a, p, Bin(b, c, d)))
    ensures p != c && {p, c} + Top(b) !! Ptrs(a) && {p, c} + Top(b) !! Ptrs(d) && {p, c} !! Ptrs(b)
    ensures Sep(a) && Sep(b) && Sep(d) && Top(b) <= Ptrs(b)
    ensures Sep(Bin(Bin(a, p, b), c, d)) && Ptrs(Bin(Bin(a, p, b), c, d)) == Ptrs(Bin(a, p, Bin(b, c, d)))
  {
    assert Ptrs(Bin(a, p, Bin(b, c, d))) == Ptrs(a) + {p} + Ptrs(b) + {c} + Ptrs(d);
    assert Ptrs(Bin(a, p, b)) == Ptrs(a) + {p} + Ptrs(b);
  }

  function SetLeft(m: Mem, p: int, v: int): Mem
    requires p in m
  {
    m[p := m[p].(left := v)]
  }

  function SetRight(m: Mem, p: int, v: int): Mem
    requires p in m
  {
    m[p := m[p].(right := v)]
  }

  function SetParent(m: Mem, p: int, v: int): Mem
    requires p in m
  {
    m[p := m[p].(parent := v)]
  }

  function SetBf(m: Mem, p: int, v: int): Mem
    requires p in m
  {
    m[p := m[p].(bf := v)]
  }

  /** t's cells other than its root cell's parent are as in m. */
  lemma Rehung(m: Mem, m': Mem, t: Tree, par: int, par': int)
    requires Avl(m, t, par) && Sep(t) && m.Keys <= m'.Keys
    requires forall q :: q in Ptrs(t) && q in m && q != Addr(t) ==> m'[q] == m[q]
    requires t.Bin? && t.ptr in m ==> m'[t.ptr] == m[t.ptr].(parent := par')
    ensures Avl(m', t, par')
  {
    AvlReparent(m, m', t, par, par');
  }

  lemma AvlKept(m: Mem, m': Mem, t: Tree, par: int, touched: set<int>)
    requires Avl(m, t, par) && m.Keys <= m'.Keys && Ptrs(t) !! touched
    requires forall q :: q in m && q !in touched ==> m'[q] == m[q]
    ensures Avl(m', t, par)
  {
    AvlFrame(m, m', t, par);
  }

  /** What `_rotate_LL` and `_rotate_RR` leave in memory: p hangs under c, the middle
      subtree b under p, and nothing else moved. */
  lemma Relinked(m: Mem, m': Mem, a: Tree, c: int, b: Tree, p: int, d: Tree)
    requires Avl(m, a, c) && Avl(m, b, c) && Avl(m, d, p) && Sep(b) && p in m && c in m && p != c
    requires {p, c} + Top(b) !! Ptrs(a) && {p, c} + Top(b) !! Ptrs(d) && {p, c} !! Ptrs(b) && Top(b) <= Ptrs(b)
    requires m'.Keys == m.Keys && m'[p].key == m[p].key && m'[c].key == m[c].key
    requires b.Bin? && b.ptr in m ==> m'[b.ptr] == m[b.ptr].(parent := p)
    requires forall q :: q in m && q != p && q != c && q !in Top(b) ==> m'[q] == m[q]
    ensures Avl(m', a, c) && Avl(m', b, p) && Avl(m', d, p)
    ensures Only(m, m', {p, c} + Top(b))
  {
    hide H, Avl;
    Rehung(m, m', b, c, p);
    AvlKept(m, m', a, c, {p, c} + Top(b));
    AvlKept(m, m', d, p, {p, c} + Top(b));
  }
}
