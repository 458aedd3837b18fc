/** One B+tree node and the fixed-size key/value operations on it
    (src/btree_kv.cc, and the node-level parts of src/btree.cc).

    A node is a header plus a fixed array of slots; only the first `nentry`
    slots are live.  Slots past `nentry` keep whatever was there before, because
    the code reads one of them in `btree_remove`. */
module BTreeNode {
  import opened Arith
  import opened Options

  /** Keys and values are machine words; a value in an index node is a block id. */
  datatype Entry = Entry(key: int, val: int)

  datatype Node = Node(level: nat, root: bool, nentry: nat, slots: seq<Entry>)

  predicate Ok(n: Node) {
    n.nentry <= |n.slots|
  }

  function Entries(n: Node): seq<Entry>
    requires Ok(n)
  {
    n.slots[..n.nentry]
  }

  ghost predicate Has(n: Node, key: int)
    requires Ok(n)
  {
    exists i :: 0 <= i < n.nentry && n.slots[i].key == key
  }

  ghost predicate Sorted(s: seq<Entry>) {
    forall i, j :: 0 <= i < j < |s| ==> s[i].key < s[j].key
  }

  /** All keys of s lie strictly below (above) key. */
  ghost predicate Below(s: seq<Entry>, key: int) {
    forall i :: 0 <= i < |s| ==> s[i].key < key
  }

  ghost predicate Above(s: seq<Entry>, key: int) {
    forall i :: 0 <= i < |s| ==> key < s[i].key
  }

  /** s is l, then at most one entry with the given key, then r. */
  ghost predicate Around(s: seq<Entry>, key: int, l: seq<Entry>, m: seq<Entry>, r: seq<Entry>) {
    && s == l + m + r
    && |m| <= 1
    && (m != [] ==> m[0].key == key)
    && Below(l, key)
    && Above(r, key)
  }

  lemma AroundUnique(s: seq<Entry>, key: int, l: seq<Entry>, m: seq<Entry>, r: seq<Entry>,
                     l': seq<Entry>, m': seq<Entry>, r': seq<Entry>)
    requires Around(s, key, l, m, r) && Around(s, key, l', m', r')
    ensures l == l' && m == m' && r == r'
  {
    AroundPosition(s, key, l, m, r, l');
    AroundPosition(s, key, l', m', r', l);
    assert l == s[..|l|] && l' == s[..|l'|];
    assert r == s[|l| + |m|..] && r' == s[|l'| + |m'|..];
    assert m == s[|l|..|l| + |m|] && m' == s[|l'|..|l'| + |m'|];
  }

  lemma AroundPosition(s: seq<Entry>, key: int, l: seq<Entry>, m: seq<Entry>, r: seq<Entry>, l': seq<Entry>)
    requires Around(s, key, l, m, r) && Below(l', key) && l' <= s
    ensures |l'| <= |l|
    ensures m != [] <==> |l| < |s| && s[|l|].key == key
  {
    if m == [] && r != [] { assert s[|l|] == r[0]; }
    assert |l| < |s| ==> key <= s[|l|].key;
    assert l' == s[..|l'|];
  }

  lemma AroundGap(s: seq<Entry>, i: nat, key: int)
    requires Sorted(s) && i < |s| && s[i].key < key && (i + 1 < |s| ==> key < s[i + 1].key)
    ensures Around(s, key, s[..i + 1], [], s[i + 1..])
  {
    assert s == s[..i + 1] + [] + s[i + 1..];
  }

  // ----- node size arithmetic -----

  const HEADER := 16

  /** Sizes that fix how many entries a node holds: the usable block size, the bytes
      the tree's metadata takes in the root, and the size of one key/value pair. */
  datatype Geometry = Geometry(nodesize: nat, meta: nat, kv: nat) {
    /** Room for at least two entries even in the root. */
    ghost predicate Valid() {
      kv > 0 && HEADER + meta + 2 * kv <= nodesize
    }

    function HeaderSize(root: bool): nat {
      HEADER + if root then meta else 0
    }

    function Cap(root: bool): int
      requires kv > 0
    {
      (nodesize - HeaderSize(root)) / kv
    }

    /** `_bnode_size`: size of a node once it holds n entries. */
    function Size(root: bool, n: nat): (r: nat)
      ensures r == n * kv + if root then 16 + meta else 16
    {
      HeaderSize(root) + n * kv
    }

    /** `_btree_get_nsplitnode`, with the forced minimum of two. */
    function SplitCount(root: bool, size: nat): int
      requires Valid() && HeaderSize(root) <= size
    {
      var dataspace := nodesize - HeaderSize(root);
      var n := (size - HeaderSize(root) + (dataspace - 1)) / dataspace;
      if n == 1 then 2 else n
    }
  }

  lemma DivBounds(a: int, d: int)
    requires d > 0
    ensures d * (a / d) <= a < d * (a / d) + d
  {
  }

  /** The byte-size test is exactly the entry-count test. */
  lemma SizeCheck(g: Geometry, root: bool, n: nat)
    requires g.Valid()
    ensures g.Size(root, n) <= g.nodesize <==> n <= g.Cap(root)
  {
    var space := g.nodesize - g.HeaderSize(root);
    DivBounds(space, g.kv);
    if n <= g.Cap(root) {
      MulMono(n, g.Cap(root), g.kv);
    } else {
      MulMono(g.Cap(root) + 1, n, g.kv);
    }
  }

  lemma CapOrder(g: Geometry)
    requires g.kv > 0
    ensures g.Cap(true) <= g.Cap(false)
  {
    DivBounds(g.nodesize - g.HeaderSize(true), g.kv);
    DivBounds(g.nodesize - g.HeaderSize(false), g.kv);
    if g.Cap(false) < g.Cap(true) { MulMono(g.Cap(false) + 1, g.Cap(true), g.kv); }
  }

  lemma CapAtLeastTwo(g: Geometry)
    requires g.Valid()
    ensures 2 <= g.Cap(true) <= g.Cap(false)
  {
    CapOrder(g);
    DivBounds(g.nodesize - g.HeaderSize(true), g.kv);
    if g.Cap(true) < 2 { MulMono(g.Cap(true), 1, g.kv); }
  }

  /** With fixed-size pairs a node that is one entry over its capacity always splits
      in exactly two, so a split hands its parent exactly one new entry. */
  lemma SplitCountIsTwo(g: Geometry, root: bool, n: nat)
    requires g.Valid() && n <= g.Cap(root) < n + 1
    ensures g.SplitCount(root, g.Size(root, n + 1)) == 2
  {
    SizeCheck(g, root, n);
    SizeCheck(g, root, n + 1);
    OneOver(n, g.kv, g.nodesize - g.HeaderSize(root));
    RoundUp((n + 1) * g.kv, g.nodesize - g.HeaderSize(root));
  }

  lemma OneOver(n: nat, kv: nat, space: int)
    requires n * kv <= space < (n + 1) * kv && 2 * kv <= space
    ensures 0 < space < (n + 1) * kv <= 2 * space
  {
    Distribute(n, kv);
  }

  lemma RoundUp(need: int, space: int)
    requires 0 < space < need <= 2 * space
    ensures (need + (space - 1)) / space == 2
  {
    var k := (need + (space - 1)) / space;
    DivBounds(need + (space - 1), space);
    if k <= 1 { MulMono(k, 1, space); }
    if k >= 3 { MulMono(3, k, space); }
  }

  /** The strict size test that lets a child become the new root also bounds its entries. */
  lemma ShrinkFits(g: Geometry, n: nat)
    requires g.Valid()
    ensures g.Size(true, n) < g.nodesize ==> n <= g.Cap(true)
    ensures n <= 1 ==> g.Size(true, n) < g.nodesize
  {
    SizeCheck(g, true, n);
  }

  // ----- fixed-size kv operations on slots -----

  /** `_set_kv` */
  function SetKv(n: Node, idx: nat, e: Entry): Node
    requires idx < |n.slots|
  {
    n.(slots := n.slots[idx := e])
  }

  /** `_ins_kv` with a pair: shift [idx, nentry) right by one and store the pair. */
  function InsKv(n: Node, idx: nat, e: Entry): Node
    requires idx <= n.nentry < |n.slots|
  {
    n.(slots := n.slots[..idx] + [e] + n.slots[idx..n.nentry] + n.slots[n.nentry + 1..])
  }

  /** `_ins_kv` without a pair: shift (idx, nentry) left by one.  The last live slot is
      not cleared, and when idx is the last entry nothing moves at all. */
  function DelKv(n: Node, idx: nat): Node
    requires idx < n.nentry <= |n.slots|
  {
    n.(slots := n.slots[..idx] + n.slots[idx + 1..n.nentry] + n.slots[n.nentry - 1..])
  }

  /** `_copy_kv` between two different nodes. */
  function CopyKv(dst: Node, src: Node, dstIdx: nat, srcIdx: nat, len: nat): Node
    requires dstIdx + len <= |dst.slots| && srcIdx + len <= |src.slots|
  {
    dst.(slots := dst.slots[..dstIdx] + src.slots[srcIdx..srcIdx + len] + dst.slots[dstIdx + len..])
  }

  /** `_get_nth_idx` */
  function NthIdx(nentry: nat, num: nat, den: nat): nat
    requires den > 0
  {
    var rem := nentry - nentry / den * den;
    nentry / den * num + if num < rem then num else rem
  }

  lemma NthIdxHalves(n: nat)
    ensures NthIdx(n, 0, 2) == 0
    ensures NthIdx(n, 1, 2) == (n + 1) / 2
    ensures NthIdx(n, 2, 2) == n
  {
  }

  lemma SetKvEntries(n: Node, idx: nat, e: Entry)
    requires idx < n.nentry <= |n.slots|
    ensures Entries(SetKv(n, idx, e)) == Entries(n)[..idx] + [e] + Entries(n)[idx + 1..]
  {
  }

  lemma InsKvEntries(n: Node, idx: nat, e: Entry)
    requires idx <= n.nentry < |n.slots|
    ensures var n' := InsKv(n, idx, e).(nentry := n.nentry + 1);
            Ok(n') && |n'.slots| == |n.slots| && Entries(n') == Entries(n)[..idx] + [e] + Entries(n)[idx..]
    ensures idx == n.nentry ==> InsKv(n, idx, e) == SetKv(n, idx, e)
  {
  }

  lemma DelKvEntries(n: Node, idx: nat)
    requires idx < n.nentry <= |n.slots|
    ensures var n' := DelKv(n, idx).(nentry := n.nentry - 1);
            Ok(n') && |n'.slots| == |n.slots| && Entries(n') == Entries(n)[..idx] + Entries(n)[idx + 1..]
    ensures DelKv(n, idx) == n.(slots := DelKv(n, idx).slots) && (n.nentry == 1 ==> DelKv(n, idx) == n)
  {
  }

  lemma AroundAt(n: Node, key: int, i: nat, j: nat)
    requires Ok(n) && i <= j <= n.nentry && j <= i + 1
    requires forall k :: 0 <= k < i ==> n.slots[k].key < key
    requires forall k :: i <= k < j ==> n.slots[k].key == key
    requires forall k :: j <= k < n.nentry ==> key < n.slots[k].key
    ensures Around(Entries(n), key, Entries(n)[..i], Entries(n)[i..j], Entries(n)[j..])
  {
  }

  // ----- node searches and edits -----

  /** Largest position whose key is not above `key`. */
  method FindEntry(n: Node, key: int) returns (r: Option<nat>)
    requires Ok(n) && Sorted(Entries(n))
    ensures r.None? <==> n.nentry == 0 || key < n.slots[0].key
    ensures r.Some? ==> r.value < n.nentry && n.slots[r.value].key <= key
    ensures forall i :: (if r.Some? then r.value + 1 else 0) <= i < n.nentry ==> key < n.slots[i].key
    ensures r.Some? ==> forall i :: 0 <= i < r.value ==> n.slots[i].key < key
  {
    var start, end := 0, n.nentry;
    if end == 0 { return None; }
    ghost var s := Entries(n);
    assert forall i :: 0 <= i < n.nentry ==> s[i] == n.slots[i];
    if key < n.slots[0].key { return None; }
    if n.slots[end - 1].key <= key { return Some(end - 1); }
    while start + 1 < end
      invariant 0 <= start < end <= n.nentry
      invariant n.slots[start].key <= key
      invariant end < n.nentry ==> key < n.slots[end].key
    {
      var middle := (start + end) / 2;
      if key < n.slots[middle].key {
        end := middle;
      } else if n.slots[middle].key < key {
        start := middle;
      } else {
        return Some(middle);
      }
    }
    return Some(start);
  }

  /** `_btree_add_entry`: overwrite the value of an equal key, else insert in key order. */
  method AddEntry(n: Node, e: Entry) returns (n': Node, ghost l: seq<Entry>, ghost m: seq<Entry>, ghost r: seq<Entry>)
    requires Ok(n) && Sorted(Entries(n))
    requires n.nentry < |n.slots| || Has(n, e.key)
    ensures Around(Entries(n), e.key, l, m, r)
    ensures Ok(n') && Entries(n') == l + [e] + r
    ensures n' == n.(nentry := n.nentry + 1 - |m|, slots := n'.slots) && |n'.slots| == |n.slots|
  {
    hide Around, Sorted, Has;
    ghost var s := Entries(n);
    var idx := 0;
    if n.nentry > 0 {
      var f := FindEntry(n, e.key);
      if f.Some? {
        idx := f.value + 1;
        if n.slots[f.value].key == e.key {
          l, m, r := s[..f.value], s[f.value..f.value + 1], s[f.value + 1..];
          n' := SetKv(n, f.value, e);
          AroundAt(n, e.key, f.value, f.value + 1);
          SetKvEntries(n, f.value, e);
          return;
        }
      }
    }
    l, m, r := s[..idx], s[idx..idx], s[idx..];
    AroundAt(n, e.key, idx, idx);
    HasIff(n, e.key, l, m, r);
    InsKvEntries(n, idx, e);
    if idx < n.nentry {
      n' := InsKv(n, idx, e);
    } else {
      n' := SetKv(n, idx, e);
    }
    n' := n'.(nentry := n'.nentry + 1);
  }

  /** `_btree_remove_entry` for a key known to be in the node. */
  method RemoveEntry(n: Node, key: int) returns (n': Node, ghost idx: nat)
    requires Ok(n) && Sorted(Entries(n))
    requires Has(n, key)
    ensures idx < n.nentry && n.slots[idx].key == key
    ensures Ok(n') && Entries(n') == Entries(n)[..idx] + Entries(n)[idx + 1..]
    ensures n' == n.(nentry := n.nentry - 1, slots := n'.slots) && |n'.slots| == |n.slots|
    ensures n.nentry == 1 ==> n'.slots == n.slots
  {
    hide DelKv;
    ghost var i :| 0 <= i < n.nentry && n.slots[i].key == key;
    var f := FindEntry(n, key);
    assert f.Some? && f.value == i;
    idx := f.value;
    n' := DelKv(n, f.value);
    DelKvEntries(n, f.value);
    n' := n'.(nentry := n'.nentry - 1);
  }

  // ----- one level of an insertion -----

  /** A freshly allocated node: no entries, unknown slot contents. */
  method InitNode(g: Geometry, level: nat, root: bool) returns (n: Node)
    requires g.kv > 0 && g.Cap(root) >= 0
    ensures n.level == level && n.root == root && n.nentry == 0 && |n.slots| == g.Cap(root)
  {
    assert |seq(g.Cap(root), _ => Entry(0, 0))| == g.Cap(root);
    var junk: seq<Entry> :| |junk| == g.Cap(root);
    n := Node(level, root, 0, junk);
  }

  /** A full node cut into two (the entry-moving part of `_btree_split_node`). */
  method SplitNode(g: Geometry, n: Node) returns (n0: Node, n1: Node)
    requires g.Valid() && Ok(n) && n.nentry == |n.slots| == g.Cap(n.root)
    ensures n0 == n.(nentry := n0.nentry) && 1 <= n0.nentry < |n0.slots|
    ensures n1.level == n.level && !n1.root && |n1.slots| == g.Cap(false) && 1 <= n1.nentry < |n1.slots|
    ensures Entries(n0) + Entries(n1) == Entries(n)
    ensures n1.nentry <= n0.nentry <= n1.nentry + 1
  {
    CapAtLeastTwo(g);
    NthIdxHalves(n.nentry);
    n1 := InitNode(g, n.level, false);
    var start, end := NthIdx(n.nentry, 1, 2), NthIdx(n.nentry, 2, 2);
    n1 := CopyKv(n1, n, 0, start, end - start);
    n1 := n1.(nentry := end - start);
    n0 := n.(nentry := NthIdx(n.nentry, 1, 2) - NthIdx(n.nentry, 0, 2));
  }

  /** es with its first key replaced, when there is a new minimum. */
  ghost function WithMin(es: seq<Entry>, minkey: Option<int>): seq<Entry> {
    if minkey.Some? && es != [] then [Entry(minkey.value, es[0].val)] + es[1..] else es
  }

  method ReplaceMin(n: Node, minkey: Option<int>) returns (n': Node)
    requires Ok(n) && n.nentry >= 1
    ensures n' == n.(slots := n'.slots) && |n'.slots| == |n.slots|
    ensures Entries(n') == WithMin(Entries(n), minkey)
  {
    n' := n;
    if minkey.Some? {
      n' := SetKv(n, 0, Entry(minkey.value, n.slots[0].val));
      SetKvEntries(n, 0, Entry(minkey.value, n.slots[0].val));
    }
  }

  /** Put one new entry into the proper half of a split node. */
  method AddToHalves(p0: Node, p1: Node, e: Entry)
    returns (n0: Node, n1: Node, ghost l: seq<Entry>, ghost r: seq<Entry>)
    requires Ok(p0) && Ok(p1) && Sorted(Entries(p0) + Entries(p1))
    requires 1 <= p0.nentry < |p0.slots| && 1 <= p1.nentry < |p1.slots|
    requires !Has(p0, e.key) && !Has(p1, e.key)
    ensures Around(Entries(p0) + Entries(p1), e.key, l, [], r)
    ensures n0 == p0.(nentry := n0.nentry, slots := n0.slots) && |n0.slots| == |p0.slots| && Ok(n0)
    ensures n1 == p1.(nentry := n1.nentry, slots := n1.slots) && |n1.slots| == |p1.slots| && Ok(n1)
    ensures n0.nentry >= 1 && n1.nentry >= 1 && n1.slots[0] == p1.slots[0]
    ensures Entries(n0) + Entries(n1) == l + [e] + r
    ensures n0.nentry == p0.nentry + (if e.key < p1.slots[0].key then 1 else 0)
    ensures n1.nentry == p1.nentry + (if e.key < p1.slots[0].key then 0 else 1)
  {
    HalvesSorted(Entries(p0), Entries(p1), e.key);
    n0, n1 := p0, p1;
    ghost var m;
    if e.key < p1.slots[0].key {
      n0, l, m, r := AddEntry(p0, e);
      HasIff(p0, e.key, l, m, r);
      AroundWiden(Entries(p0), e.key, l, [], r, [], Entries(p1));
      assert Entries(n0) + Entries(p1) == l + [e] + (r + Entries(p1));
      r := r + Entries(p1);
      assert [] + l == l && [] + Entries(p0) + Entries(p1) == Entries(p0) + Entries(p1);
    } else {
      n1, l, m, r := AddEntry(p1, e);
      HasIff(p1, e.key, l, m, r);
      AroundWiden(Entries(p1), e.key, l, [], r, Entries(p0), []);
      assert Entries(p0) + Entries(n1) == (Entries(p0) + l) + [e] + r;
      HasFirst(p1, e.key, l, r);
      assert Entries(n1)[0] == Entries(p1)[0];
      l := Entries(p0) + l;
      assert r + [] == r && Entries(p0) + Entries(p1) + [] == Entries(p0) + Entries(p1);
    }
  }

  lemma HasFirst(n: Node, key: int, l: seq<Entry>, r: seq<Entry>)
    requires Ok(n) && n.nentry >= 1 && n.slots[0].key <= key && !Has(n, key)
    requires Around(Entries(n), key, l, [], r)
    ensures l != [] && l[0] == Entries(n)[0]
  {
    assert Entries(n)[0] == n.slots[0];
    assert Entries(n) == l + r;
  }

  lemma HalvesSorted(a: seq<Entry>, b: seq<Entry>, key: int)
    requires Sorted(a + b) && a != [] && b != []
    ensures Sorted(a) && Sorted(b)
    ensures key < b[0].key ==> Above(b, key)
    ensures b[0].key <= key ==> Below(a, key)
  {
    assert forall i :: 0 <= i < |a| ==> a[i] == (a + b)[i];
    assert forall i :: 0 <= i < |b| ==> b[i] == (a + b)[|a| + i];
  }

  lemma AroundWiden(s: seq<Entry>, key: int, l: seq<Entry>, m: seq<Entry>, r: seq<Entry>, a: seq<Entry>, b: seq<Entry>)
    requires Around(s, key, l, m, r) && Below(a, key) && Above(b, key)
    ensures Around(a + s + b, key, a + l, m, r + b)
  {
    assert a + (l + m + r) + b == (a + l) + m + (r + b);
  }

  /** What one level of `btree_insert` does to a node: add the pending entry (at most
      one, see SplitCountIsTwo) and lower the first key if asked to, splitting the
      node when the entry does not fit.  Returns the part split off, if any. */
  method EditNode(g: Geometry, n: Node, ins: Option<Entry>, minkey: Option<int>, isUpdate: bool)
    returns (n0: Node, n1: Option<Node>, ghost l: seq<Entry>, ghost m: seq<Entry>, ghost r: seq<Entry>)
    requires g.Valid() && Ok(n) && Sorted(Entries(n)) && |n.slots| == g.Cap(n.root)
    requires ins.Some? ==> (isUpdate <==> Has(n, ins.value.key))
    requires ins.None? ==> minkey.Some?
    requires minkey.Some? ==> n.nentry >= 1
    ensures ins.Some? ==> Around(Entries(n), ins.value.key, l, m, r)
    ensures ins.Some? ==> (m != [] <==> isUpdate)
    ensures n1.Some? <==> ins.Some? && !isUpdate && n.nentry == |n.slots|
    ensures n1.Some? ==> n1.value.nentry - 1 <= n0.nentry <= n1.value.nentry + 2
    ensures Ok(n0) && n0 == n.(nentry := n0.nentry, slots := n0.slots) && |n0.slots| == |n.slots| && n0.nentry >= 1
    ensures n1.Some? ==> Ok(n1.value) && n1.value.level == n.level && !n1.value.root
                         && |n1.value.slots| == g.Cap(false) && n1.value.nentry >= 1
    ensures n1.Some? ==> n.nentry >= 1 && n.slots[0].key < n1.value.slots[0].key
    ensures Entries(n0) + (if n1.Some? then Entries(n1.value) else []) ==
            WithMin(if ins.Some? then l + [ins.value] + r else Entries(n), minkey)
  {
    hide Around, Sorted;
    l, m, r := [], [], [];
    n1 := None;
    var size := g.Size(n.root, n.nentry + if ins.Some? then 1 else 0);
    SizeCheck(g, n.root, n.nentry + if ins.Some? then 1 else 0);
    if size <= g.nodesize || isUpdate {
      n0 := n;
      if ins.Some? {
        n0, l, m, r := AddEntry(n0, ins.value);
        HasIff(n, ins.value.key, l, m, r);
      }
      n0 := ReplaceMin(n0, minkey);
    } else {
      var p0, p1 := SplitNode(g, n);
      SplitCountIsTwo(g, n.root, n.nentry);
      var q0, q1;
      HasSplit(n, p0, p1, ins.value.key);
      q0, q1, l, r := AddToHalves(p0, p1, ins.value);
      n0 := ReplaceMin(q0, minkey);
      n1 := Some(q1);
      WithMinFirst(Entries(q0), Entries(q1), minkey);
      SplitFirst(n, p0, p1);
    }
  }

  lemma SplitFirst(n: Node, p0: Node, p1: Node)
    requires Ok(n) && Sorted(Entries(n)) && Ok(p0) && Ok(p1) && p0.nentry >= 1 && p1.nentry >= 1
    requires Entries(p0) + Entries(p1) == Entries(n)
    ensures n.nentry >= 1 && n.slots[0].key < p1.slots[0].key
  {
    assert Entries(n)[0] == n.slots[0] && Entries(n)[p0.nentry] == Entries(p1)[0];
  }

  lemma WithMinFirst(a: seq<Entry>, b: seq<Entry>, minkey: Option<int>)
    requires a != []
    ensures WithMin(a + b, minkey) == WithMin(a, minkey) + b
  {
  }

  lemma HasSplit(n: Node, p0: Node, p1: Node, key: int)
    requires Ok(n) && Ok(p0) && Ok(p1) && Entries(n) == Entries(p0) + Entries(p1)
    ensures Has(n, key) <==> Has(p0, key) || Has(p1, key)
  {
    var s := Entries(n);
    assert forall i :: 0 <= i < n.nentry ==> s[i] == n.slots[i];
    assert forall i :: 0 <= i < p0.nentry ==> s[i] == p0.slots[i];
    assert forall i :: 0 <= i < p1.nentry ==> s[p0.nentry + i] == p1.slots[i];
    if Has(p1, key) {
      var i :| 0 <= i < p1.nentry && p1.slots[i].key == key;
      assert n.slots[p0.nentry + i].key == key;
    }
  }

  lemma HasIff(n: Node, key: int, l: seq<Entry>, m: seq<Entry>, r: seq<Entry>)
    requires Ok(n) && Around(Entries(n), key, l, m, r)
    ensures m != [] <==> Has(n, key)
  {
    var s := Entries(n);
    assert forall i :: 0 <= i < n.nentry ==> s[i] == n.slots[i];
    if m != [] { assert s[|l|] == m[0]; }
  }

  /** `btree_update_meta` with no metadata: the root's entries move up over the
      metadata area, so the node has a full node's slots. */
  method DropMeta(g: Geometry, n: Node) returns (n': Node)
    requires g.Valid() && Ok(n) && n.root && |n.slots| == g.Cap(true)
    ensures n' == n.(slots := n'.slots) && |n'.slots| == g.Cap(false) && Ok(n') && Entries(n') == Entries(n)
  {
    CapAtLeastTwo(g);
    var wide := InitNode(g, n.level, false);
    n' := n.(slots := CopyKv(wide, n, 0, 0, n.nentry).slots);
  }

  /** The entries put into a freshly made root over two halves. */
  method TwoEntries(g: Geometry, n: Node, e0: Entry, e1: Entry) returns (n': Node)
    requires g.Valid() && n.nentry == 0 && |n.slots| == g.Cap(true) && n.root && e0.key < e1.key
    ensures n' == n.(nentry := 2, slots := n'.slots) && |n'.slots| == |n.slots| && Ok(n') && Entries(n') == [e0, e1]
  {
    CapAtLeastTwo(g);
    ghost var l, m, r;
    n', l, m, r := AddEntry(n, e0);
    assert Entries(n') == [e0];
    n', l, m, r := AddEntry(n', e1);
    SecondEntry(e0, e1, l, m, r);
  }

  lemma SecondEntry(e0: Entry, e1: Entry, l: seq<Entry>, m: seq<Entry>, r: seq<Entry>)
    requires e0.key < e1.key && Around([e0], e1.key, l, m, r)
    ensures m == [] && l + [e1] + r == [e0, e1]
  {
    AroundGap([e0], 0, e1.key);
    AroundUnique([e0], e1.key, [e0][..1], [], [e0][1..], l, m, r);
  }

  /** A copy of child's entries in a fresh root node. */
  method CopyToRoot(g: Geometry, child: Node, level: nat) returns (n: Node)
    requires g.Valid() && Ok(child) && g.Size(true, child.nentry) < g.nodesize
    ensures Ok(n) && n.root && n.level == level && |n.slots| == g.Cap(true) && n.nentry == child.nentry
            && Entries(n) == Entries(child)
  {
    CapAtLeastTwo(g);
    ShrinkFits(g, child.nentry);
    n := InitNode(g, level, true);
    n := CopyKv(n, child, 0, 0, child.nentry).(nentry := child.nentry);
  }
}
