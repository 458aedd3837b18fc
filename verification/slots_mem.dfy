/** Bytes of a B+tree node with variable-length keys (src/btree_fast_str_kv.cc): an array
    of 16-bit offsets followed by the keys and values back to back. */
module SlotsMem {
  type Bytes = seq<int>

  datatype Pair = Pair(key: Bytes, val: Bytes)

  const MAX := 0x1_0000

  // ----- memory -----

  function Move(mem: Bytes, dst: nat, src: nat, len: nat): (r: Bytes)
    requires dst + len <= |mem| && src + len <= |mem|
    ensures |r| == |mem|
    ensures forall p :: 0 <= p < |mem| ==> r[p] == if dst <= p < dst + len then mem[src + (p - dst)] else mem[p]
  {
    mem[..dst] + mem[src..src + len] + mem[dst + len..]
  }

  function Put(mem: Bytes, pos: nat, bytes: Bytes): (r: Bytes)
    requires pos + |bytes| <= |mem|
    ensures |r| == |mem|
    ensures forall p :: 0 <= p < |mem| ==> r[p] == if pos <= p < pos + |bytes| then bytes[p - pos] else mem[p]
  {
    mem[..pos] + bytes + mem[pos + |bytes|..]
  }

  /** The i-th offset. */
  function Off(mem: Bytes, i: nat): int
    requires 2 * i + 2 <= |mem|
  {
    mem[2 * i] * 256 + mem[2 * i + 1]
  }

  function SetOff(mem: Bytes, i: nat, x: int): (r: Bytes)
    requires 2 * i + 2 <= |mem|
    ensures |r| == |mem|
    ensures forall p :: 0 <= p < |mem| && p != 2 * i && p != 2 * i + 1 ==> r[p] == mem[p]
    ensures 0 <= x < MAX ==> Off(r, i) == x && r[2 * i] == x / 256 && r[2 * i + 1] == x % 256
    ensures forall j: nat :: j != i && 2 * j + 2 <= |mem| ==> Off(r, j) == Off(mem, j)
  {
    mem[2 * i := x / 256 % 256][2 * i + 1 := x % 256]
  }

  /** bytes stand at pos. */
  ghost predicate At(mem: Bytes, pos: int, bytes: Bytes) {
    0 <= pos && pos + |bytes| <= |mem| && mem[pos..pos + |bytes|] == bytes
  }

  lemma AtJoin(mem: Bytes, pos: int, x: Bytes, y: Bytes)
    ensures At(mem, pos, x + y) <==> At(mem, pos, x) && At(mem, pos + |x|, y)
  {
    if At(mem, pos, x + y) {
      assert mem[pos..pos + |x|] == mem[pos..pos + |x + y|][..|x|] == (x + y)[..|x|] == x;
      assert mem[pos + |x|..pos + |x| + |y|] == mem[pos..pos + |x + y|][|x|..] == (x + y)[|x|..] == y;
    }
    if At(mem, pos, x) && At(mem, pos + |x|, y) {
      assert mem[pos..pos + |x + y|] == mem[pos..pos + |x|] + mem[pos + |x|..pos + |x| + |y|];
    }
  }

  /** Bytes outside a change stay. */
  lemma AtKept(mem: Bytes, mem': Bytes, lo: int, hi: int, pos: int, bytes: Bytes)
    requires |mem'| == |mem| && (forall p :: 0 <= p < |mem| && !(lo <= p < hi) ==> mem'[p] == mem[p])
    requires At(mem, pos, bytes) && (pos + |bytes| <= lo || hi <= pos)
    ensures At(mem', pos, bytes)
  {
    assert mem'[pos..pos + |bytes|] == mem[pos..pos + |bytes|];
  }

  lemma AtMoved(mem: Bytes, dst: nat, src: nat, len: nat, bytes: Bytes)
    requires dst + len <= |mem| && src + len <= |mem| && At(mem, src, bytes) && |bytes| == len
    ensures At(Move(mem, dst, src, len), dst, bytes)
  {
    var r := Move(mem, dst, src, len);
    assert r[dst..dst + len] == mem[src..src + len];
  }

  lemma AtPut(mem: Bytes, pos: nat, bytes: Bytes)
    requires pos + |bytes| <= |mem|
    ensures At(Put(mem, pos, bytes), pos, bytes)
  {
    assert Put(mem, pos, bytes)[pos..pos + |bytes|] == bytes;
  }

  lemma MoveKeeps(mem: Bytes, dst: nat, src: nat, len: nat, pos: int, bytes: Bytes)
    requires dst + len <= |mem| && src + len <= |mem| && At(mem, pos, bytes)
             && (pos + |bytes| <= dst || dst + len <= pos)
    ensures At(Move(mem, dst, src, len), pos, bytes)
  {
    AtKept(mem, Move(mem, dst, src, len), dst, dst + len, pos, bytes);
  }

  lemma PutKeeps(mem: Bytes, at: nat, put: Bytes, pos: int, bytes: Bytes)
    requires at + |put| <= |mem| && At(mem, pos, bytes) && (pos + |bytes| <= at || at + |put| <= pos)
    ensures At(Put(mem, at, put), pos, bytes)
  {
    AtKept(mem, Put(mem, at, put), at, at + |put|, pos, bytes);
  }

  lemma OffKept(mem: Bytes, mem': Bytes, lo: int, hi: int, i: nat)
    requires |mem'| == |mem| && (forall p :: 0 <= p < |mem| && !(lo <= p < hi) ==> mem'[p] == mem[p])
    requires 2 * i + 2 <= |mem| && (2 * i + 2 <= lo || hi <= 2 * i)
    ensures Off(mem', i) == Off(mem, i)
  {
  }

  lemma MoveOffKeeps(mem: Bytes, dst: nat, src: nat, len: nat, i: nat)
    requires dst + len <= |mem| && src + len <= |mem| && 2 * i + 2 <= dst
    ensures Off(Move(mem, dst, src, len), i) == Off(mem, i)
  {
    OffKept(mem, Move(mem, dst, src, len), dst, dst + len, i);
  }

  lemma PutOffKeeps(mem: Bytes, pos: nat, bytes: Bytes, i: nat)
    requires pos + |bytes| <= |mem| && 2 * i + 2 <= pos
    ensures Off(Put(mem, pos, bytes), i) == Off(mem, i)
  {
    OffKept(mem, Put(mem, pos, bytes), pos, pos + |bytes|, i);
  }

  // ----- pairs -----

  function Flat(ps: seq<Pair>): Bytes {
    if ps == [] then [] else Flat(ps[..|ps| - 1]) + (ps[|ps| - 1].key + ps[|ps| - 1].val)
  }

  /** Where the i-th pair starts among the keys and values. */
  function Pos(ps: seq<Pair>, i: nat): nat
    requires i <= |ps|
  {
    |Flat(ps[..i])|
  }

  lemma FlatStep(ps: seq<Pair>, p: Pair)
    ensures Flat(ps + [p]) == Flat(ps) + (p.key + p.val)
  {
    assert (ps + [p])[..|ps|] == ps;
  }

  lemma {:induction false} FlatConcat(a: seq<Pair>, b: seq<Pair>)
    ensures Flat(a + b) == Flat(a) + Flat(b)
    decreases b
  {
    if b == [] {
      assert a + b == a;
    } else {
      hide Flat;
      var init, last := b[..|b| - 1], b[|b| - 1];
      assert b == init + [last] && a + b == (a + init) + [last];
      FlatConcat(a, init);
      FlatStep(init, last);
      FlatStep(a + init, last);
    }
  }

  lemma FlatOne(p: Pair)
    ensures Flat([p]) == p.key + p.val
  {
    assert [p][..0] == [];
  }

  /** A list of pairs around the i-th one. */
  lemma FlatAround(ps: seq<Pair>, i: nat)
    requires i < |ps|
    ensures Flat(ps) == Flat(ps[..i]) + (ps[i].key + ps[i].val) + Flat(ps[i + 1..])
    ensures Pos(ps, i + 1) == Pos(ps, i) + |ps[i].key| + |ps[i].val|
  {
    hide Flat;
    assert ps == ps[..i + 1] + ps[i + 1..] && ps[..i + 1] == ps[..i] + [ps[i]];
    FlatConcat(ps[..i + 1], ps[i + 1..]);
    FlatConcat(ps[..i], [ps[i]]);
    FlatOne(ps[i]);
  }

  lemma FlatSplit(ps: seq<Pair>, i: nat)
    requires i <= |ps|
    ensures Flat(ps) == Flat(ps[..i]) + Flat(ps[i..])
  {
    hide Flat;
    assert ps == ps[..i] + ps[i..];
    FlatConcat(ps[..i], ps[i..]);
  }

  /** The positions in a spliced list. */
  lemma PosSplice(ps: seq<Pair>, i: nat, k: nat, mid: seq<Pair>, j: nat)
    requires i <= k <= |ps| && j <= i + |mid| + (|ps| - k)
    ensures var qs := ps[..i] + mid + ps[k..];
            && (j <= i ==> Pos(qs, j) == Pos(ps, j))
            && (j >= i + |mid| ==> Pos(qs, j) == Pos(ps, j - |mid| - i + k) - Pos(ps, k) + Pos(ps, i) + |Flat(mid)|)
  {
    hide Flat;
    if j <= i {
      assert (ps[..i] + mid + ps[k..])[..j] == ps[..j];
    }
    if j >= i + |mid| {
      PosBehind(ps, i, k, mid, j - |mid| - i + k);
    }
  }

  lemma PosBehind(ps: seq<Pair>, i: nat, k: nat, mid: seq<Pair>, t: nat)
    requires i <= k <= t <= |ps|
    ensures var qs := ps[..i] + mid + ps[k..];
            Pos(qs, i + |mid| + (t - k)) == Pos(ps, t) - Pos(ps, k) + Pos(ps, i) + |Flat(mid)|
  {
    hide Flat;
    var a, b := ps[..i] + mid, ps[k..t];
    assert (a + ps[k..])[..|a| + (t - k)] == a + b;
    FlatConcat(a, b);
    FlatConcat(ps[..i], mid);
    assert ps[..t] == ps[..k] + b;
    FlatConcat(ps[..k], b);
  }
}
