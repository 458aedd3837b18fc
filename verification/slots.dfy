/** Reading and editing a node with variable-length keys in place
    (src/btree_fast_str_kv.cc). */
module Slots {
  import opened Options
  import opened SlotsMem

  /** Where the keys and values start in a node of n pairs. */
  function Base(n: nat): nat {
    2 * (n + 1)
  }

  function Total(ps: seq<Pair>): nat {
    Base(|ps|) + |Flat(ps)|
  }

  ghost predicate Offsets(mem: Bytes, ps: seq<Pair>) {
    Base(|ps|) <= |mem| && forall i :: 0 <= i <= |ps| ==> Off(mem, i) == Base(|ps|) + Pos(ps, i)
  }

  /** mem holds exactly the pairs: the offsets start at 2 * (n + 1) and the pairs follow
      without gaps. */
  ghost predicate Rep(mem: Bytes, ps: seq<Pair>, v: nat) {
    && (forall i :: 0 <= i < |ps| ==> |ps[i].val| == v)
    && Total(ps) <= |mem| && Total(ps) < MAX
    && Offsets(mem, ps)
    && At(mem, Base(|ps|), Flat(ps))
  }

  /** A node's data area. */
  class SlotNode {
    var data: Bytes
    var nentry: nat
    /** Bytes of a value. */
    const vsize: nat

    /** One of the loops that move a range of offsets by the same distance. */
    method Shift(lo: nat, hi: nat, delta: int)
      requires lo <= hi && 2 * hi <= |data| && forall i :: lo <= i < hi ==> 0 <= Off(data, i) + delta < MAX
      modifies this`data
      ensures |data| == |old(data)|
              && (forall p :: 0 <= p < |data| && !(2 * lo <= p < 2 * hi) ==> data[p] == old(data)[p])
      ensures forall i :: lo <= i < hi ==> Off(data, i) == Off(old(data), i) + delta
    {
      hide Off;
      ghost var mem := data;
      for i := lo to hi
        invariant |data| == |mem| && (forall p :: 0 <= p < |data| && !(2 * lo <= p < 2 * i) ==> data[p] == mem[p])
        invariant forall j :: lo <= j < i ==> Off(data, j) == Off(mem, j) + delta
        invariant forall j :: i <= j < hi ==> Off(data, j) == Off(mem, j)
      {
        data := SetOff(data, i, Off(data, i) + delta);
      }
    }

    /** `_get_fast_str_kv` */
    method Get(idx: nat, ghost ps: seq<Pair>) returns (key: Bytes, val: Bytes)
      requires Rep(data, ps, vsize) && idx < |ps|
      ensures key == ps[idx].key && val == ps[idx].val
    {
      hide Off, Flat;
      FlatAround(ps, idx);
      PairAt(data, ps, vsize, idx);
      var offset := Off(data, idx);
      var keylen := Off(data, idx + 1) - offset - vsize;
      key := data[offset..offset + keylen];
      val := data[offset + keylen..offset + keylen + vsize];
    }

    /** `_ins_fast_str_kv` with a pair: the pairs from idx on move up. */
    method Insert(idx: nat, key: Bytes, val: Bytes, ghost ps: seq<Pair>)
      requires Rep(data, ps, vsize) && idx < |ps| == nentry && |val| == vsize
      requires Total(ps) + 2 + |key| + vsize <= |data| && Total(ps) + 2 + |key| + vsize < MAX
      modifies this`data
      ensures |data| == |old(data)| && Rep(data, ps[..idx] + [Pair(key, val)] + ps[idx..], vsize)
      ensures Total(ps[..idx] + [Pair(key, val)] + ps[idx..]) == Total(ps) + 2 + |key| + vsize
    {
      hide Off, Flat, Rep, Offsets, Pos, At, Move, Put;
      ghost var m0 := data;
      RepFacts(data, ps, vsize, idx);
      var begin, at, gap := Off(data, 0), Off(data, idx), |key| + vsize;
      data := Move(data, at + gap + 2, at, Off(data, nentry) - at);
      data := Move(data, begin + 2, begin, at - begin);
      data := Move(data, 2 * (idx + 1), 2 * idx, 2 * (nentry - idx + 1));
      data := Put(data, at + 2, key);
      data := Put(data, at + 2 + |key|, val);
      ghost var m1 := data;
      assert InsertMem(m0, m1, nentry, begin, at, Off(m0, nentry), idx, key, val);
      InsertRange(m0, m1, ps, vsize, idx, key, val);
      Shift(0, idx + 1, 2);
      ghost var m2 := data;
      OffsAway(m1, m2, 0, idx + 1);
      Shift(idx + 1, nentry + 2, 2 + gap);
      OffsAway(m2, data, idx + 1, nentry + 2);
      InsertDone(m0, m1, data, ps, vsize, idx, key, val);
      InsertTotal(ps, idx, Pair(key, val));
    }

    /** `_ins_fast_str_kv` without a pair: the pair at idx is removed. */
    method Remove(idx: nat, ghost ps: seq<Pair>)
      requires Rep(data, ps, vsize) && idx < |ps| == nentry
      modifies this`data
      ensures |data| == |old(data)| && Rep(data, ps[..idx] + ps[idx + 1..], vsize)
    {
      hide Off, Flat, Rep, Offsets, Pos, At, Move;
      ghost var m0 := data;
      RepFacts(data, ps, vsize, idx);
      RepFacts(data, ps, vsize, idx + 1);
      PairLen(data, ps, vsize, idx);
      var begin, at, next, end := Off(data, 0), Off(data, idx), Off(data, idx + 1), Off(data, nentry);
      var keylen := next - at - vsize;
      data := Move(data, 2 * idx, 2 * (idx + 1), 2 * (nentry - idx));
      data := Move(data, begin - 2, begin, at - begin);
      data := Move(data, at - 2, next, end - next);
      ghost var m1 := data;
      assert RemoveMem(m0, m1, nentry, begin, at, next, end, idx);
      RemoveRange(m0, m1, ps, vsize, idx);
      Shift(0, idx, -2);
      ghost var m2 := data;
      OffsAway(m1, m2, 0, idx);
      Shift(idx, nentry, -(2 + keylen + vsize));
      OffsAway(m2, data, idx, nentry);
      RemoveDone(m0, m1, data, ps, vsize, idx);
    }

    /** `_set_fast_str_kv` on an existing pair: later pairs move by the difference in key
        length. */
    method Replace(idx: nat, key: Bytes, val: Bytes, ghost ps: seq<Pair>)
      requires Rep(data, ps, vsize) && idx < |ps| == nentry && |val| == vsize
      requires Total(ps) - |ps[idx].key| + |key| <= |data| && Total(ps) - |ps[idx].key| + |key| < MAX
      modifies this`data
      ensures |data| == |old(data)| && Rep(data, ps[..idx] + [Pair(key, val)] + ps[idx + 1..], vsize)
    {
      hide Off, Flat, Rep, Offsets, Pos, At, Move, Put;
      ghost var m0 := data;
      RepFacts(data, ps, vsize, idx);
      RepFacts(data, ps, vsize, idx + 1);
      PairLen(data, ps, vsize, idx);
      var at, next, end := Off(data, idx), Off(data, idx + 1), Off(data, nentry);
      var delta := |key| - (next - at - vsize);
      ghost var m1 := m0;
      if delta != 0 {
        if idx + 1 < nentry {
          data := Move(data, next + delta, next, end - next);
        }
        m1 := data;
        MoveUp(m0, m1, ps, vsize, idx, delta);
        Shift(idx + 1, nentry + 1, delta);
        OffsAway(m1, data, idx + 1, nentry + 1);
      }
      ghost var m2 := data;
      ReplaceMoved(m0, m1, m2, ps, vsize, idx, delta);
      data := Put(data, at, key);
      data := Put(data, at + |key|, val);
      ReplaceDone(m0, m2, data, ps, vsize, idx, key, val);
    }

    /** `_set_fast_str_kv` behind the last pair: the offset array grows by one. */
    method Append(key: Bytes, val: Bytes, ghost ps: seq<Pair>)
      requires (nentry == 0 || Rep(data, ps, vsize)) && |ps| == nentry && |val| == vsize
      requires Total(ps) + 2 + |key| + vsize <= |data| && Total(ps) + 2 + |key| + vsize < MAX
      modifies this`data
      ensures |data| == |old(data)| && Rep(data, ps + [Pair(key, val)], vsize)
    {
      hide Off, Flat, Rep, Offsets, Pos, At, Move, Put, Raised, SetOff;
      ghost var m0 := data;
      var at := 4;
      if nentry > 0 {
        RepFacts(data, ps, vsize, nentry);
        var begin, end := Off(data, 0), Off(data, nentry);
        data := Move(data, begin + 2, begin, end - begin);
        ghost var m1 := data;
        AppendRange(m0, m1, ps, vsize);
        Shift(0, nentry + 1, 2);
        OffsAway(m1, data, 0, nentry + 1);
        at := Off(data, nentry);
      } else {
        assert ps == [];
        FlatNone();
        data := SetOff(data, 0, 4);
        AtNothing(data, 4);
      }
      AppendReady(m0, data, ps, vsize);
      ghost var m2 := data;
      data := SetOff(data, nentry + 1, Off(data, nentry) + |key| + vsize);
      ghost var m3 := data;
      data := Put(data, at, key);
      data := Put(data, at + |key|, val);
      AppendDone(m2, m3, data, ps, vsize, key, val);
    }

    /** `_set_fast_str_kv` */
    method Set(idx: nat, key: Bytes, val: Bytes, ghost ps: seq<Pair>)
      requires (nentry == 0 || Rep(data, ps, vsize)) && idx <= |ps| == nentry && |val| == vsize
      requires var total := if idx < |ps| then Total(ps) - |ps[idx].key| + |key| else Total(ps) + 2 + |key| + vsize;
               total <= |data| && total < MAX
      modifies this`data
      ensures |data| == |old(data)|
              && Rep(data, if idx < |ps| then ps[idx := Pair(key, val)] else ps + [Pair(key, val)], vsize)
    {
      if idx < nentry {
        assert ps[idx := Pair(key, val)] == ps[..idx] + [Pair(key, val)] + ps[idx + 1..];
        Replace(idx, key, val, ps);
      } else {
        Append(key, val, ps);
      }
    }

    /** `_copy_fast_str_kv`: this node gets a range of the pairs of another node, or of
        itself. */
    method CopyFrom(src: SlotNode, from: nat, len: nat, ghost ps: seq<Pair>)
      requires Rep(src.data, ps, vsize) && from + len <= |ps| && Total(ps[from..from + len]) <= |data|
      modifies this`data
      ensures |data| == |old(data)| && Rep(data, ps[from..from + len], vsize)
    {
      hide Off, Flat, Rep, Offsets, Pos, At, Put, SetOff;
      var mem := src.data;
      ghost var qs := ps[from..from + len];
      CopyRange(mem, ps, qs, vsize, from, len);
      var at, base := Off(mem, from), 2 * (len + 1);
      var n := Off(mem, from + len) - at;
      var out := if src == this then seq(base + n, _ => 0) else data;
      out := Put(out, base, mem[at..at + n]);
      AtPut(if src == this then seq(base + n, _ => 0) else data, base, mem[at..at + n]);
      ghost var out0 := out;
      for i := 0 to len + 1
        invariant data == old(data) && |out| == |out0| && (forall p :: 2 * (len + 1) <= p < |out| ==> out[p] == out0[p])
        invariant forall j: nat {:trigger Off(out, j)} :: j < i ==> Off(out, j) == Off(mem, from + j) + base - at
      {
        ghost var before := out;
        assert Off(mem, from + i) - at == Pos(qs, i);
        out := SetOff(out, i, Off(mem, from + i) + base - at);
        SetOffFacts(before, i, Off(mem, from + i) + base - at);
      }
      CopyDone(mem, out0, out, ps, qs, vsize, from, len);
      if src == this {
        PutFront(data, out, qs, vsize);
        data := Put(data, 0, out);
      } else {
        data := out;
      }
    }

    /** `_get_fast_str_data_size`: the size the node will have with a new least key and
        further pairs.  It is exact for a node that has pairs, and short by the last offset
        of the array for an empty one. */
    method DataSize(newMin: Option<Bytes>, adds: seq<Pair>, ghost ps: seq<Pair>) returns (size: int)
      requires (nentry == 0 || Rep(data, ps, vsize)) && |ps| == nentry && forall i :: 0 <= i < |adds| ==>
                 |adds[i].val| == vsize
      ensures nentry > 0 ==> size == Total((if newMin.Some? then ps[0 := Pair(newMin.value, ps[0].val)] else ps) + adds)
      ensures nentry == 0 ==> size == Total(adds) - 2
    {
      hide Off, Flat, Rep, Offsets, Pos, At;
      size := 0;
      ghost var qs: seq<Pair> := if newMin.Some? && ps != [] then ps[0 := Pair(newMin.value, ps[0].val)] else ps;
      if nentry > 0 {
        RepFacts(data, ps, vsize, 0);
        size := Off(data, nentry);
        if newMin.Some? {
          RepFacts(data, ps, vsize, 1);
          PairLen(data, ps, vsize, 0);
          size := size - (Off(data, 1) - Off(data, 0));
          size := size + |newMin.value| + vsize;
          MinTotal(ps, newMin.value);
          ValLen(data, ps, vsize, 0);
        }
      } else {
        assert ps == [];
        FlatNone();
      }
      assert qs + adds[..0] == qs;
      for i := 0 to |adds|
        invariant size == Total(qs + adds[..i]) - if nentry > 0 then 0 else 2
      {
        size := size + 2 + |adds[i].key| + vsize;
        assert qs + adds[..i + 1] == (qs + adds[..i]) + [adds[i]];
        AddTotal(qs + adds[..i], adds[i]);
      }
      assert qs + adds[..|adds|] == qs + adds;
      assert nentry == 0 ==> qs + adds == adds;
    }
  }

  lemma SetOffFacts(mem: Bytes, i: nat, x: int)
    requires 2 * i + 2 <= |mem|
    ensures 0 <= x < MAX ==> Off(SetOff(mem, i, x), i) == x
    ensures forall j: nat :: j != i && 2 * j + 2 <= |mem| ==> Off(SetOff(mem, i, x), j) == Off(mem, j)
    ensures |SetOff(mem, i, x)| == |mem| && forall p :: 0 <= p < |mem| && p != 2 * i && p != 2 * i + 1 ==>
              SetOff(mem, i, x)[p] == mem[p]
  {
  }

  /** The part of the bytes that is copied. */
  lemma CopyRange(mem: Bytes, ps: seq<Pair>, qs: seq<Pair>, v: nat, from: nat, len: nat)
    requires Rep(mem, ps, v) && from + len <= |ps| && qs == ps[from..from + len]
    ensures 2 * (from + len) + 2 <= |mem| && 0 <= Off(mem, from) <= Off(mem, from + len) <= |mem|
    ensures mem[Off(mem, from)..Off(mem, from + len)] == Flat(qs)
    ensures forall j: nat :: j <= len ==> Off(mem, from + j) - Off(mem, from) == Pos(qs, j)
    ensures Total(qs) < MAX && Total(qs) == 2 * (len + 1) + Off(mem, from + len) - Off(mem, from)
    ensures forall j: nat :: j <= len ==> 0 <= Pos(qs, j) <= |Flat(qs)|
  {
    hide Off, Flat;
    RepFacts(mem, ps, v, from);
    RepFacts(mem, ps, v, from + len);
    OffsIn(mem, ps, v);
    forall j: nat | j <= len ensures Off(mem, from + j) - Off(mem, from) == Pos(qs, j) && Pos(qs, j) <= |Flat(qs)| {
      assert ps[..from + j] == ps[..from] + qs[..j];
      FlatConcat(ps[..from], qs[..j]);
      FlatSplit(qs, j);
    }
    assert qs[..len] == qs;
    var right := ps[from + len..];
    assert ps[from..] == qs + right;
    FlatConcat(qs, right);
    AtJoin(mem, Off(mem, from), Flat(qs), Flat(right));
  }

  lemma CopyDone(mem: Bytes, out0: Bytes, out: Bytes, ps: seq<Pair>, qs: seq<Pair>, v: nat, from: nat, len: nat)
    requires Rep(mem, ps, v) && from + len <= |ps| && qs == ps[from..from + len] && |out| == |out0|
             && 2 * (from + len) + 2 <= |mem| && 2 * (len + 1) <= |out|
    requires forall p :: 2 * (len + 1) <= p < |out| ==> out[p] == out0[p]
    requires At(out0, 2 * (len + 1), Flat(qs))
    requires forall j: nat {:trigger Off(out, j)} :: j <= len ==>
               Off(out, j) == Off(mem, from + j) + 2 * (len + 1) - Off(mem, from)
    ensures Rep(out, qs, v)
  {
    hide Off, Flat;
    CopyRange(mem, ps, qs, v, from, len);
    AtKept(out0, out, 0, 2 * (len + 1), 2 * (len + 1), Flat(qs));
    forall i | 0 <= i < len ensures |qs[i].val| == v { assert qs[i] == ps[from + i]; }
    forall j: nat | j <= len ensures Off(out, j) == Base(len) + Pos(qs, j) {
      assert Off(mem, from + j) - Off(mem, from) == Pos(qs, j);
    }
  }

  /** Copying a finished node over the front of a buffer. */
  lemma PutFront(mem: Bytes, out: Bytes, ps: seq<Pair>, v: nat)
    requires Rep(out, ps, v) && |out| <= |mem|
    ensures Rep(Put(mem, 0, out), ps, v) && |Put(mem, 0, out)| == |mem|
  {
    hide Flat, Pos;
    var r := Put(mem, 0, out);
    assert forall p :: 0 <= p < |out| ==> r[p] == out[p];
    assert r[Base(|ps|)..Total(ps)] == out[Base(|ps|)..Total(ps)];
  }

  lemma ValLen(mem: Bytes, ps: seq<Pair>, v: nat, i: nat)
    requires Rep(mem, ps, v) && i < |ps|
    ensures |ps[i].val| == v
  {
  }

  lemma AddTotal(ps: seq<Pair>, p: Pair)
    ensures Total(ps + [p]) == Total(ps) + 2 + |p.key| + |p.val|
  {
    FlatConcat(ps, [p]);
    FlatOne(p);
  }

  /** A new pair costs the same wherever it goes. */
  lemma InsertTotal(ps: seq<Pair>, i: nat, p: Pair)
    requires i <= |ps|
    ensures Total(ps[..i] + [p] + ps[i..]) == Total(ps) + 2 + |p.key| + |p.val|
  {
    hide Flat;
    FlatSplit(ps, i);
    FlatConcat(ps[..i] + [p], ps[i..]);
    FlatConcat(ps[..i], [p]);
    FlatOne(p);
  }

  lemma MinTotal(ps: seq<Pair>, key: Bytes)
    requires ps != []
    ensures Total(ps[0 := Pair(key, ps[0].val)]) == Total(ps) - |ps[0].key| + |key|
  {
    var qs := ps[0 := Pair(key, ps[0].val)];
    FlatAround(ps, 0);
    FlatAround(qs, 0);
    assert qs[1..] == ps[1..] && qs[..0] == ps[..0];
  }

  lemma AppendRange(m0: Bytes, m1: Bytes, ps: seq<Pair>, v: nat)
    requires Rep(m0, ps, v) && Total(ps) + 2 <= |m0| && Total(ps) + 2 < MAX && Off(m0, 0) == Base(|ps|)
             && Off(m0, |ps|) == Total(ps)
    requires m1 == Move(m0, Off(m0, 0) + 2, Off(m0, 0), Off(m0, |ps|) - Off(m0, 0))
    ensures |m1| == |m0| && 2 * (|ps| + 1) <= |m1| && At(m1, Base(|ps|) + 2, Flat(ps))
    ensures forall i: nat :: i <= |ps| ==> Off(m1, i) == Off(m0, i) && 0 <= Off(m1, i) + 2 < MAX
  {
    hide Off, Flat, Pos, At, Move, Rep, Offsets;
    var b, f := Base(|ps|), Flat(ps);
    RepFlat(m0, ps, v);
    AtMoved(m0, b + 2, b, |f|, f);
    forall i: nat | i <= |ps| ensures Off(m1, i) == Off(m0, i) && 0 <= Off(m1, i) + 2 < MAX {
      OffIn(m0, ps, v, i);
      MoveOffKeeps(m0, b + 2, b, |f|, i);
    }
  }

  lemma RepFlat(mem: Bytes, ps: seq<Pair>, v: nat)
    requires Rep(mem, ps, v)
    ensures Total(ps) <= |mem| && At(mem, Base(|ps|), Flat(ps))
  {
    hide Off, At, Flat;
    assert ps[..|ps|] == ps;
  }

  lemma OffIn(mem: Bytes, ps: seq<Pair>, v: nat, i: nat)
    requires Rep(mem, ps, v) && i <= |ps|
    ensures 2 * i + 2 <= |mem| && Base(|ps|) <= Off(mem, i) <= Total(ps)
  {
    hide Off, Flat;
    FlatSplit(ps, i);
  }

  /** The pairs stand two bytes higher, with the offsets of a node of one more pair. */
  ghost predicate Raised(mem: Bytes, ps: seq<Pair>) {
    && Base(|ps| + 1) <= |mem|
    && At(mem, Base(|ps| + 1), Flat(ps))
    && (forall i: nat :: i <= |ps| ==> Off(mem, i) == Base(|ps| + 1) + Pos(ps, i))
  }

  lemma AppendReady(m0: Bytes, m2: Bytes, ps: seq<Pair>, v: nat)
    requires |m2| == |m0| && Base(|ps| + 1) <= |m2| && At(m2, Base(|ps|) + 2, Flat(ps))
    requires ps != [] ==> Rep(m0, ps, v) && forall i: nat :: i <= |ps| ==> Off(m2, i) == Off(m0, i) + 2
    requires ps == [] ==> Off(m2, 0) == 4
    ensures Raised(m2, ps) && Off(m2, |ps|) == Total(ps) + 2 && forall i :: 0 <= i < |ps| ==> |ps[i].val| == v
  {
    hide Off, Flat, At, Pos;
    PosStart(ps, 0);
    if ps != [] {
      OffsIn(m0, ps, v);
    }
  }

  lemma AppendDone(m2: Bytes, m3: Bytes, m4: Bytes, ps: seq<Pair>, v: nat, key: Bytes, val: Bytes)
    requires Raised(m2, ps) && |val| == v && Total(ps) + 2 + |key| + v <= |m2| && Total(ps) + 2 + |key| + v < MAX
             && Off(m2, |ps|) == Total(ps) + 2
    requires forall i :: 0 <= i < |ps| ==> |ps[i].val| == v
    requires m3 == SetOff(m2, |ps| + 1, Total(ps) + 2 + |key| + v)
    requires m4 == Put(Put(m3, Total(ps) + 2, key), Total(ps) + 2 + |key|, val)
    ensures Rep(m4, ps + [Pair(key, val)], v)
  {
    hide Off, Flat, At, Pos, Put;
    var n, base := |ps|, Base(|ps| + 1);
    AtKept(m2, m3, 2 * (n + 1), 2 * (n + 1) + 2, base, Flat(ps));
    AtNothing(m3, Total(ps) + 2 + |key| + |val|);
    PutPair(m3, base, Flat(ps), key, val, []);
    PutTwo(m3, Total(ps) + 2, key, val);
    FlatOne(Pair(key, val));
    FlatNone();
    PosStart(ps, n);
    assert ps[..n] == ps && ps[n..] == [] && ps[..n] + [Pair(key, val)] + ps[n..] == ps + [Pair(key, val)];
    forall j: nat | j <= n + 1 ensures Off(m4, j) == base + NewPos(ps, n, n, [Pair(key, val)], j) {
      OffKept(m3, m4, Total(ps) + 2, Total(ps) + 2 + |key + val|, j);
      assert |Flat([Pair(key, val)])| == |key| + v;
      assert j > n ==> NewPos(ps, n, n, [Pair(key, val)], j) == Pos(ps, n) + |key| + v;
      assert j <= n ==> Off(m3, j) == Off(m2, j) && Off(m2, j) == base + Pos(ps, j);
    }
    SpliceRep(m4, ps, n, n, [Pair(key, val)], v);
  }

  /** Moving the pairs behind idx. */
  lemma MoveUp(m0: Bytes, m1: Bytes, ps: seq<Pair>, v: nat, idx: nat, delta: int)
    requires Rep(m0, ps, v) && idx < |ps| && Off(m0, idx) <= Off(m0, idx + 1) + delta && Total(ps) + delta <= |m0|
             && Total(ps) + delta < MAX
    requires 0 <= Off(m0, idx + 1) <= Off(m0, |ps|) == Total(ps)
    requires 0 <= Off(m0, idx)
    requires m1 == if idx + 1 < |ps| then Move(m0, Off(m0, idx + 1) + delta, Off(m0, idx + 1),
                                               Off(m0, |ps|) - Off(m0, idx + 1)) else m0
    ensures |m1| == |m0| && 2 * (|ps| + 1) <= |m1| && At(m1, Base(|ps|), Flat(ps[..idx]))
            && At(m1, Off(m0, idx + 1) + delta, Flat(ps[idx + 1..]))
    ensures forall i: nat :: i <= |ps| ==> Off(m1, i) == Off(m0, i)
    ensures forall i: nat :: idx < i <= |ps| ==> 0 <= Off(m1, i) + delta < MAX
  {
    hide Off, Flat, Pos, At, Move;
    RepFacts(m0, ps, v, idx);
    RepFacts(m0, ps, v, idx + 1);
    OffsIn(m0, ps, v);
    var next, len := Off(m0, idx + 1), Off(m0, |ps|) - Off(m0, idx + 1);
    if idx + 1 < |ps| {
      AtMoved(m0, next + delta, next, len, Flat(ps[idx + 1..]));
      MoveKeeps(m0, next + delta, next, len, Base(|ps|), Flat(ps[..idx]));
      forall i: nat | i <= |ps| ensures Off(m1, i) == Off(m0, i) {
        MoveOffKeeps(m0, next + delta, next, len, i);
      }
    } else {
      assert ps[idx + 1..] == [];
      FlatNone();
      AtNothing(m1, next + delta);
    }
    forall i: nat | idx < i <= |ps| ensures 0 <= Off(m0, i) + delta < MAX {
      PosMono(ps, idx + 1, i);
    }
  }

  lemma AtNothing(mem: Bytes, pos: int)
    requires 0 <= pos <= |mem|
    ensures At(mem, pos, [])
  {
  }

  /** The state before the new pair is written, whether or not anything moved. */
  lemma ReplaceMoved(m0: Bytes, m1: Bytes, m2: Bytes, ps: seq<Pair>, v: nat, idx: nat, delta: int)
    requires Rep(m0, ps, v) && idx < |ps| && |m1| == |m0| == |m2| && 2 * (|ps| + 1) <= |m0|
             && Base(|ps|) <= Off(m0, idx) <= Off(m0, idx + 1) + delta
    requires delta == 0 ==> m2 == m1 == m0
    requires delta != 0 ==> At(m1, Base(|ps|), Flat(ps[..idx])) && At(m1, Off(m0, idx + 1) + delta, Flat(ps[idx + 1..]))
    requires delta != 0 ==> forall pos, bytes :: At(m1, pos, bytes) && 2 * (|ps| + 1) <= pos ==> At(m2, pos, bytes)
    requires forall i: nat :: i <= |ps| ==> Off(m1, i) == Off(m0, i)
    requires delta != 0 ==> forall i: nat :: i <= idx ==> Off(m2, i) == Off(m1, i)
    requires delta != 0 ==> forall i: nat :: idx < i <= |ps| ==> Off(m2, i) == Off(m1, i) + delta
    ensures At(m2, Base(|ps|), Flat(ps[..idx])) && At(m2, Off(m0, idx + 1) + delta, Flat(ps[idx + 1..]))
    ensures forall i: nat :: i <= |ps| ==> Off(m2, i) == Off(m0, i) + if i <= idx then 0 else delta
  {
    hide Off, Flat, Pos, At;
    RepFacts(m0, ps, v, idx);
    RepFacts(m0, ps, v, idx + 1);
  }

  lemma ReplaceDone(m0: Bytes, m2: Bytes, m3: Bytes, ps: seq<Pair>, v: nat, idx: nat, key: Bytes, val: Bytes)
    requires Rep(m0, ps, v) && idx < |ps| && |val| == v && |m2| == |m0| && Total(ps) - |ps[idx].key| + |key| < MAX
             && 0 <= Off(m0, idx)
    requires var delta := |key| - |ps[idx].key|;
             && At(m2, Base(|ps|), Flat(ps[..idx])) && At(m2, Off(m0, idx) + |key| + v, Flat(ps[idx + 1..]))
             && (forall i: nat :: i <= |ps| ==> 2 * i + 2 <= |m2| && Off(m2, i) == Off(m0, i) + if i <= idx then 0
                 else delta)
    requires Off(m0, idx) + |key| + |val| <= |m2| && m3 == Put(Put(m2, Off(m0, idx), key), Off(m0, idx) + |key|, val)
    ensures Rep(m3, ps[..idx] + [Pair(key, val)] + ps[idx + 1..], v)
  {
    hide Off, Flat, Pos, At, Put;
    RepFacts(m0, ps, v, idx);
    RepFacts(m0, ps, v, idx + 1);
    PairLen(m0, ps, v, idx);
    OffsIn(m0, ps, v);
    PutPair(m2, Base(|ps|), Flat(ps[..idx]), key, val, Flat(ps[idx + 1..]));
    FlatOne(Pair(key, val));
    PutTwo(m2, Off(m0, idx), key, val);
    forall j: nat | j <= |ps| ensures Off(m3, j) == Base(|ps|) + NewPos(ps, idx, idx + 1, [Pair(key, val)], j) {
      OffKept(m2, m3, Off(m0, idx), Off(m0, idx) + |key + val|, j);
      assert Off(m0, j) == Base(|ps|) + Pos(ps, j);
      assert |Flat([Pair(key, val)])| == |key| + v;
      assert j > idx ==>
            NewPos(ps, idx, idx + 1, [Pair(key, val)], j) == Pos(ps, j) - Pos(ps, idx + 1) + Pos(ps, idx) + |key| + v;
      assert Off(m2, j) == Off(m0, j) + if j <= idx then 0 else |key| - |ps[idx].key|;
    }
    SpliceRep(m3, ps, idx, idx + 1, [Pair(key, val)], v);
  }

  lemma PairLen(mem: Bytes, ps: seq<Pair>, v: nat, idx: nat)
    requires Rep(mem, ps, v) && idx < |ps|
    ensures Off(mem, idx + 1) == Off(mem, idx) + |ps[idx].key| + v
            && Pos(ps, idx + 1) == Pos(ps, idx) + |ps[idx].key| + v
  {
    hide Off, Flat;
    FlatAround(ps, idx);
  }

  /** The memory after the moves of a removal. */
  ghost predicate RemoveMem(m0: Bytes, m1: Bytes, n: nat, begin: nat, at: nat, next: nat, end: nat, idx: nat) {
    && idx < n && begin == 2 * n + 2 && begin <= at <= next <= end <= |m0|
    && m1 == Move(Move(Move(m0, 2 * idx, 2 * (idx + 1), 2 * (n - idx)), begin - 2, begin, at - begin), at - 2, next,
                  end - next)
  }

  lemma RemoveMemData(m0: Bytes, m1: Bytes, n: nat, begin: nat, at: nat, next: nat, end: nat, idx: nat, left: Bytes,
                      right: Bytes)
    requires RemoveMem(m0, m1, n, begin, at, next, end, idx) && At(m0, begin, left) && At(m0, next, right)
             && |left| == at - begin && |right| == end - next
    ensures At(m1, begin - 2, left + right)
  {
    hide At, Move;
    var a := Move(m0, 2 * idx, 2 * (idx + 1), 2 * (n - idx));
    MoveKeeps(m0, 2 * idx, 2 * (idx + 1), 2 * (n - idx), begin, left);
    MoveKeeps(m0, 2 * idx, 2 * (idx + 1), 2 * (n - idx), next, right);
    var b := Move(a, begin - 2, begin, at - begin);
    AtMoved(a, begin - 2, begin, at - begin, left);
    MoveKeeps(a, begin - 2, begin, at - begin, next, right);
    AtMoved(b, at - 2, next, end - next, right);
    MoveKeeps(b, at - 2, next, end - next, begin - 2, left);
    AtJoin(m1, begin - 2, left, right);
  }

  lemma RemoveMemOffs(m0: Bytes, m1: Bytes, n: nat, begin: nat, at: nat, next: nat, end: nat, idx: nat, i: nat)
    requires RemoveMem(m0, m1, n, begin, at, next, end, idx) && i < n
    ensures |m1| == |m0| && 2 * i + 4 <= |m0| && Off(m1, i) == if i < idx then Off(m0, i) else Off(m0, i + 1)
  {
    var a := Move(m0, 2 * idx, 2 * (idx + 1), 2 * (n - idx));
    var b := Move(a, begin - 2, begin, at - begin);
    assert forall p :: 0 <= p < begin - 2 ==> m1[p] == b[p] == a[p];
  }

  lemma RemoveRange(m0: Bytes, m1: Bytes, ps: seq<Pair>, v: nat, idx: nat)
    requires Rep(m0, ps, v) && idx < |ps|
    requires RemoveMem(m0, m1, |ps|, Off(m0, 0), Off(m0, idx), Off(m0, idx + 1), Off(m0, |ps|), idx)
    ensures |m1| == |m0| && 2 * |ps| + 2 <= |m1|
    ensures forall i: nat {:trigger Off(m1, i)} :: i < |ps| ==> Off(m1, i) == if i < idx then Off(m0, i)
            else Off(m0, i + 1)
    ensures forall i: nat :: i < idx ==> 2 <= Off(m1, i) < MAX
    ensures forall i: nat :: idx <= i < |ps| ==> 2 + |ps[idx].key| + v <= Off(m1, i) < MAX
  {
    hide Off, RemoveMem, Flat, Pos;
    OffsIn(m0, ps, v);
    var begin, at, next, end := Off(m0, 0), Off(m0, idx), Off(m0, idx + 1), Off(m0, |ps|);
    RemoveMemOffs(m0, m1, |ps|, begin, at, next, end, idx, 0);
    forall i: nat {:trigger Off(m1, i)} | i < |ps|
      ensures Off(m1, i) == if i < idx then Off(m0, i) else Off(m0, i + 1)
      ensures i < idx ==> 2 <= Off(m1, i) < MAX
      ensures idx <= i ==> 2 + |ps[idx].key| + v <= Off(m1, i) < MAX
    {
      RemoveMemOffs(m0, m1, |ps|, begin, at, next, end, idx, i);
      assert Base(|ps|) <= Off(m0, if i < idx then i else i + 1) <= Total(ps);
      if idx <= i {
        PosMono(ps, idx + 1, i + 1);
        PairLen(m0, ps, v, idx);
      }
    }
  }

  lemma PosMono(ps: seq<Pair>, i: nat, j: nat)
    requires i <= j <= |ps|
    ensures Pos(ps, i) <= Pos(ps, j)
  {
    assert ps[..j] == ps[..i] + ps[i..j];
    FlatConcat(ps[..i], ps[i..j]);
  }

  lemma RemoveDone(m0: Bytes, m1: Bytes, m2: Bytes, ps: seq<Pair>, v: nat, idx: nat)
    requires Rep(m0, ps, v) && idx < |ps| && |m1| == |m0| == |m2| && 2 * |ps| + 2 <= |m0|
    requires RemoveMem(m0, m1, |ps|, Off(m0, 0), Off(m0, idx), Off(m0, idx + 1), Off(m0, |ps|), idx)
    requires forall i: nat :: i < idx ==> Off(m2, i) == Off(m1, i) - 2
    requires forall i: nat :: idx <= i < |ps| ==> Off(m2, i) == Off(m1, i) - (2 + |ps[idx].key| + v)
    requires forall i: nat {:trigger Off(m1, i)} :: i < |ps| ==> Off(m1, i) == if i < idx then Off(m0, i)
             else Off(m0, i + 1)
    requires forall pos, bytes :: At(m1, pos, bytes) && 2 * |ps| <= pos ==> At(m2, pos, bytes)
    ensures Rep(m2, ps[..idx] + ps[idx + 1..], v)
  {
    hide Off, RemoveMem, Flat, Pos, At;
    RepFacts(m0, ps, v, idx);
    RepFacts(m0, ps, v, idx + 1);
    PairLen(m0, ps, v, idx);
    OffsIn(m0, ps, v);
    var left, right := Flat(ps[..idx]), Flat(ps[idx + 1..]);
    RemoveMemData(m0, m1, |ps|, Off(m0, 0), Off(m0, idx), Off(m0, idx + 1), Off(m0, |ps|), idx, left, right);
    FlatNone();
    assert left + [] + right == left + right && ps[..idx] + [] + ps[idx + 1..] == ps[..idx] + ps[idx + 1..];
    forall j: nat | j <= |ps| - 1 ensures Off(m2, j) == Base(|ps| - 1) + NewPos(ps, idx, idx + 1, [], j) {
      assert Off(m2, j) == Off(m1, j) - if j < idx then 2 else 2 + |ps[idx].key| + v;
      assert Off(m0, if j < idx then j else j + 1) == Base(|ps|) + Pos(ps, if j < idx then j else j + 1);
      assert j <= idx ==> NewPos(ps, idx, idx + 1, [], j) == Pos(ps, j);
      assert j > idx ==> NewPos(ps, idx, idx + 1, [], j) == Pos(ps, j + 1) - Pos(ps, idx + 1) + Pos(ps, idx);
      assert Off(m1, j) == if j < idx then Off(m0, j) else Off(m0, j + 1);
    }
    SpliceRep(m2, ps, idx, idx + 1, [], v);
  }

  lemma RepFacts(mem: Bytes, ps: seq<Pair>, v: nat, idx: nat)
    requires Rep(mem, ps, v) && idx <= |ps|
    ensures Base(|ps|) <= Total(ps) <= |mem| && Base(|ps|) == 2 * |ps| + 2
    ensures Off(mem, 0) == Base(|ps|) && Off(mem, idx) == Base(|ps|) + Pos(ps, idx) && Off(mem, |ps|) == Total(ps)
    ensures Flat(ps) == Flat(ps[..idx]) + Flat(ps[idx..]) && Pos(ps, idx) == |Flat(ps[..idx])|
    ensures At(mem, Base(|ps|), Flat(ps[..idx])) && At(mem, Off(mem, idx), Flat(ps[idx..]))
    ensures Base(|ps|) <= Off(mem, idx) <= Total(ps) && Total(ps) - Off(mem, idx) == |Flat(ps[idx..])|
  {
    hide Off, At;
    FlatSplit(ps, idx);
    assert ps[..0] == [] && ps[..|ps|] == ps;
    AtJoin(mem, Base(|ps|), Flat(ps[..idx]), Flat(ps[idx..]));
  }

  /** The bytes of one pair. */
  lemma PairAt(mem: Bytes, ps: seq<Pair>, v: nat, idx: nat)
    requires Rep(mem, ps, v) && idx < |ps|
    ensures Off(mem, idx + 1) == Off(mem, idx) + |ps[idx].key| + v && 0 <= Off(mem, idx) && Off(mem, idx + 1) <= |mem|
    ensures mem[Off(mem, idx)..Off(mem, idx) + |ps[idx].key|] == ps[idx].key
    ensures mem[Off(mem, idx) + |ps[idx].key|..Off(mem, idx + 1)] == ps[idx].val
  {
    hide Off, Flat;
    RepFacts(mem, ps, v, idx);
    RepFacts(mem, ps, v, idx + 1);
    FlatAround(ps, idx);
    var at := Off(mem, idx);
    FlatAround(ps[idx..], 0);
    assert ps[idx..][..0] == [] && ps[idx..][0] == ps[idx] && ps[idx..][1..] == ps[idx + 1..];
    FlatNone();
    assert Flat(ps[idx..]) == ps[idx].key + (ps[idx].val + Flat(ps[idx + 1..]));
    AtJoin(mem, at, ps[idx].key, ps[idx].val + Flat(ps[idx + 1..]));
    AtJoin(mem, at + |ps[idx].key|, ps[idx].val, Flat(ps[idx + 1..]));
  }

  lemma FlatNone()
    ensures Flat([]) == []
  {
  }

  /** Offsets and bytes outside a shifted range stay. */
  lemma OffsAway(mem: Bytes, mem': Bytes, lo: nat, hi: nat)
    requires |mem'| == |mem| && (forall p :: 0 <= p < |mem| && !(2 * lo <= p < 2 * hi) ==> mem'[p] == mem[p])
    ensures forall i: nat :: 2 * i + 2 <= |mem| && (i < lo || i >= hi) ==> Off(mem', i) == Off(mem, i)
    ensures forall pos, bytes :: At(mem, pos, bytes) && 2 * hi <= pos ==> At(mem', pos, bytes)
  {
    forall i: nat | 2 * i + 2 <= |mem| && (i < lo || i >= hi) ensures Off(mem', i) == Off(mem, i) {
      OffKept(mem, mem', 2 * lo, 2 * hi, i);
    }
    forall pos, bytes | At(mem, pos, bytes) && 2 * hi <= pos ensures At(mem', pos, bytes) {
      AtKept(mem, mem', 2 * lo, 2 * hi, pos, bytes);
    }
  }

  /** The memory after the moves of an insertion. */
  ghost predicate InsertMem(m0: Bytes, m1: Bytes, n: nat, begin: nat, at: nat, end: nat, idx: nat, key: Bytes,
                            val: Bytes) {
    var gap := |key| + |val|;
    && idx < n && begin == 2 * n + 2 && begin <= at <= end && end + gap + 2 <= |m0|
    && m1 == Put(Put(Move(Move(Move(m0, at + gap + 2, at, end - at), begin + 2, begin, at - begin), 2 * (idx + 1),
                          2 * idx, 2 * (n - idx + 1)), at + 2, key), at + 2 + |key|, val)
  }

  lemma InsertMemData(m0: Bytes, m1: Bytes, n: nat, begin: nat, at: nat, end: nat, idx: nat, key: Bytes, val: Bytes,
                      left: Bytes, right: Bytes)
    requires InsertMem(m0, m1, n, begin, at, end, idx, key, val) && At(m0, begin, left) && At(m0, at, right)
             && |left| == at - begin && |right| == end - at
    ensures At(m1, begin + 2, left + (key + val) + right)
  {
    hide At, Move, Put;
    var gap := |key| + |val|;
    var a := Move(m0, at + gap + 2, at, end - at);
    AtMoved(m0, at + gap + 2, at, end - at, right);
    MoveKeeps(m0, at + gap + 2, at, end - at, begin, left);
    var b := Move(a, begin + 2, begin, at - begin);
    AtMoved(a, begin + 2, begin, at - begin, left);
    MoveKeeps(a, begin + 2, begin, at - begin, at + gap + 2, right);
    var c := Move(b, 2 * (idx + 1), 2 * idx, 2 * (n - idx + 1));
    MoveKeeps(b, 2 * (idx + 1), 2 * idx, 2 * (n - idx + 1), begin + 2, left);
    MoveKeeps(b, 2 * (idx + 1), 2 * idx, 2 * (n - idx + 1), at + gap + 2, right);
    PutPair(c, begin + 2, left, key, val, right);
  }

  /** A pair put between two parts. */
  lemma PutPair(mem: Bytes, pos: nat, left: Bytes, key: Bytes, val: Bytes, right: Bytes)
    requires At(mem, pos, left) && At(mem, pos + |left| + |key| + |val|, right)
    ensures At(Put(Put(mem, pos + |left|, key), pos + |left| + |key|, val), pos, left + (key + val) + right)
  {
    hide Put;
    AtBounds(mem, pos + |left| + |key| + |val|, right);
    hide At;
    PutTwo(mem, pos + |left|, key, val);
    PutBetween(mem, pos, left, key + val, right);
  }

  lemma PutTwo(mem: Bytes, pos: nat, a: Bytes, b: Bytes)
    requires pos + |a| + |b| <= |mem|
    ensures Put(Put(mem, pos, a), pos + |a|, b) == Put(mem, pos, a + b)
  {
  }

  lemma PutBetween(mem: Bytes, pos: nat, left: Bytes, mid: Bytes, right: Bytes)
    requires pos + |left| + |mid| <= |mem| && At(mem, pos, left) && At(mem, pos + |left| + |mid|, right)
    ensures At(Put(mem, pos + |left|, mid), pos, left + mid + right)
  {
    hide Put, At;
    var at := pos + |left|;
    var a := Put(mem, at, mid);
    AtPut(mem, at, mid);
    PutKeeps(mem, at, mid, pos, left);
    PutKeeps(mem, at, mid, at + |mid|, right);
    AtJoin(a, pos, left, mid);
    AtJoin(a, pos, left + mid, right);
  }

  lemma AtBounds(mem: Bytes, pos: int, bytes: Bytes)
    requires At(mem, pos, bytes)
    ensures 0 <= pos && pos + |bytes| <= |mem|
  {
  }

  lemma InsertMemOffs(m0: Bytes, m1: Bytes, n: nat, begin: nat, at: nat, end: nat, idx: nat, key: Bytes, val: Bytes,
                      i: nat)
    requires InsertMem(m0, m1, n, begin, at, end, idx, key, val) && i <= n + 1
    ensures |m1| == |m0| && 2 * i + 2 <= |m0| && Off(m1, i) == if i <= idx then Off(m0, i) else Off(m0, i - 1)
  {
    hide Off;
    var gap := |key| + |val|;
    var a := Move(m0, at + gap + 2, at, end - at);
    var b := Move(a, begin + 2, begin, at - begin);
    var c := Move(b, 2 * (idx + 1), 2 * idx, 2 * (n - idx + 1));
    var d := Put(c, at + 2, key);
    var k := if i <= idx then i else i - 1;
    MoveOffKeeps(m0, at + gap + 2, at, end - at, k);
    MoveOffKeeps(a, begin + 2, begin, at - begin, k);
    OffMovedUp(b, idx, n, i);
    PutOffKeeps(c, at + 2, key, i);
    PutOffKeeps(d, at + 2 + |key|, val, i);
  }

  /** Moving the offsets from idx on up by one. */
  lemma OffMovedUp(mem: Bytes, idx: nat, n: nat, i: nat)
    requires idx <= n && 2 * (n + 2) <= |mem| && i <= n + 1
    ensures Off(Move(mem, 2 * (idx + 1), 2 * idx, 2 * (n - idx + 1)), i) == Off(mem, if i <= idx then i else i - 1)
  {
  }

  lemma OffsIn(mem: Bytes, ps: seq<Pair>, v: nat)
    requires Rep(mem, ps, v)
    ensures forall i: nat :: i <= |ps| ==>
              2 * i + 2 <= |mem| && Off(mem, i) == Base(|ps|) + Pos(ps, i) && Base(|ps|) <= Off(mem, i) <= Total(ps)
  {
    hide Off, Flat;
    forall i: nat | i <= |ps| ensures 2 * i + 2 <= |mem| && Off(mem, i) == Base(|ps|) + Pos(ps, i)
        && Base(|ps|) <= Off(mem, i) <= Total(ps) {
      FlatSplit(ps, i);
    }
  }

  lemma PosStart(ps: seq<Pair>, i: nat)
    requires i <= |ps|
    ensures Pos(ps, i) == |Flat(ps[..i])| && Pos(ps, 0) == 0 && Pos(ps, |ps|) == |Flat(ps)|
  {
    assert ps[..0] == [] && ps[..|ps|] == ps;
  }

  /** The offset of the j-th pair after ps[i..k] was replaced by mid. */
  ghost function NewPos(ps: seq<Pair>, i: nat, k: nat, mid: seq<Pair>, j: nat): int
    requires i <= k <= |ps| && j <= i + |mid| + (|ps| - k) && |mid| <= 1
  {
    if j <= i then Pos(ps, j) else Pos(ps, j - |mid| - i + k) - Pos(ps, k) + Pos(ps, i) + |Flat(mid)|
  }

  /** Splicing the bytes and moving the offsets gives the spliced list. */
  lemma SpliceRep(mem: Bytes, ps: seq<Pair>, i: nat, k: nat, mid: seq<Pair>, v: nat)
    requires i <= k <= |ps| && |mid| <= 1
    requires (forall j :: 0 <= j < |ps| ==> |ps[j].val| == v) && (mid != [] ==> |mid[0].val| == v)
    requires var n := i + |mid| + (|ps| - k);
             && At(mem, Base(n), Flat(ps[..i]) + Flat(mid) + Flat(ps[k..]))
             && Base(n) + |Flat(ps[..i])| + |Flat(mid)| + |Flat(ps[k..])| < MAX
             && Base(n) <= |mem|
             && (forall j: nat :: j <= n ==> Off(mem, j) == Base(n) + NewPos(ps, i, k, mid, j))
    ensures Rep(mem, ps[..i] + mid + ps[k..], v)
  {
    hide Off, Flat, Pos, At;
    var qs := ps[..i] + mid + ps[k..];
    FlatConcat(ps[..i] + mid, ps[k..]);
    FlatConcat(ps[..i], mid);
    forall j: nat | j <= |qs| ensures Off(mem, j) == Base(|qs|) + Pos(qs, j) {
      PosSplice(ps, i, k, mid, j);
    }
    AtBounds(mem, Base(|qs|), Flat(qs));
    SpliceVals(ps, i, k, mid, v);
  }

  lemma SpliceVals(ps: seq<Pair>, i: nat, k: nat, mid: seq<Pair>, v: nat)
    requires i <= k <= |ps| && (forall j :: 0 <= j < |ps| ==> |ps[j].val| == v)
             && (forall j :: 0 <= j < |mid| ==> |mid[j].val| == v)
    ensures forall j :: 0 <= j < |ps[..i] + mid + ps[k..]| ==> |(ps[..i] + mid + ps[k..])[j].val| == v
  {
  }

  /** The offsets before they are moved. */
  lemma InsertRange(m0: Bytes, m1: Bytes, ps: seq<Pair>, v: nat, idx: nat, key: Bytes, val: Bytes)
    requires Rep(m0, ps, v) && idx < |ps| && |val| == v && Total(ps) + 2 + |key| + v < MAX
    requires InsertMem(m0, m1, |ps|, Off(m0, 0), Off(m0, idx), Off(m0, |ps|), idx, key, val)
    ensures |m1| == |m0| && 2 * (|ps| + 2) <= |m1|
    ensures forall i: nat {:trigger Off(m1, i)} :: i <= |ps| + 1 ==> Off(m1, i) == if i <= idx then Off(m0, i)
            else Off(m0, i - 1)
    ensures forall i: nat :: i <= |ps| + 1 ==> 0 <= Off(m1, i) && Off(m1, i) + 2 + |key| + v < MAX
  {
    hide Off, InsertMem;
    OffsIn(m0, ps, v);
    hide Rep;
    var begin, at, end := Off(m0, 0), Off(m0, idx), Off(m0, |ps|);
    InsertMemOffs(m0, m1, |ps|, begin, at, end, idx, key, val, |ps| + 1);
    forall i: nat {:trigger Off(m1, i)} | i <= |ps| + 1
      ensures Off(m1, i) == if i <= idx then Off(m0, i) else Off(m0, i - 1)
      ensures 0 <= Off(m1, i) && Off(m1, i) + 2 + |key| + v < MAX
    {
      InsertMemOffs(m0, m1, |ps|, begin, at, end, idx, key, val, i);
      assert Off(m0, if i <= idx then i else i - 1) <= Total(ps);
    }
  }

  lemma InsertDone(m0: Bytes, m1: Bytes, m2: Bytes, ps: seq<Pair>, v: nat, idx: nat, key: Bytes, val: Bytes)
    requires Rep(m0, ps, v) && idx < |ps| && |val| == v && Total(ps) + 2 + |key| + v < MAX && |m1| == |m0| == |m2|
             && 2 * (|ps| + 2) <= |m0|
    requires InsertMem(m0, m1, |ps|, Off(m0, 0), Off(m0, idx), Off(m0, |ps|), idx, key, val)
    requires forall i: nat :: i <= idx ==> Off(m2, i) == Off(m1, i) + 2
    requires forall i: nat :: idx < i <= |ps| + 1 ==> Off(m2, i) == Off(m1, i) + (2 + |key| + v)
    requires forall i: nat {:trigger Off(m1, i)} :: i <= |ps| + 1 ==> Off(m1, i) == if i <= idx then Off(m0, i)
             else Off(m0, i - 1)
    requires forall pos, bytes :: At(m1, pos, bytes) && 2 * (|ps| + 2) <= pos ==> At(m2, pos, bytes)
    ensures Rep(m2, ps[..idx] + [Pair(key, val)] + ps[idx..], v)
  {
    hide Off, InsertMem, Flat, Pos, At;
    RepFacts(m0, ps, v, idx);
    OffsIn(m0, ps, v);
    InsertMemData(m0, m1, |ps|, Off(m0, 0), Off(m0, idx), Off(m0, |ps|), idx, key, val, Flat(ps[..idx]),
                  Flat(ps[idx..]));
    FlatOne(Pair(key, val));
    forall j: nat | j <= |ps| + 1 ensures Off(m2, j) == Base(|ps| + 1) + NewPos(ps, idx, idx, [Pair(key, val)], j) {
      assert Off(m2, j) == Off(m1, j) + if j <= idx then 2 else 2 + |key| + v;
      assert Off(m0, if j <= idx then j else j - 1) == Base(|ps|) + Pos(ps, if j <= idx then j else j - 1);
      assert |Flat([Pair(key, val)])| == |key| + v;
      assert j <= idx ==> NewPos(ps, idx, idx, [Pair(key, val)], j) == Pos(ps, j);
      assert j > idx ==> NewPos(ps, idx, idx, [Pair(key, val)], j) == Pos(ps, j - 1) + |key| + v;
      assert Off(m1, j) == if j <= idx then Off(m0, j) else Off(m0, j - 1);
    }
    SpliceRep(m2, ps, idx, idx, [Pair(key, val)], v);
  }
}
