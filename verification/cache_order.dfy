/** Which dirty blocks of a file a flush of the block cache takes, and in which order
    (src/blockcache.cc). */
module CacheOrder {
  import opened CacheState

  ghost predicate Rising(ks: seq<Key>) {
    forall i, j :: 0 <= i < j < |ks| ==> ks[i].bid < ks[j].bid
  }

  ghost predicate NoneOf(ks: set<Key>, f: int) {
    forall k :: k in ks ==> k.file != f
  }

  /** out lists the blocks of file f among ks in ascending order. */
  ghost predicate Lists(out: seq<Key>, ks: set<Key>, f: int) {
    Rising(out) && forall k :: k in out <==> k in ks && k.file == f
  }

  ghost predicate Running(out: seq<Key>, f: int) {
    forall i :: 0 <= i < |out| ==> out[i] == Key(f, out[0].bid + i)
  }

  /** out is the run of consecutive blocks from the first block of file f among ks on, up to
      a gap or a full batch, whichever comes first. */
  ghost predicate FirstRun(out: seq<Key>, ks: set<Key>, f: int, size: nat, unit: nat) {
    && (out == [] <==> NoneOf(ks, f))
    && Running(out, f)
    && (forall k :: k in out ==> k in ks)
    && (out != [] ==>
          && (forall k :: k in ks && k.file == f ==> out[0].bid <= k.bid)
          && (|out| > 1 ==> (|out| - 1) * size < unit)
          && (|out| * size >= unit || Key(f, out[0].bid + |out|) !in ks))
  }

  /** What a flush of file f writes, data blocks a before index blocks b: everything, or one
      batch, of index blocks only if there are no data blocks. */
  ghost predicate FlushOrder(s: State, f: int, all: bool, size: nat, unit: nat, a: seq<Key>, b: seq<Key>) {
    if all then Lists(a, s.data, f) && Lists(b, s.index, f)
    else FirstRun(a, s.data, f, size, unit) && if a == [] then FirstRun(b, s.index, f, size, unit) else b == []
  }

  /** out was taken from the blocks of file f among ks, least first, and left is left. */
  ghost predicate Swept(out: seq<Key>, ks: set<Key>, left: set<Key>, f: int) {
    && Rising(out)
    && left <= ks
    && (forall k :: k in out ==> k in ks && k.file == f && k !in left)
    && (forall k :: k in ks ==> k in out || k in left)
    && (forall i, k :: 0 <= i < |out| && k in left && k.file == f ==> out[i].bid < k.bid)
  }

  lemma SweptStart(ks: set<Key>, f: int)
    ensures Swept([], ks, ks, f)
  {
  }

  lemma SweptStep(out: seq<Key>, ks: set<Key>, left: set<Key>, f: int, b: int)
    requires Swept(out, ks, left, f) && Key(f, b) in left && forall k :: k in left && k.file == f ==> b <= k.bid
    ensures Swept(out + [Key(f, b)], ks, left - {Key(f, b)}, f)
  {
    var out' := out + [Key(f, b)];
    forall k | k in out' ensures k in out || k == Key(f, b) {}
    assert Key(f, b) == out'[|out|];
    forall k | k in ks ensures k in out' || k in left - {Key(f, b)} {
      if k in out { assert k in out'; }
    }
    forall k | k in left - {Key(f, b)} && k.file == f ensures b < k.bid {
      assert k.bid == b ==> k == Key(f, b);
    }
  }

  /** A block of neither tree's file part leaves the sweep of the other tree as it is. */
  lemma SweptOther(out: seq<Key>, ks: set<Key>, left: set<Key>, f: int, k: Key)
    requires Swept(out, ks, left, f) && k !in left
    ensures Swept(out, ks, left - {k}, f)
  {
    assert left - {k} == left;
  }

  lemma SweptEnd(out: seq<Key>, ks: set<Key>, left: set<Key>, f: int)
    requires Swept(out, ks, left, f) && NoneOf(left, f)
    ensures Lists(out, ks, f)
  {
  }

  lemma SweptNone(out: seq<Key>, ks: set<Key>, left: set<Key>, f: int, size: nat, unit: nat)
    requires Swept(out, ks, left, f) && NoneOf(left, f) && out == []
    ensures FirstRun(out, ks, f, size, unit)
  {
  }

  /** A sweep that stops after a full batch or before a gap took the first run. */
  lemma RunEnd(out: seq<Key>, ks: set<Key>, left: set<Key>, f: int, size: nat, unit: nat)
    requires Swept(out, ks, left, f) && Running(out, f) && out != [] && (|out| > 1 ==> (|out| - 1) * size < unit)
    requires |out| * size >= unit || Key(f, out[0].bid + |out|) !in left
    ensures FirstRun(out, ks, f, size, unit)
  {
    assert out[0] in out;
    forall k | k in ks && k.file == f ensures out[0].bid <= k.bid {
      if k in out {
        var i :| 0 <= i < |out| && out[i] == k;
      }
    }
  }

  lemma RunStep(out: seq<Key>, f: int, b: int)
    requires Running(out, f) && (out != [] ==> b == out[|out| - 1].bid + 1)
    ensures Running(out + [Key(f, b)], f)
  {
  }

  lemma RunNext(out: seq<Key>, f: int, left: set<Key>, b: int)
    requires Running(out, f) && out != [] && b != out[|out| - 1].bid + 1
    requires forall k :: k in left && k.file == f ==> b <= k.bid && out[|out| - 1].bid < k.bid
    requires Key(f, b) in left
    ensures Key(f, out[0].bid + |out|) !in left
  {
    assert out[|out| - 1] == Key(f, out[0].bid + (|out| - 1));
  }
}
