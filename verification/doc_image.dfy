/** Which bytes of a document reach its blocks (src/docio.cc).  The position in the buffer from
    which a block is filled is a 32-bit word. */
module DocImage {
  import opened Arith
  import opened DocLayout

  /** The byte of the buffer that becomes byte i of a document stored at position pos of its
      first block: the part of a later block starts at its own offset modulo 2^32. */
  function Src(i: nat, pos: nat, bs: nat): (k: nat)
    requires bs > 0 && pos <= bs
    ensures k <= i
  {
    if pos + i < bs then i else
      var r := (pos + i) % bs;
      PartStart(i, pos, bs);
      U32Low(i - r);
      U32(i - r) + r
  }

  lemma PartStart(i: nat, pos: nat, bs: nat)
    requires bs > 0 && pos <= bs <= pos + i
    ensures (pos + i) % bs <= i
  {
    var x := pos + i;
    DivFacts(x, bs);
    if x / bs < 1 { MulMono(x / bs, 0, bs); }
    MulMono(1, x / bs, bs);
  }

  lemma U32Low(n: nat)
    ensures U32(n) <= n && (n < TWO32 ==> U32(n) == n)
  {
    DivFacts(n, TWO32);
  }

  /** What an append stores for the bytes it is given. */
  function Image(bytes: seq<int>, pos: nat, bs: nat): (r: seq<int>)
    requires bs > 0 && pos <= bs
    ensures |r| == |bytes|
  {
    seq(|bytes|, i requires 0 <= i < |bytes| => bytes[Src(i, pos, bs)])
  }

  /** Every part that starts at or behind byte 2^32 repeats the bytes at its start modulo
      2^32. */
  predicate Repeats(bytes: seq<int>, pos: nat, bs: nat)
    requires bs > 0 && pos <= bs
  {
    forall i: nat :: i < |bytes| && pos + i >= bs && i - (pos + i) % bs >= TWO32 ==>
      bytes[i] == bytes[Src(i, pos, bs)]
  }

  /** A document is stored as it is if and only if those parts repeat. */
  lemma ImageExact(bytes: seq<int>, pos: nat, bs: nat)
    requires bs > 0 && pos <= bs
    ensures Image(bytes, pos, bs) == bytes <==> Repeats(bytes, pos, bs)
  {
    hide U32;
    var image := Image(bytes, pos, bs);
    if Repeats(bytes, pos, bs) {
      forall i | 0 <= i < |bytes| ensures image[i] == bytes[i] {
        SrcNear(i, pos, bs);
      }
    }
    if image == bytes {
      forall i: nat | i < |bytes| ensures bytes[i] == bytes[Src(i, pos, bs)] {
        assert image[i] == bytes[Src(i, pos, bs)];
      }
    }
  }

  lemma SrcNear(i: nat, pos: nat, bs: nat)
    requires bs > 0 && pos <= bs
    ensures pos + i < bs || i - (pos + i) % bs < TWO32 ==> Src(i, pos, bs) == i
  {
    if pos + i >= bs {
      PartStart(i, pos, bs);
      U32Low(i - (pos + i) % bs);
    }
  }

  /** Documents of up to 2^32 bytes are stored as they are. */
  lemma ImageSmall(bytes: seq<int>, pos: nat, bs: nat)
    requires bs > 0 && pos <= bs && |bytes| <= TWO32
    ensures Repeats(bytes, pos, bs) && Image(bytes, pos, bs) == bytes
  {
    forall i: nat | i < |bytes| ensures Src(i, pos, bs) == i {
      DivFacts(pos + i, bs);
      SrcNear(i, pos, bs);
    }
    assert Image(bytes, pos, bs) == bytes;
    ImageExact(bytes, pos, bs);
  }

  /** A longer one need not be. */
  lemma WideLoses(n: nat, pos: nat, bs: nat)
    requires 0 < bs < TWO32 && pos <= bs && n >= TWO32 + bs
    ensures var bytes := seq(n, i => if i < TWO32 then 0 else 1); Image(bytes, pos, bs) != bytes
  {
    hide U32;
    var bytes := seq(n, i => if i < TWO32 then 0 else 1);
    var x := pos + TWO32;
    DivFacts(x, bs);
    var i: nat := if x % bs == 0 then TWO32 else TWO32 + bs - x % bs;
    Boundary(x, bs);
    assert (pos + i) % bs == 0;
    U32Of(i);
    assert Src(i, pos, bs) == i - TWO32;
    assert !Repeats(bytes, pos, bs) by {
      assert i < |bytes| && bytes[i] == 1 && bytes[Src(i, pos, bs)] == 0;
    }
    ImageExact(bytes, pos, bs);
  }

  lemma Boundary(x: nat, bs: nat)
    requires bs > 0
    ensures x % bs != 0 ==> (x + bs - x % bs) % bs == 0
  {
    DivFacts(x, bs);
    Distribute(x / bs, bs);
    ModUnique(x + bs - x % bs, x / bs + 1, 0, bs);
  }

  lemma U32Of(i: nat)
    requires TWO32 <= i < 2 * TWO32
    ensures U32(i) == i - TWO32
  {
    ModUnique(i, 1, i - TWO32, TWO32);
  }

  // ----- part by part -----

  /** The j-th listed part of image is the part of bytes at its start modulo 2^32. */
  ghost predicate PartOf(bytes: seq<int>, image: seq<int>, s: nat, bs: nat, j: nat) {
    |image| == |bytes| &&
    (Off(s, bs, j) <= |bytes| ==>
       var o, k := Off(s, bs, j), PartLen(s, bs, j, |bytes|);
       U32(o) + k <= |bytes| && image[o..o + k] == bytes[U32(o)..U32(o) + k])
  }

  lemma ImagePart(bytes: seq<int>, pos: nat, bs: nat, s: nat, j: nat)
    requires bs > 0 && pos < bs && (s == bs - pos || (s == 0 && pos == 0))
    ensures PartOf(bytes, Image(bytes, pos, bs), s, bs, j)
  {
    hide U32, Off, Image;
    var image, o := Image(bytes, pos, bs), Off(s, bs, j);
    if o <= |bytes| {
      var k := PartLen(s, bs, j, |bytes|);
      U32Low(o);
      var a, b := image[o..o + k], bytes[U32(o)..U32(o) + k];
      forall t: nat | t < k ensures a[t] == b[t] {
        ImageAt(bytes, pos, bs, s, j, t);
      }
    }
  }

  lemma ImageAt(bytes: seq<int>, pos: nat, bs: nat, s: nat, j: nat, t: nat)
    requires bs > 0 && pos < bs && (s == bs - pos || (s == 0 && pos == 0)) && t < bs && Off(s, bs, j) + t < |bytes|
    ensures U32(Off(s, bs, j)) + t < |bytes|
    ensures Image(bytes, pos, bs)[Off(s, bs, j) + t] == bytes[U32(Off(s, bs, j)) + t]
  {
    hide U32, Off, Src;
    U32Low(Off(s, bs, j));
    SrcPart(pos, bs, s, j, t);
  }

  lemma SrcPart(pos: nat, bs: nat, s: nat, j: nat, t: nat)
    requires bs > 0 && pos < bs && (s == bs - pos || (s == 0 && pos == 0)) && t < bs
    ensures Src(Off(s, bs, j) + t, pos, bs) == U32(Off(s, bs, j)) + t
  {
    var i := Off(s, bs, j) + t;
    if s == 0 {
      ModUnique(pos + i, j, t, bs);
      U32Low(0);
      if j > 0 { MulMono(1, j, bs); }
    } else {
      Distribute(j, bs);
      ModUnique(pos + i, j + 1, t, bs);
    }
  }

  lemma ImageFront(bytes: seq<int>, pos: nat, bs: nat)
    requires bs > 0 && pos <= bs && bs - pos <= |bytes|
    ensures Image(bytes, pos, bs)[..bs - pos] == bytes[..bs - pos]
  {
  }
}
