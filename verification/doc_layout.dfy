/** How documents lie in blocks (src/docio.cc) and which bytes of the file they occupy
    (src/filemgr.cc).  A document block holds `bs` bytes of documents followed by the
    block metadata, of which only the link to the next block is modelled. */
module DocLayout {
  import opened Arith
  import opened Sets
  import opened Options

  const META := 16
  const TWO32 := 0x1_0000_0000

  /** An unsigned 32-bit word. */
  function U32(n: int): (r: nat) {
    n % TWO32
  }

  datatype Block = Block(data: seq<int>, next: Option<int>)

  type Disk = map<int, Block>

  /** A run of bytes of the file. */
  datatype Region = Region(pos: int, len: nat)

  /** The current block of the append handle and the bytes used in it. */
  datatype Cursor = NoBlock | At(block: int, pos: nat)

  datatype Doc = Doc(block: int, pos: nat, bytes: seq<int>)

  // ----- reading along next links -----

  /** What `_docio_read_doc_component` reads. */
  function ReadRaw(disk: Disk, bs: nat, block: int, pos: nat, len: nat): Option<seq<int>>
    requires pos <= bs && bs > 0
    decreases len, pos
  {
    if len == 0 then Some([])
    else if block !in disk || |disk[block].data| != bs then None
    else if bs - pos >= len then Some(disk[block].data[pos..pos + len])
    else if disk[block].next.None? then None
    else
      var r := ReadRaw(disk, bs, disk[block].next.value, 0, len - (bs - pos));
      if r.None? then None else Some(disk[block].data[pos..] + r.value)
  }

  /** Where a read of len bytes ends: the place the next component is read from. */
  function EndRaw(disk: Disk, bs: nat, block: int, pos: nat, len: nat): (r: (int, nat))
    requires pos <= bs && bs > 0
    ensures r.1 <= bs
    decreases len, pos
  {
    if len == 0 || block !in disk || |disk[block].data| != bs then (block, pos)
    else if bs - pos >= len then (block, pos + len)
    else if disk[block].next.None? then (block, pos)
    else EndRaw(disk, bs, disk[block].next.value, 0, len - (bs - pos))
  }

  /** Reading a document component by component gives the same bytes as reading it at once. */
  lemma {:induction false} ReadSplit(disk: Disk, bs: nat, block: int, pos: nat, a: nat, b: nat)
    requires pos <= bs && bs > 0 && ReadRaw(disk, bs, block, pos, a + b).Some?
    ensures var e := EndRaw(disk, bs, block, pos, a);
            var r1, r2 := ReadRaw(disk, bs, block, pos, a), ReadRaw(disk, bs, e.0, e.1, b);
            r1.Some? && r2.Some? && ReadRaw(disk, bs, block, pos, a + b) == Some(r1.value + r2.value)
    decreases a, pos
  {
    if a == 0 {
      var r := ReadRaw(disk, bs, block, pos, b).value;
      assert r == [] + r;
    } else if bs - pos < a {
      var next, a' := disk[block].next.value, a - (bs - pos);
      ReadSplit(disk, bs, next, 0, a', b);
      var e := EndRaw(disk, bs, next, 0, a');
      var x, r1, r2 := disk[block].data[pos..], ReadRaw(disk, bs, next, 0, a').value,
          ReadRaw(disk, bs, e.0, e.1, b).value;
      assert x + (r1 + r2) == x + r1 + r2;
      assert a + b - (bs - pos) == a' + b;
    } else {
      var data := disk[block].data;
      assert data[pos..] == data[pos..pos + a] + data[pos + a..];
      if a + b <= bs - pos {
        assert data[pos..pos + a + b] == data[pos..pos + a] + data[pos + a..pos + a + b];
      } else {
        var t := ReadRaw(disk, bs, disk[block].next.value, 0, a + b - (bs - pos)).value;
        assert b - (bs - (pos + a)) == a + b - (bs - pos);
        assert data[pos..pos + a] + data[pos + a..] + t == data[pos..pos + a] + (data[pos + a..] + t);
      }
    }
  }

  /** What `filemgr_actual_stale_regions` returns: the bytes of a document, with the
      metadata of every block the document fills to its end. */
  function Regions(disk: Disk, bs: nat, block: int, pos: nat, len: nat): seq<Region>
    requires pos <= bs && bs > 0
    decreases len, pos
  {
    if len == 0 then []
    else if len < bs - pos then [Region(Byte(bs, block, pos), len)]
    else
      var first := Region(Byte(bs, block, pos), bs + META - pos);
      if len == bs - pos || block !in disk || disk[block].next.None? then [first]
      else [first] + Regions(disk, bs, disk[block].next.value, 0, len - (bs - pos))
  }

  /** The file offset of a byte of a block. */
  function Byte(bs: nat, block: int, pos: nat): int {
    block * (bs + META) + pos
  }

  // ----- stored documents -----

  /** bytes lie at (block, pos) and along the links, behind the cursor, and the current
      block is at most the last one they touch. */
  ghost predicate Stored(disk: Disk, bs: nat, live: set<int>, cur: Cursor, block: int, pos: nat, bytes: seq<int>)
    decreases |bytes|, pos
  {
    && 0 <= pos <= bs
    && block in disk && block in live
    && |disk[block].data| == bs
    && (if pos + |bytes| <= bs then
          && disk[block].data[pos..pos + |bytes|] == bytes
          && (cur.At? && cur.block == block ==> pos + |bytes| <= cur.pos)
        else
          && !(cur.At? && cur.block == block)
          && disk[block].next.Some?
          && disk[block].data[pos..] == bytes[..bs - pos]
          && (bs > 0 && Stored(disk, bs, live, cur, disk[block].next.value, 0, bytes[bs - pos..])))
  }

  lemma {:induction false} StoredReads(disk: Disk, bs: nat, live: set<int>, cur: Cursor, block: int, pos: nat,
                                       bytes: seq<int>)
    requires bs > 0 && Stored(disk, bs, live, cur, block, pos, bytes)
    ensures ReadRaw(disk, bs, block, pos, |bytes|) == Some(bytes)
    decreases |bytes|, pos
  {
    if |bytes| > 0 && pos + |bytes| > bs {
      StoredReads(disk, bs, live, cur, disk[block].next.value, 0, bytes[bs - pos..]);
      assert bytes == bytes[..bs - pos] + bytes[bs - pos..];
    }
  }

  /** An append leaves every live block alone behind the cursor; a new current block is one
      that was not live. */
  ghost predicate Kept(disk: Disk, live: set<int>, cur: Cursor, disk': Disk, live': set<int>, cur': Cursor) {
    && (forall b :: b in live && b in disk ==> b in disk' && ((cur.At? && cur.block == b) || disk'[b] == disk[b]))
    && (forall b :: b in live ==> b in live' || (cur == At(b, 0)))
    && (cur.At? && cur.block in disk && cur.block in disk' && cur.pos <= |disk[cur.block].data| ==>
          && |disk'[cur.block].data| == |disk[cur.block].data|
          && disk'[cur.block].data[..cur.pos] == disk[cur.block].data[..cur.pos])
    && (cur'.At? && cur'.block in live ==> cur.At? && cur'.block == cur.block && cur'.pos >= cur.pos)
  }

  lemma {:induction false} StoredKept(disk: Disk, bs: nat, live: set<int>, cur: Cursor, disk': Disk, live': set<int>,
                                      cur': Cursor, block: int, pos: nat, bytes: seq<int>)
    requires bs > 0 && Stored(disk, bs, live, cur, block, pos, bytes) && Kept(disk, live, cur, disk', live', cur')
             && (cur.At? ==> cur.pos <= bs) && |bytes| > 0
    ensures Stored(disk', bs, live', cur', block, pos, bytes)
    ensures Regions(disk', bs, block, pos, |bytes|) == Regions(disk, bs, block, pos, |bytes|)
    decreases |bytes|, pos
  {
    if pos + |bytes| <= bs {
      if cur.At? && cur.block == block {
        assert disk'[block].data[pos..pos + |bytes|] == disk'[block].data[..cur.pos][pos..pos + |bytes|];
      }
    } else {
      StoredKept(disk, bs, live, cur, disk', live', cur', disk[block].next.value, 0, bytes[bs - pos..]);
    }
  }

  // ----- counting bytes -----

  predicate In(r: Region, x: int) {
    r.pos <= x < r.pos + r.len
  }

  /** How many of the regions contain byte x. */
  ghost function Count(rs: seq<Region>, x: int): nat {
    if rs == [] then 0 else (if In(rs[0], x) then 1 else 0) + Count(rs[1..], x)
  }

  lemma {:induction false} CountConcat(a: seq<Region>, b: seq<Region>, x: int)
    ensures Count(a + b, x) == Count(a, x) + Count(b, x)
    decreases a
  {
    if a == [] {
      assert a + b == b;
    } else {
      assert (a + b)[0] == a[0] && (a + b)[1..] == a[1..] + b;
      CountConcat(a[1..], b, x);
    }
  }

  lemma CountOne(r: Region, x: int)
    ensures Count([r], x) == if In(r, x) then 1 else 0
  {
    assert [r][1..] == [];
  }

  /** Bytes of different blocks are different bytes. */
  lemma InBlock(bs: nat, block: int, pos: nat, len: nat, b: int, p: nat)
    requires pos + len <= bs + META && p < bs + META
    ensures In(Region(Byte(bs, block, pos), len), Byte(bs, b, p)) <==> b == block && pos <= p < pos + len
  {
    if b < block {
      MulGap(b, block, bs + META);
    } else if b > block {
      MulGap(block, b, bs + META);
    }
  }

  /** The unused rest of the current block, with its metadata. */
  function Rest(bs: nat, cur: Cursor): seq<Region>
    requires cur.At? ==> cur.pos <= bs
  {
    if cur.At? && cur.pos < bs then [Region(Byte(bs, cur.block, cur.pos), bs + META - cur.pos)] else []
  }

  function AllRegions(disk: Disk, bs: nat, docs: seq<Doc>): seq<Region>
    requires bs > 0 && forall i :: 0 <= i < |docs| ==> docs[i].pos <= bs
  {
    if docs == [] then [] else
      AllRegions(disk, bs, docs[..|docs| - 1])
          + Regions(disk, bs, docs[|docs| - 1].block, docs[|docs| - 1].pos, |docs[|docs| - 1].bytes|)
  }

  /** Every byte of the given blocks lies in exactly one of the regions, and no other byte
      in any. */
  ghost predicate Tiles(blocks: set<int>, bs: nat, rs: seq<Region>) {
    forall b, p: nat {:trigger Byte(bs, b, p)} ::
      p < bs + META ==> Count(rs, Byte(bs, b, p)) == if b in blocks then 1 else 0
  }

  ghost predicate DocHeld(disk: Disk, bs: nat, live: set<int>, cur: Cursor, d: Doc) {
    d.pos <= bs && (d.bytes == [] || Stored(disk, bs, live, cur, d.block, d.pos, d.bytes))
  }

  ghost predicate AllHeld(disk: Disk, bs: nat, live: set<int>, cur: Cursor, docs: seq<Doc>) {
    forall i :: 0 <= i < |docs| ==> DocHeld(disk, bs, live, cur, docs[i])
  }

  /** No append disturbs an older document or the bytes it accounts for. */
  lemma {:induction false} AllKept(disk: Disk, bs: nat, live: set<int>, cur: Cursor, disk': Disk, live': set<int>,
                                   cur': Cursor, docs: seq<Doc>)
    requires bs > 0 && AllHeld(disk, bs, live, cur, docs) && Kept(disk, live, cur, disk', live', cur')
             && (cur.At? ==> cur.pos <= bs)
    ensures AllHeld(disk', bs, live', cur', docs) && AllRegions(disk', bs, docs) == AllRegions(disk, bs, docs)
    decreases docs
  {
    hide Stored, Kept, Regions;
    if docs != [] {
      var init, d := docs[..|docs| - 1], docs[|docs| - 1];
      AllKept(disk, bs, live, cur, disk', live', cur', init);
      if d.bytes != [] {
        StoredKept(disk, bs, live, cur, disk', live', cur', d.block, d.pos, d.bytes);
      } else {
        NoBytes(disk, bs, d.block, d.pos);
        NoBytes(disk', bs, d.block, d.pos);
      }
      assert docs == init + [d];
      forall i | 0 <= i < |docs| ensures DocHeld(disk', bs, live', cur', docs[i]) {
        if i < |docs| - 1 { assert docs[i] == init[i]; }
      }
    }
  }

  lemma NoBytes(disk: Disk, bs: nat, block: int, pos: nat)
    requires pos <= bs && bs > 0
    ensures Regions(disk, bs, block, pos, 0) == []
  {
  }

  // ----- a document over several blocks -----

  /** Where the part of a document that lies in the j-th listed block starts. */
  function Off(s: nat, bs: nat, j: nat): nat {
    s + j * bs
  }

  lemma OffStep(s: nat, bs: nat, j: nat)
    ensures Off(s, bs, j + 1) == Off(s, bs, j) + bs && Off(s, bs, 0) == s
  {
  }

  lemma OffMono(s: nat, bs: nat, i: nat, j: nat)
    requires i < j
    ensures Off(s, bs, i) + bs <= Off(s, bs, j)
  {
    MulGap(i, j, bs);
  }

  /** n blocks after the first s bytes take a document of this size; only the last one may
      stay partly or wholly empty. */
  ghost predicate Fits(s: nat, bs: nat, n: nat, size: nat) {
    n > 0 && Off(s, bs, n - 1) <= size <= Off(s, bs, n)
  }

  function PartLen(s: nat, bs: nat, j: nat, size: nat): nat
    requires Off(s, bs, j) <= size
  {
    if size - Off(s, bs, j) < bs then size - Off(s, bs, j) else bs
  }

  ghost predicate LaidAt(disk: Disk, bs: nat, list: seq<int>, bytes: seq<int>, s: nat, j: nat)
    requires j < |list|
  {
    && list[j] in disk && |disk[list[j]].data| == bs
    && Off(s, bs, j) <= |bytes|
    && var k := PartLen(s, bs, j, |bytes|);
    && disk[list[j]].data[..k] == bytes[Off(s, bs, j)..Off(s, bs, j) + k]
    && (j + 1 < |list| ==> disk[list[j]].next == Some(list[j + 1]))
  }

  ghost predicate Laid(disk: Disk, bs: nat, list: seq<int>, bytes: seq<int>, s: nat) {
    forall j :: 0 <= j < |list| ==> LaidAt(disk, bs, list, bytes, s, j)
  }

  /** The cursor after the last listed block got its part. */
  function EndOf(list: seq<int>, bs: nat, s: nat, size: nat): Cursor
    requires |list| > 0 && Off(s, bs, |list| - 1) <= size
  {
    At(list[|list| - 1], size - Off(s, bs, |list| - 1))
  }

  lemma {:induction false} ChainStored(disk: Disk, bs: nat, live: set<int>, list: seq<int>, bytes: seq<int>, s: nat,
                                       j: nat)
    requires bs > 0 && j < |list| && Fits(s, bs, |list|, |bytes|) && Laid(disk, bs, list, bytes, s) && Distinct(list)
    requires forall i :: 0 <= i < |list| ==> list[i] in live
    ensures Off(s, bs, j) <= |bytes|
            && Stored(disk, bs, live, EndOf(list, bs, s, |bytes|), list[j], 0, bytes[Off(s, bs, j)..])
    decreases |list| - j
  {
    hide Off;
    var n := |list|;
    OffStep(s, bs, n - 1);
    assert LaidAt(disk, bs, list, bytes, s, j);
    if j < n - 1 {
      OffMono(s, bs, j, n - 1);
      OffStep(s, bs, j);
      ChainStored(disk, bs, live, list, bytes, s, j + 1);
      var rest := bytes[Off(s, bs, j)..];
      assert rest[..bs] == bytes[Off(s, bs, j)..Off(s, bs, j) + bs];
      assert rest[bs..] == bytes[Off(s, bs, j + 1)..];
    } else {
      assert bytes[Off(s, bs, j)..] == bytes[Off(s, bs, j)..|bytes|];
    }
  }

  /** The listed blocks are covered by the document's regions and the rest of the last one. */
  lemma {:induction false} ChainTiles(disk: Disk, bs: nat, list: seq<int>, bytes: seq<int>, s: nat, j: nat, b: int,
                                      p: nat)
    requires bs > 0 && j < |list| && Fits(s, bs, |list|, |bytes|) && Laid(disk, bs, list, bytes, s) && Distinct(list)
             && p < bs + META
    ensures Off(s, bs, j) <= |bytes|
    ensures Off(s, bs, |list| - 1) <= |bytes| && |bytes| - Off(s, bs, |list| - 1) <= bs
    ensures Count(Regions(disk, bs, list[j], 0, |bytes| - Off(s, bs, j)), Byte(bs, b, p))
            + Count(Rest(bs, EndOf(list, bs, s, |bytes|)), Byte(bs, b, p))
            == if b in list[j..] then 1 else 0
    decreases |list| - j
  {
    hide Off, Byte, In;
    var n := |list|;
    OffStep(s, bs, n - 1);
    assert LaidAt(disk, bs, list, bytes, s, j);
    var x := Byte(bs, b, p);
    if j < n - 1 {
      OffMono(s, bs, j, n - 1);
      OffStep(s, bs, j);
      ChainTiles(disk, bs, list, bytes, s, j + 1, b, p);
      assert list[j..] == [list[j]] + list[j + 1..];
      var first := Region(Byte(bs, list[j], 0), bs + META);
      CountConcat([first], Regions(disk, bs, list[j + 1], 0, |bytes| - Off(s, bs, j + 1)), x);
      CountOne(first, x);
      InBlock(bs, list[j], 0, bs + META, b, p);
      assert list[j] !in list[j + 1..];
    } else {
      assert list[j..] == [list[j]];
      LastTiles(disk, bs, list[j], |bytes| - Off(s, bs, j), b, p);
    }
  }

  lemma LastTiles(disk: Disk, bs: nat, block: int, len: nat, b: int, p: nat)
    requires bs > 0 && len <= bs && p < bs + META
    ensures Count(Regions(disk, bs, block, 0, len), Byte(bs, b, p))
            + Count(Rest(bs, At(block, len)), Byte(bs, b, p)) == if b == block then 1 else 0
  {
    hide Byte, In;
    TailTiles(disk, bs, block, 0, len, b, p);
    CountOne(Region(Byte(bs, block, 0), bs + META), Byte(bs, b, p));
    InBlock(bs, block, 0, bs + META, b, p);
  }

  /** A document that ends in its block splits the rest of the block into itself and the new
      rest. */
  lemma TailTiles(disk: Disk, bs: nat, block: int, pos: nat, len: nat, b: int, p: nat)
    requires bs > 0 && pos + len <= bs && p < bs + META
    ensures Count(Regions(disk, bs, block, pos, len), Byte(bs, b, p))
            + Count(Rest(bs, At(block, pos + len)), Byte(bs, b, p))
            == Count(Rest(bs, At(block, pos)), Byte(bs, b, p))
  {
    hide Byte, In;
    var x := Byte(bs, b, p);
    InBlock(bs, block, pos, bs + META - pos, b, p);
    InBlock(bs, block, pos, len, b, p);
    InBlock(bs, block, pos + len, bs + META - (pos + len), b, p);
    CountOne(Region(Byte(bs, block, pos), bs + META - pos), x);
    CountOne(Region(Byte(bs, block, pos), len), x);
    CountOne(Region(Byte(bs, block, pos + len), bs + META - (pos + len)), x);
  }

  // ----- how the tiling moves -----

  /** The unused rest of a block, seen as stale, is one region. */
  lemma TailRegions(disk: Disk, bs: nat, cur: Cursor)
    requires bs > 0 && cur.At? && cur.pos <= bs
    ensures Regions(disk, bs, cur.block, cur.pos, bs - cur.pos) == Rest(bs, cur)
  {
  }

  lemma Count3(a: seq<Region>, b: seq<Region>, c: seq<Region>, x: int)
    ensures Count(a + b + c, x) == Count(a, x) + Count(b, x) + Count(c, x)
  {
    CountConcat(a + b, c, x);
    CountConcat(a, b, x);
  }

  lemma RestWhole(bs: nat, block: int, b: int, p: nat)
    requires bs > 0 && p < bs + META
    ensures Count(Rest(bs, At(block, 0)), Byte(bs, b, p)) == if b == block then 1 else 0
  {
    hide Byte, In;
    CountOne(Region(Byte(bs, block, 0), bs + META), Byte(bs, b, p));
    InBlock(bs, block, 0, bs + META, b, p);
  }

  /** Leaving a block: its rest is given up, and a new block is all rest. */
  lemma StartTiles(blocks: set<int>, bs: nat, rs: seq<Region>, gone: seq<Region>, cur: Cursor, gone': seq<Region>,
                   block: int)
    requires bs > 0 && (cur.At? ==> cur.pos <= bs) && Tiles(blocks, bs, rs + gone + Rest(bs, cur)) && block !in blocks
    requires gone' == gone + Rest(bs, cur)
    ensures Tiles(blocks + {block}, bs, rs + gone' + Rest(bs, At(block, 0)))
  {
    hide Rest, Count, Byte;
    forall b, p: nat | p < bs + META
      ensures Count(rs + gone' + Rest(bs, At(block, 0)), Byte(bs, b, p)) == if b in blocks + {block} then 1 else 0
    {
      var x := Byte(bs, b, p);
      Count3(rs, gone, Rest(bs, cur), x);
      Count3(rs, gone', Rest(bs, At(block, 0)), x);
      CountConcat(gone, Rest(bs, cur), x);
      RestWhole(bs, block, b, p);
    }
  }

  /** A document that fits into the rest of the current block. */
  lemma SimpleTiles(disk: Disk, blocks: set<int>, bs: nat, rs: seq<Region>, gone: seq<Region>, block: int, pos: nat,
                    len: nat)
    requires bs > 0 && pos + len <= bs && Tiles(blocks, bs, rs + gone + Rest(bs, At(block, pos)))
    ensures Tiles(blocks, bs, rs + Regions(disk, bs, block, pos, len) + gone + Rest(bs, At(block, pos + len)))
  {
    hide Rest, Count, Byte, Regions;
    var ds := Regions(disk, bs, block, pos, len);
    forall b, p: nat | p < bs + META
      ensures Count(rs + ds + gone + Rest(bs, At(block, pos + len)), Byte(bs, b, p)) == if b in blocks then 1 else 0
    {
      var x := Byte(bs, b, p);
      Count3(rs, gone, Rest(bs, At(block, pos)), x);
      Count3(rs + ds, gone, Rest(bs, At(block, pos + len)), x);
      CountConcat(rs, ds, x);
      TailTiles(disk, bs, block, pos, len, b, p);
    }
  }

  /** A document over the listed blocks, after the rest of the old block was given up. */
  lemma ListTiles(disk: Disk, blocks: set<int>, bs: nat, rs: seq<Region>, gone: seq<Region>, cur: Cursor,
                  gone': seq<Region>, list: seq<int>, bytes: seq<int>)
    requires bs > 0 && (cur.At? ==> cur.pos <= bs) && Tiles(blocks, bs, rs + gone + Rest(bs, cur))
             && gone' == gone + Rest(bs, cur)
    requires Fits(0, bs, |list|, |bytes|) && Laid(disk, bs, list, bytes, 0) && Distinct(list)
    requires forall i :: 0 <= i < |list| ==> list[i] !in blocks
    ensures Off(0, bs, |list| - 1) <= |bytes| && |bytes| - Off(0, bs, |list| - 1) <= bs
    ensures Tiles(blocks + (set b | b in list), bs,
                  rs + Regions(disk, bs, list[0], 0, |bytes|) + gone' + Rest(bs, EndOf(list, bs, 0, |bytes|)))
  {
    hide Rest, Count, Byte, Regions, Laid, Off;
    var ds := Regions(disk, bs, list[0], 0, |bytes|);
    ChainTiles(disk, bs, list, bytes, 0, 0, 0, 0);
    OffStep(0, bs, 0);
    var rest := Rest(bs, EndOf(list, bs, 0, |bytes|));
    forall b, p: nat | p < bs + META
      ensures Count(rs + ds + gone' + rest, Byte(bs, b, p)) == if b in blocks + (set b | b in list) then 1 else 0
    {
      var x := Byte(bs, b, p);
      Count3(rs, gone, Rest(bs, cur), x);
      Count3(rs + ds, gone', rest, x);
      CountConcat(rs, ds, x);
      CountConcat(gone, Rest(bs, cur), x);
      ChainTiles(disk, bs, list, bytes, 0, 0, b, p);
      assert list[0..] == list;
    }
  }

  lemma FrontRegions(disk: Disk, bs: nat, block: int, pos: nat, next: int, len: nat)
    requires bs > 0 && pos < bs && block in disk && disk[block].next == Some(next) && bs - pos < len
    ensures var first := Region(Byte(bs, block, pos), bs + META - pos);
            && Regions(disk, bs, block, pos, len) == [first] + Regions(disk, bs, next, 0, len - (bs - pos))
            && Rest(bs, At(block, pos)) == [first]
  {
  }

  /** A document that fills the rest of the current block and goes on in the listed ones. */
  lemma FrontTiles(disk: Disk, blocks: set<int>, bs: nat, rs: seq<Region>, gone: seq<Region>, block: int, pos: nat,
                   list: seq<int>, bytes: seq<int>)
    requires bs > 0 && pos < bs && Tiles(blocks, bs, rs + gone + Rest(bs, At(block, pos)))
    requires Fits(bs - pos, bs, |list|, |bytes|) && bs - pos < |bytes| && Laid(disk, bs, list, bytes, bs - pos)
             && Distinct(list)
    requires (forall i :: 0 <= i < |list| ==> list[i] !in blocks) && block in disk && disk[block].next == Some(list[0])
    ensures Off(bs - pos, bs, |list| - 1) <= |bytes| && |bytes| - Off(bs - pos, bs, |list| - 1) <= bs
    ensures Tiles(blocks + (set b | b in list), bs,
                  rs + Regions(disk, bs, block, pos, |bytes|) + gone + Rest(bs, EndOf(list, bs, bs - pos, |bytes|)))
  {
    hide Count, Byte, Laid, Regions, Rest, Off;
    var s := bs - pos;
    var ds, first := Regions(disk, bs, block, pos, |bytes|), Region(Byte(bs, block, pos), bs + META - pos);
    ChainTiles(disk, bs, list, bytes, s, 0, 0, 0);
    OffStep(s, bs, 0);
    var ts := Regions(disk, bs, list[0], 0, |bytes| - s);
    FrontRegions(disk, bs, block, pos, list[0], |bytes|);
    var rest := Rest(bs, EndOf(list, bs, s, |bytes|));
    forall b, p: nat | p < bs + META
      ensures Count(rs + ds + gone + rest, Byte(bs, b, p)) == if b in blocks + (set b | b in list) then 1 else 0
    {
      var x := Byte(bs, b, p);
      Count3(rs, gone, [first], x);
      Count3(rs + ds, gone, rest, x);
      CountConcat(rs, ds, x);
      CountConcat([first], ts, x);
      ChainTiles(disk, bs, list, bytes, s, 0, b, p);
      assert list[0..] == list;
    }
  }

  /** Adding a document to the list adds its regions. */
  lemma AllRegionsPut(disk: Disk, bs: nat, docs: seq<Doc>, d: Doc)
    requires bs > 0 && d.pos <= bs && forall i :: 0 <= i < |docs| ==> docs[i].pos <= bs
    ensures AllRegions(disk, bs, docs + [d]) == AllRegions(disk, bs, docs)
            + Regions(disk, bs, d.block, d.pos, |d.bytes|)
  {
    assert (docs + [d])[..|docs|] == docs;
  }

  // ----- bytes behind the cursor -----

  /** Every byte behind the cursor in the current block belongs to one of the regions. */
  ghost predicate Filled(rs: seq<Region>, bs: nat, cur: Cursor) {
    cur.At? ==> forall p: nat {:trigger Byte(bs, cur.block, p)} :: p < cur.pos ==> Count(rs, Byte(bs, cur.block, p)) > 0
  }

  lemma FilledHere(disk: Disk, bs: nat, rs: seq<Region>, block: int, pos: nat, len: nat)
    requires bs > 0 && pos + len <= bs && Filled(rs, bs, At(block, pos))
    ensures Filled(rs + Regions(disk, bs, block, pos, len), bs, At(block, pos + len))
  {
    hide Rest, Count, Byte, Regions;
    var ds := Regions(disk, bs, block, pos, len);
    forall p: nat | p < pos + len ensures Count(rs + ds, Byte(bs, block, p)) > 0 {
      CountConcat(rs, ds, Byte(bs, block, p));
      if p >= pos {
        TailTiles(disk, bs, block, pos, len, block, p);
        RestCount(bs, block, pos, p);
        RestCount(bs, block, pos + len, p);
      }
    }
  }

  lemma RestCount(bs: nat, block: int, pos: nat, p: nat)
    requires bs > 0 && pos <= bs && p < bs
    ensures Count(Rest(bs, At(block, pos)), Byte(bs, block, p)) == if pos <= p then 1 else 0
  {
    hide Byte, In;
    InBlock(bs, block, pos, bs + META - pos, block, p);
    CountOne(Region(Byte(bs, block, pos), bs + META - pos), Byte(bs, block, p));
  }

  /** The listed blocks hold the document up to the new cursor. */
  lemma FilledList(disk: Disk, bs: nat, rs: seq<Region>, list: seq<int>, bytes: seq<int>, s: nat)
    requires bs > 0 && Fits(s, bs, |list|, |bytes|) && Laid(disk, bs, list, bytes, s) && Distinct(list) && s <= |bytes|
    ensures Off(s, bs, |list| - 1) <= |bytes|
    ensures Filled(rs + Regions(disk, bs, list[0], 0, |bytes| - s), bs, EndOf(list, bs, s, |bytes|))
  {
    hide Rest, Count, Byte, Regions, Laid, Off;
    var ds := Regions(disk, bs, list[0], 0, |bytes| - s);
    ChainTiles(disk, bs, list, bytes, s, 0, 0, 0);
    OffStep(s, bs, 0);
    var cur := EndOf(list, bs, s, |bytes|);
    forall p: nat | p < cur.pos ensures Count(rs + ds, Byte(bs, cur.block, p)) > 0 {
      CountConcat(rs, ds, Byte(bs, cur.block, p));
      ChainTiles(disk, bs, list, bytes, s, 0, cur.block, p);
      RestCount(bs, cur.block, cur.pos, p);
      assert list[0..] == list;
    }
  }

  lemma FilledMore(rs: seq<Region>, r: Region, ts: seq<Region>, bs: nat, cur: Cursor)
    requires Filled(rs + ts, bs, cur)
    ensures Filled(rs + ([r] + ts), bs, cur)
  {
    hide Count, Byte;
    if cur.At? {
      forall p: nat | p < cur.pos ensures Count(rs + ([r] + ts), Byte(bs, cur.block, p)) > 0 {
        var x := Byte(bs, cur.block, p);
        CountConcat(rs, ts, x);
        CountConcat(rs, [r] + ts, x);
        CountConcat([r], ts, x);
      }
    }
  }

  lemma {:induction false} SomeDoc(disk: Disk, bs: nat, docs: seq<Doc>, x: int) returns (i: nat)
    requires bs > 0 && (forall i :: 0 <= i < |docs| ==> docs[i].pos <= bs) && Count(AllRegions(disk, bs, docs), x) > 0
    ensures i < |docs| && Count(Regions(disk, bs, docs[i].block, docs[i].pos, |docs[i].bytes|), x) > 0
    decreases docs
  {
    hide Regions;
    var init, d := docs[..|docs| - 1], docs[|docs| - 1];
    CountConcat(AllRegions(disk, bs, init), Regions(disk, bs, d.block, d.pos, |d.bytes|), x);
    if Count(Regions(disk, bs, d.block, d.pos, |d.bytes|), x) > 0 {
      i := |docs| - 1;
    } else {
      i := SomeDoc(disk, bs, init, x);
    }
  }

  // ----- overwriting the current block -----

  ghost predicate ReadsBack(disk: Disk, bs: nat, d: Doc) {
    bs > 0 && d.pos <= bs && ReadRaw(disk, bs, d.block, d.pos, |d.bytes|) == Some(d.bytes)
  }

  lemma HeldReads(disk: Disk, bs: nat, live: set<int>, cur: Cursor, docs: seq<Doc>)
    requires bs > 0 && AllHeld(disk, bs, live, cur, docs)
    ensures forall i :: 0 <= i < |docs| ==> ReadsBack(disk, bs, docs[i])
  {
    hide Stored;
    forall i | 0 <= i < |docs| ensures ReadsBack(disk, bs, docs[i]) {
      var d := docs[i];
      assert DocHeld(disk, bs, live, cur, d);
      if d.bytes != [] {
        StoredReads(disk, bs, live, cur, d.block, d.pos, d.bytes);
      }
    }
  }

  /** A document that still reads back after the current block was overwritten has each of
      its bytes in the new block. */
  lemma {:induction false} ReadKept(disk: Disk, bs: nat, live: set<int>, cur: Cursor, disk': Disk, block: int, pos: nat,
                                    bytes: seq<int>, p: nat)
    requires bs > 0 && cur.At? && p < cur.pos <= bs && Stored(disk, bs, live, cur, block, pos, bytes) && |bytes| > 0
    requires cur.block in disk && cur.block in disk' && disk' == disk[cur.block := disk'[cur.block]]
             && |disk'[cur.block].data| == bs
    requires Count(Regions(disk, bs, block, pos, |bytes|), Byte(bs, cur.block, p)) > 0
    requires ReadRaw(disk', bs, block, pos, |bytes|) == Some(bytes)
    ensures |disk[cur.block].data| == bs && disk'[cur.block].data[p] == disk[cur.block].data[p]
    decreases |bytes|, pos
  {
    hide Byte, In;
    var x := Byte(bs, cur.block, p);
    if pos + |bytes| <= bs {
      var len := if |bytes| < bs - pos then |bytes| else bs + META - pos;
      CountOne(Region(Byte(bs, block, pos), len), x);
      InBlock(bs, block, pos, len, cur.block, p);
      assert disk[block].data[pos..pos + |bytes|][p - pos] == disk'[block].data[pos..pos + |bytes|][p - pos];
    } else {
      var first, next, rest := Region(Byte(bs, block, pos), bs + META - pos), disk[block].next.value, bytes[bs - pos..];
      CountConcat([first], Regions(disk, bs, next, 0, |rest|), x);
      CountOne(first, x);
      InBlock(bs, block, pos, bs + META - pos, cur.block, p);
      var r := ReadRaw(disk', bs, next, 0, |rest|).value;
      assert (disk[block].data[pos..] + r)[bs - pos..] == r;
      ReadKept(disk, bs, live, cur, disk', next, 0, rest, p);
    }
  }

  /** When the current block is overwritten, every document still reads back if and only if
      the bytes behind the cursor are the same. */
  lemma OverwrittenExact(disk: Disk, bs: nat, live: set<int>, cur: Cursor, disk': Disk, docs: seq<Doc>)
    requires bs > 0 && cur.At? && cur.pos <= bs && AllHeld(disk, bs, live, cur, docs) && cur.block in live
    requires cur.block in disk && cur.block in disk' && disk' == disk[cur.block := disk'[cur.block]]
    requires |disk[cur.block].data| == bs && |disk'[cur.block].data| == bs
    requires (forall i :: 0 <= i < |docs| ==> docs[i].pos <= bs) && Filled(AllRegions(disk, bs, docs), bs, cur)
    ensures (forall i :: 0 <= i < |docs| ==> ReadsBack(disk', bs, docs[i]))
            <==> disk'[cur.block].data[..cur.pos] == disk[cur.block].data[..cur.pos]
  {
    hide Stored, Regions, ReadRaw, AllRegions, Count;
    var a, b := disk[cur.block].data, disk'[cur.block].data;
    if b[..cur.pos] == a[..cur.pos] {
      AllKept(disk, bs, live, cur, disk', live, cur, docs);
      HeldReads(disk', bs, live, cur, docs);
    }
    if forall i :: 0 <= i < |docs| ==> ReadsBack(disk', bs, docs[i]) {
      forall p: nat | p < cur.pos ensures b[..cur.pos][p] == a[..cur.pos][p] {
        var i := SomeDoc(disk, bs, docs, Byte(bs, cur.block, p));
        var d := docs[i];
        assert DocHeld(disk, bs, live, cur, d) && ReadsBack(disk', bs, d);
        NoBytes(disk, bs, d.block, d.pos);
        NoneCounted(Byte(bs, cur.block, p));
        ReadKept(disk, bs, live, cur, disk', d.block, d.pos, d.bytes, p);
      }
    }
  }

  lemma NoneCounted(x: int)
    ensures Count([], x) == 0
  {
  }
}
