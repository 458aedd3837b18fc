/** Appending documents to a file and reading them back (src/docio.cc, with the stale
    region bookkeeping of src/filemgr.cc). */
module DocIo {
  import opened Arith
  import opened Options
  import opened DocLayout
  import opened DocImage
  import opened DocStale
  import opened Sets

  /** Bytes cleared after a document: the size of a document length header. */
  const LEN_SIZE := 16

  function Overwrite(data: seq<int>, pos: nat, bytes: seq<int>): (r: seq<int>)
    requires pos + |bytes| <= |data|
    ensures |r| == |data| && r[..pos] == data[..pos] && r[pos..pos + |bytes|] == bytes
    ensures forall i :: 0 <= i < |data| ==> r[i] == if pos <= i < pos + |bytes| then bytes[i - pos] else data[i]
  {
    data[..pos] + bytes + data[pos + |bytes|..]
  }

  function ZeroBytes(n: nat): (r: seq<int>)
    ensures |r| == n && forall i :: 0 <= i < n ==> r[i] == 0
  {
    seq(n, _ => 0)
  }

  /** `_docio_fill_zero` */
  function FillZero(data: seq<int>, pos: nat): (r: seq<int>)
    requires pos <= |data|
    ensures |r| == |data| && r[..pos] == data[..pos]
    ensures forall i :: 0 <= i < |data| ==>
              r[i] == if pos + LEN_SIZE <= |data| && pos <= i < pos + LEN_SIZE then 0 else data[i]
  {
    if pos + LEN_SIZE <= |data| then Overwrite(data, pos, ZeroBytes(LEN_SIZE)) else data
  }

  /** Zeros stand behind pos where the length of a document could stand. */
  ghost predicate ZeroFrom(data: seq<int>, pos: nat) {
    pos + LEN_SIZE <= |data| ==> forall i :: pos <= i < pos + LEN_SIZE ==> data[i] == 0
  }

  lemma ByteDecode(bs: nat, block: int, pos: nat)
    requires pos < bs + META
    ensures Byte(bs, block, pos) / (bs + META) == block && Byte(bs, block, pos) % (bs + META) == pos
  {
    ModUnique(Byte(bs, block, pos), block, pos, bs + META);
  }

  /** How many blocks `docio_append_doc_raw` lists: enough to hold the document from the
      current position, or from the new blocks alone.  One fewer would do exactly when a
      document of whole blocks starts at the beginning of the current block. */
  lemma ListFits(size: nat, bs: nat, offset: nat, fromNew: bool)
    requires bs > 0 && offset <= bs && size > offset
    ensures var nblock, remain := size / bs, size % bs;
            var n := if remain > offset || (fromNew && remain > 0) then nblock + 1 else nblock;
            var s := if offset > 0 && !fromNew then offset else 0;
            && Fits(s, bs, n, size) && n <= nblock + 1
            && (size <= Off(s, bs, n - 1) <==> offset == bs && remain == 0 && !fromNew)
  {
    var nblock, remain := size / bs, size % bs;
    assert size == nblock * bs + remain;
    OffStep(0, bs, nblock);
    OffStep(offset, bs, nblock);
    if nblock > 0 {
      OffStep(0, bs, nblock - 1);
      OffStep(offset, bs, nblock - 1);
    }
  }

  /** Sixteen bytes at the start of a block of eight: the second listed block stays empty. */
  lemma ExtraBlock()
    ensures var nblock, remain := 16 / 8, 16 % 8;
            (if remain > 8 then nblock + 1 else nblock) == 2
    ensures Fits(8, 8, 1, 16) && Fits(8, 8, 2, 16) && Off(8, 8, 1) == 16 && EndOf([1, 2], 8, 8, 16) == At(2, 0)
  {
    hide Off;
    OffStep(8, 8, 0);
    OffStep(8, 8, 1);
  }

  class DocStore {
    /** Document bytes per block. */
    const bs: nat
    /** Whether the allocator may hand out a block again. */
    const reuse: bool
    var disk: Disk
    var cur: Cursor
    var stale: seq<Region>
    /** Blocks that hold a document, and the current one: the allocator does not hand these
        out. */
    var live: set<int>
    ghost var docs: seq<Doc>
    /** The rests of the blocks given up, in order. */
    ghost var gone: seq<Region>
    /** No block was ever handed out twice. */
    ghost var once: bool

    ghost predicate Fit()
      reads this
    {
      && 0 < bs && bs + META < TWO32
      && live <= disk.Keys
      && (forall b :: b in disk ==> |disk[b].data| == bs)
      && (cur.At? ==> cur.block in live && cur.pos <= bs)
      && (!reuse ==> once)
    }

    /** No leftover bytes behind the last document can be taken for another one. */
    ghost predicate Cleared()
      reads this`cur, this`disk
    {
      cur.At? && cur.block in disk && |disk[cur.block].data| == bs && ZeroFrom(disk[cur.block].data, cur.pos)
    }

    /** The block of the last byte links to no other one. */
    ghost predicate Ended()
      reads this`cur, this`disk
    {
      cur.At? && cur.block in disk && (cur.pos > 0 ==> disk[cur.block].next.None?)
    }

    /** Documents, rests given up and the rest of the current block cover every byte of every
        block handed out exactly once, and no other byte. */
    ghost predicate Covered()
      reads this
    {
      && bs > 0 && (cur.At? ==> cur.pos <= bs) && (forall i :: 0 <= i < |docs| ==> docs[i].pos <= bs)
      && Tiles(disk.Keys, bs, AllRegions(disk, bs, docs) + gone + Rest(bs, cur))
    }

    /** The same with the stale list for the rests given up. */
    ghost predicate Tiled()
      reads this
    {
      && bs > 0 && (cur.At? ==> cur.pos <= bs) && (forall i :: 0 <= i < |docs| ==> docs[i].pos <= bs)
      && Tiles(disk.Keys, bs, AllRegions(disk, bs, docs) + stale + Rest(bs, cur))
    }

    /** Every document lies intact behind the cursor, where nothing else lies; the stale list
        was given the rests; and unless a block was reused, the blocks are covered. */
    ghost predicate Valid()
      reads this
    {
      && Fit()
      && AllHeld(disk, bs, live, cur, docs)
      && Filled(AllRegions(disk, bs, docs), bs, cur)
      && stale == AddAll([], gone)
      && (once ==> Covered())
    }

    /** The stale list completes the tiling if and only if no length in it ever needed more
        than 32 bits. */
    lemma StaleTiles()
      requires Valid() && once
      ensures Tiled() <==> AllFit([], gone)
      ensures Sum(gone) < TWO32 ==> Tiled()
    {
      hide Tiles, AddAll, AllFit, Sum;
      TiledExact(disk.Keys, bs, AllRegions(disk, bs, docs), gone, Rest(bs, cur));
      if Sum(gone) < TWO32 {
        NoSum();
        FewFit([], gone);
      }
    }

    /** Whether an append leaves the bytes behind the cursor alone: always, unless the
        document is empty, goes into the current block, and the block below the cache
        differs there. */
    predicate Safe(bytes: seq<int>, writable: bool, below: Block)
      requires Fit() && |below.data| == bs
      reads this
    {
      bytes != [] || !writable || cur.NoBlock? || below.data[..cur.pos] == disk[cur.block].data[..cur.pos]
    }

    /** `docio_init` on an empty file. */
    constructor (bs: nat, reuse: bool)
      requires 0 < bs && bs + META < TWO32
      ensures Valid() && docs == [] && gone == [] && once && disk == map[] && cur == NoBlock
      ensures this.bs == bs && this.reuse == reuse
    {
      this.bs := bs;
      this.reuse := reuse;
      disk := map[];
      cur := NoBlock;
      stale := [];
      live := {};
      docs, gone := [], [];
      once := true;
      new;
      assert AllRegions(disk, bs, docs) + gone + Rest(bs, cur) == [];
    }

    /** `filemgr_alloc`: any block that holds no document, with whatever bytes it has; without
        reuse, one never handed out before. */
    method Alloc() returns (b: int)
      requires Fit()
      modifies this`disk, this`live, this`once
      ensures Fit() && b !in old(live) && live == old(live) + {b}
      ensures b in disk && disk == old(disk)[b := disk[b]]
      ensures once == (old(once) && b !in old(disk)) && (!reuse ==> b !in old(disk))
    {
      ghost var top := Bounded(disk.Keys);
      assert top !in disk.Keys;
      b :| b !in live && (reuse || b !in disk);
      var junk: seq<int> := *;
      var link: Option<int> := *;
      if |junk| != bs {
        junk := ZeroBytes(bs);
      }
      once := once && b !in disk;
      disk := disk[b := Block(junk, link)];
      live := live + {b};
    }

    /** `_docio_read_doc_component`: follows next links until len bytes are read. */
    method Read(offset: int, len: nat) returns (r: Option<seq<int>>)
      requires Fit() && offset % (bs + META) <= bs
      ensures r == ReadRaw(disk, bs, offset / (bs + META), offset % (bs + META), len)
    {
      var block, out := offset / (bs + META), [];
      var pos: nat, rest: nat := offset % (bs + META), len;
      ghost var whole := ReadRaw(disk, bs, block, pos, len);
      assert whole.Some? ==> [] + whole.value == whole.value;
      while rest > 0
        invariant pos <= bs
        invariant var t := ReadRaw(disk, bs, block, pos, rest); whole == if t.None? then None else Some(out + t.value)
        decreases rest, pos
      {
        if block !in disk {
          return None;
        }
        var space := bs - pos;
        if space >= rest {
          out := out + disk[block].data[pos..pos + rest];
          pos, rest := pos + rest, 0;
          assert out + [] == out;
        } else {
          if disk[block].next.None? {
            return None;
          }
          ghost var t := ReadRaw(disk, bs, disk[block].next.value, 0, rest - space);
          assert t.Some? ==> out + (disk[block].data[pos..] + t.value) == out + disk[block].data[pos..] + t.value;
          out := out + disk[block].data[pos..];
          block, pos, rest := disk[block].next.value, 0, rest - space;
        }
      }
      assert out + [] == out;
      r := Some(out);
    }

    /** `filemgr_actual_stale_regions` of a readable document. */
    method StaleRegions(offset: int, len: nat) returns (rs: seq<Region>)
      requires Fit() && offset % (bs + META) <= bs
               && ReadRaw(disk, bs, offset / (bs + META), offset % (bs + META), len).Some?
      ensures rs == Regions(disk, bs, offset / (bs + META), offset % (bs + META), len)
    {
      hide Byte;
      var block := offset / (bs + META);
      var pos: nat, rest: nat := offset % (bs + META), len;
      ghost var whole := Regions(disk, bs, block, pos, len);
      rs := [];
      while rest > 0
        invariant pos <= bs && ReadRaw(disk, bs, block, pos, rest).Some?
        invariant whole == rs + Regions(disk, bs, block, pos, rest)
        decreases rest, pos
      {
        var space := bs - pos;
        if space <= rest {
          rs := rs + [Region(Byte(bs, block, pos), bs + META - pos)];
          rest := rest - space;
        } else {
          rs := rs + [Region(Byte(bs, block, pos), rest)];
          rest := 0;
        }
        if rest > 0 {
          block, pos := disk[block].next.value, 0;
        } else {
          pos := 0;
        }
      }
    }

    /** `filemgr_mark_stale` of a readable run of bytes. */
    method MarkStale(offset: int, len: nat)
      requires Fit() && offset % (bs + META) <= bs
               && ReadRaw(disk, bs, offset / (bs + META), offset % (bs + META), len).Some?
      modifies this`stale
      ensures stale == AddAll(old(stale), Regions(disk, bs, offset / (bs + META), offset % (bs + META), len))
    {
      if len > 0 {
        var rs := StaleRegions(offset, len);
        ghost var all := AddAll(stale, rs);
        var i := 0;
        while i < |rs|
          invariant i <= |rs| && AddAll(stale, rs[i..]) == all
        {
          assert rs[i..][1..] == rs[i + 1..];
          stale := AddStale(stale, rs[i]);
          i := i + 1;
        }
      }
    }

    /** The rest of the current block is given up. */
    method MarkTail()
      requires Fit() && cur.At?
      modifies this`stale
      ensures stale == AddAll(old(stale), Rest(bs, cur))
    {
      hide Byte, AddAll;
      if cur.pos < bs + META {
        ByteDecode(bs, cur.block, cur.pos);
        TailRegions(disk, bs, cur);
        MarkStale(Byte(bs, cur.block, cur.pos), bs - cur.pos);
      }
    }

    /** The current block is left: its rest becomes stale, and an empty one is free again. */
    method GiveUp()
      requires Fit() && stale == AddAll([], gone)
      modifies this`stale, this`gone, this`live, this`cur
      ensures Fit() && cur == NoBlock && gone == old(gone) + Rest(bs, old(cur)) && stale == AddAll([], gone)
      ensures live == if old(cur).At? && old(cur).pos == 0 then old(live) - {old(cur).block} else old(live)
    {
      hide AddAll, Rest;
      NoRest(bs, stale);
      AddAllConcat([], gone, Rest(bs, cur));
      if cur.At? {
        MarkTail();
        if cur.pos == 0 {
          live := live - {cur.block};
        }
      }
      gone := gone + Rest(bs, cur);
      cur := NoBlock;
    }

    /** The first steps of `docio_append_doc_raw`: a current block that can be written. */
    method Start(writable: bool) returns (ghost used: seq<int>)
      requires Valid()
      modifies this
      ensures Valid() && cur.At? && docs == old(docs) && Took(old(disk), old(once), disk, once, used)
      ensures if old(cur).At? && writable then cur == old(cur) && disk == old(disk) && used == []
              else cur.pos == 0 && used == [cur.block]
      ensures forall b :: b in used ==> b in live
      ensures gone == old(gone) + if writable then [] else Rest(bs, old(cur))
    {
      hide Tiles, Stored, AddAll, Rest, AllRegions, AllHeld, Filled;
      NoRest(bs, stale);
      used := [];
      if cur.At? && writable {
        return;
      }
      HeldPos(disk, bs, live, cur, docs);
      GiveUp();
      ghost var live1 := live;
      var b := Alloc();
      cur := At(b, 0);
      used := [b];
      assert disk.Keys == old(disk).Keys + {b};
      StartDone(old(disk), old(live), old(once), old(cur), old(gone), live1, disk, live, once, gone, docs, b, bs);
    }

    /** `filemgr_write_offset` to the current block, which is cached.  A write of no bytes is
        taken for a miss: it puts back the block below the cache, as it is in the file or in
        a temporary buffer. */
    method WriteHere(pos: nat, bytes: seq<int>, below: Block)
      requires cur.At? && cur.block in disk && |disk[cur.block].data| == bs == |below.data| && pos + |bytes| <= bs
      modifies this`disk
      ensures cur.block in disk && disk == old(disk)[cur.block := disk[cur.block]] && |disk[cur.block].data| == bs
      ensures bytes != [] ==> disk[cur.block].data[..pos] == old(disk)[cur.block].data[..pos]
                              && disk[cur.block].data[pos..pos + |bytes|] == bytes
                              && disk[cur.block].data[pos + |bytes|..] == old(disk)[cur.block].data[pos + |bytes|..]
                              && disk[cur.block].next == old(disk)[cur.block].next
      ensures bytes == [] ==> disk[cur.block] == below
    {
      if bytes != [] {
        disk := disk[cur.block := disk[cur.block].(data := Overwrite(disk[cur.block].data, pos, bytes))];
      } else {
        disk := disk[cur.block := below];
      }
    }

    /** The writes to the current block: its metadata, the bytes, and zeros behind them. */
    method PutHere(bytes: seq<int>, below: Block) returns (ghost data: seq<int>)
      requires Fit() && cur.At? && |bytes| <= bs - cur.pos && |below.data| == bs
      modifies this`disk, this`cur
      ensures Fit() && cur == At(old(cur).block, old(cur).pos + |bytes|) && disk.Keys == old(disk).Keys
      ensures var b, pos := old(cur).block, old(cur).pos;
              && disk == old(disk)[b := disk[b]] && |data| == bs && disk[b].data == FillZero(data, pos + |bytes|)
              && (bytes != [] ==> data[..pos] == old(disk)[b].data[..pos] && data[pos..pos + |bytes|] == bytes)
              && (bytes == [] ==> data == below.data)
      ensures Cleared() && (bytes != [] ==> Ended())
    {
      var block := cur.block;
      disk := disk[block := disk[block].(next := None)];
      WriteHere(cur.pos, bytes, below);
      cur := At(block, cur.pos + |bytes|);
      data := disk[block].data;
      disk := disk[block := disk[block].(data := FillZero(disk[block].data, cur.pos))];
      assert disk.Keys == old(disk).Keys;
    }

    /** A document that fits into the current block. */
    method AppendHere(bytes: seq<int>, below: Block) returns (offset: int)
      requires Valid() && cur.At? && |bytes| <= bs - cur.pos && |below.data| == bs
      modifies this
      ensures docs == old(docs) + [Doc(old(cur).block, old(cur).pos, bytes)]
      ensures offset == Byte(bs, old(cur).block, old(cur).pos)
      ensures stale == old(stale) && gone == old(gone) && once == old(once) && disk.Keys == old(disk).Keys
      ensures Cleared() && (bytes != [] ==> Ended()) && cur == At(old(cur).block, old(cur).pos + |bytes|)
      ensures Fit() && (old(Safe(bytes, true, below)) ==> Valid())
      ensures old(Safe(bytes, true, below)) <==> forall i :: 0 <= i < |old(docs)| ==> ReadsBack(disk, bs, old(docs)[i])
    {
      hide Tiles, AddAll, Rest, AllRegions, Byte, Regions, Stored, ReadsBack, Filled, AllHeld, Cleared, Ended, FillZero;
      ghost var live0, disk0, cur0, docs0 := live, disk, cur, docs;
      var block := cur.block;
      offset := Byte(bs, block, cur.pos);
      ghost var data := PutHere(bytes, below);
      HeldPos(disk0, bs, live, cur0, docs);
      HereExact(disk0, bs, live, cur0, disk, docs, bytes, below, data);
      ghost var d := Doc(block, cur0.pos, bytes);
      AllRegionsPut(disk, bs, docs, d);
      if bytes != [] || below.data[..cur0.pos] == disk0[block].data[..cur0.pos] {
        HereHeld(disk0, bs, live, cur0, disk, docs, bytes);
        if once {
          SimpleTiles(disk, disk0.Keys, bs, AllRegions(disk0, bs, docs), gone, block, cur0.pos, |bytes|);
        }
      }
      docs := docs + [d];
    }

    /** The allocation loop of `docio_append_doc_raw` for a document that does not fit into
        the current block. */
    method AllocList(size: nat) returns (list: seq<int>, fromNew: bool)
      requires Fit() && cur.At? && size > bs - cur.pos && size / bs < TWO32
      modifies this`disk, this`live, this`once
      ensures Fit() && Listed(old(disk), old(live), old(once), disk, live, once, list)
      ensures |list| > 0 && |list| <= size / bs + 1 && (fromNew <==> list[0] > cur.block + 1)
      ensures var start := if cur.pos < bs && !fromNew then bs - cur.pos else 0;
              && Fits(start, bs, |list|, size)
              && (size <= Off(start, bs, |list| - 1) <==> cur.pos == 0 && size % bs == 0 && !fromNew)
    {
      hide Fits, Listed, Off, U32;
      var offset := bs - cur.pos;
      U32Low(size / bs);
      var nblock, remain := U32(size / bs), size % bs;
      var more := remain > offset;
      var n := if more then nblock + 1 else nblock;
      fromNew := false;
      list := [];
      ListFits(size, bs, offset, false);
      ListFits(size, bs, offset, true);
      FitsSome(size, bs, offset, n);
      NothingListed(disk, live, once);
      var i := 0;
      while i < n
        invariant i <= n && |list| == i && n > 0 && cur == old(cur) && Fit()
        invariant Listed(old(disk), old(live), old(once), disk, live, once, list)
        invariant i == 0 ==> !fromNew && n == if more then nblock + 1 else nblock
        invariant more == (remain > offset || (fromNew && remain > 0)) && n == if more then nblock + 1 else nblock
        invariant i > 0 ==> (fromNew <==> list[0] > cur.block + 1)
        decreases nblock + 1 - i
      {
        ghost var disk1, live1, once1 := disk, live, once;
        var b := Alloc();
        ListedPut(old(disk), old(live), old(once), disk1, live1, once1, disk, live, once, list, b);
        list := list + [b];
        if i == 0 && b > cur.block + 1 {
          fromNew := true;
          if remain > 0 && !more {
            more := true;
            n := n + 1;
          }
        }
        i := i + 1;
      }
    }

    /** The writing loop of `docio_append_doc_raw`: only the last listed block is written in
        part.  offset is a 32-bit word. */
    method WriteList(list: seq<int>, bytes: seq<int>, start: nat, ghost image: seq<int>)
      requires 0 < bs < TWO32 && Distinct(list) && Fits(start, bs, |list|, |bytes|) && start <= bs
      requires |image| == |bytes| && forall j: nat :: j < |list| ==> PartOf(bytes, image, start, bs, j)
      requires (forall i :: 0 <= i < |list| ==> list[i] in disk) && forall b :: b in disk ==> |disk[b].data| == bs
      modifies this`disk, this`cur
      ensures Laid(disk, bs, list, image, start) && cur == EndOf(list, bs, start, |bytes|) && Cleared() && Ended()
      ensures disk.Keys == old(disk).Keys && (forall b :: b in disk ==> |disk[b].data| == bs)
      ensures forall b :: b in disk && b !in list ==> disk[b] == old(disk)[b]
    {
      hide Off, LaidAt, EndOf, U32, PartOf;
      var n := |list|;
      OffStep(start, bs, 0);
      OffStep(start, bs, n - 1);
      U32Low(start);
      var i, offset, remainsize := 0, start, |bytes| - start;
      if n > 1 { OffMono(start, bs, 0, n - 1); }
      while i < n
        invariant 0 <= i <= n && disk.Keys == old(disk).Keys && forall b :: b in disk ==> |disk[b].data| == bs
        invariant i < n ==> offset == U32(Off(start, bs, i)) && 0 <= remainsize == |bytes| - Off(start, bs, i)
        invariant forall j :: 0 <= j < i ==> LaidAt(disk, bs, list, image, start, j)
        invariant forall b :: b in disk && b !in list ==> disk[b] == old(disk)[b]
        invariant i == n ==> cur == EndOf(list, bs, start, |bytes|)
        invariant (i > 0 ==> Cleared()) && (i == n ==> Ended())
      {
        OffStep(start, bs, i);
        if i + 1 < n { OffMono(start, bs, i, n - 1); }
        EndAt(list, bs, start, |bytes|);
        WritePart(list, bytes, start, i, offset, remainsize, image);
        if remainsize >= bs {
          U32Add(Off(start, bs, i), bs);
          offset := U32(offset + bs);
          remainsize := remainsize - bs;
        }
        i := i + 1;
      }
    }

    /** The writes to one listed block: its metadata, its part, and zeros behind a part that is
        not a whole block. */
    method PutPart(block: int, next: Option<int>, part: seq<int>)
      requires block in disk && |disk[block].data| == bs && |part| <= bs
      modifies this`disk
      ensures block in disk && disk == old(disk)[block := disk[block]] && |disk[block].data| == bs
      ensures disk[block].data[..|part|] == part && (part != [] ==> disk[block].next == next)
      ensures ZeroFrom(disk[block].data, |part|)
    {
      disk := disk[block := disk[block].(next := next)];
      if part != [] {
        disk := disk[block := disk[block].(data := Overwrite(disk[block].data, 0, part))];
      } else {
        // a write of no bytes may put older contents of the block back
        var junk: Block := *;
        if |junk.data| == bs {
          disk := disk[block := junk];
        }
      }
      assert disk[block].data[..|part|] == part;
      if |part| < bs {
        disk := disk[block := disk[block].(data := FillZero(disk[block].data, |part|))];
      }
    }

    /** One turn of the writing loop; a part shorter than a block is the last one. */
    method WritePart(list: seq<int>, bytes: seq<int>, ghost start: nat, i: nat, offset: nat, remainsize: nat,
                     ghost image: seq<int>)
      requires bs > 0 && i < |list| && Distinct(list)
      requires offset == U32(Off(start, bs, i)) && Off(start, bs, i) + remainsize == |bytes| == |image|
      requires PartOf(bytes, image, start, bs, i)
      requires remainsize < bs ==> i == |list| - 1
      requires list[i] in disk && |disk[list[i]].data| == bs
      requires forall j :: 0 <= j < i ==> LaidAt(disk, bs, list, image, start, j)
      modifies this`disk, this`cur
      ensures list[i] in disk && disk == old(disk)[list[i] := disk[list[i]]] && |disk[list[i]].data| == bs
      ensures forall j :: 0 <= j <= i ==> LaidAt(disk, bs, list, image, start, j)
      ensures cur == At(list[i], if remainsize >= bs then bs else remainsize) && Cleared()
      ensures remainsize > 0 ==> disk[list[i]].next == if i + 1 < |list| then Some(list[i + 1]) else None
    {
      hide Off, LaidAt, U32;
      ghost var disk1 := disk;
      var next := if i + 1 < |list| then Some(list[i + 1]) else None;
      if remainsize >= bs {
        PutPart(list[i], next, bytes[offset..offset + bs]);
        cur := At(list[i], bs);
      } else {
        assert i == |list| - 1;
        PutPart(list[i], next, bytes[offset..offset + remainsize]);
        cur := At(list[i], remainsize);
      }
      PartWritten(disk1, disk, bs, list, image, start, i);
    }

    /** The front part of a document in the rest of the current block, linked to next. */
    method WriteFront(next: int, bytes: seq<int>)
      requires cur.At? && cur.block in disk && |disk[cur.block].data| == bs && cur.pos + |bytes| == bs
      modifies this`disk
      ensures cur.block in disk && disk == old(disk)[cur.block := disk[cur.block]] && |disk[cur.block].data| == bs
      ensures disk[cur.block].data[..cur.pos] == old(disk)[cur.block].data[..cur.pos]
              && disk[cur.block].data[cur.pos..] == bytes
      ensures disk[cur.block].next == Some(next)
    {
      disk := disk[cur.block := disk[cur.block].(next := Some(next))];
      disk := disk[cur.block := disk[cur.block].(data := Overwrite(disk[cur.block].data, cur.pos, bytes))];
    }

    /** A document that starts in the current block and goes on in the listed ones. */
    method AppendFront(list: seq<int>, bytes: seq<int>, ghost disk0: Disk, ghost live0: set<int>, ghost once0: bool)
      requires Fit() && cur.At? && cur.pos < bs && bs - cur.pos < |bytes| && cur.block in live0
               && AllHeld(disk0, bs, live0, cur, docs) && stale == AddAll([], gone)
      requires Listed(disk0, live0, once0, disk, live, once, list) && live0 <= disk0.Keys
               && Fits(bs - cur.pos, bs, |list|, |bytes|)
      requires once0 ==> Tiles(disk0.Keys, bs, AllRegions(disk0, bs, docs) + gone + Rest(bs, cur))
      modifies this
      ensures once == old(once) && disk.Keys == old(disk).Keys && stale == old(stale) && gone == old(gone)
      ensures Valid()
      ensures docs == old(docs) + [Doc(old(cur).block, old(cur).pos, Image(bytes, old(cur).pos, bs))]
      ensures Cleared() && Ended()
    {
      hide Tiles, AddAll, Rest, AllRegions, Regions, Off, Laid, Stored, Listed, EndOf, AllHeld, Kept, Fits, Filled,
           Image, PartOf, Cleared, Ended;
      ghost var cur0, disk1, live1, once1 := cur, disk, live, once;
      ListedFacts(disk0, live0, once0, disk, live, once, list, cur.block);
      FitsFacts(bs - cur.pos, bs, list, |bytes|);
      var start := bs - cur.pos;
      ghost var image := Image(bytes, cur.pos, bs);
      forall j: nat | j < |list| ensures PartOf(bytes, image, start, bs, j) {
        ImagePart(bytes, cur.pos, bs, start, j);
      }
      ImageFront(bytes, cur.pos, bs);
      WriteFront(list[0], bytes[..start]);
      WriteList(list, bytes, start, image);
      FrontDone(disk0, live0, once0, cur0, disk1, live1, once1, disk, cur, gone, docs, list, image, bs);
      docs := docs + [Doc(cur0.block, cur0.pos, image)];
    }

    /** A document that lies in the listed blocks alone; the rest of the old block is given
        up. */
    method AppendNew(list: seq<int>, bytes: seq<int>, ghost disk0: Disk, ghost live0: set<int>, ghost once0: bool)
      requires Fit() && cur.At? && bytes != [] && cur.block in live0 && AllHeld(disk0, bs, live0, cur, docs)
               && stale == AddAll([], gone)
      requires Listed(disk0, live0, once0, disk, live, once, list) && live0 <= disk0.Keys
               && Fits(0, bs, |list|, |bytes|)
      requires once0 ==> Tiles(disk0.Keys, bs, AllRegions(disk0, bs, docs) + gone + Rest(bs, cur))
      modifies this
      ensures once == old(once) && disk.Keys == old(disk).Keys && gone == old(gone) + Rest(bs, old(cur))
      ensures Valid() && |list| > 0 && docs == old(docs) + [Doc(list[0], 0, Image(bytes, 0, bs))]
      ensures Cleared() && Ended()
    {
      hide Tiles, AddAll, Rest, AllRegions, Regions, Off, Laid, Stored, Listed, EndOf, AllHeld, Kept, Fits, Filled,
           Image, PartOf, Cleared, Ended;
      ghost var cur0, disk1, live1, once1, gone0 := cur, disk, live, once, gone;
      ListedFacts(disk0, live0, once0, disk, live, once, list, cur.block);
      FitsFacts(0, bs, list, |bytes|);
      ghost var image := Image(bytes, 0, bs);
      forall j: nat | j < |list| ensures PartOf(bytes, image, 0, bs, j) {
        ImagePart(bytes, 0, bs, 0, j);
      }
      MarkTail();
      AddAllConcat([], gone, Rest(bs, cur));
      gone := gone + Rest(bs, cur);
      if cur.pos == 0 {
        live := live - {cur.block};
      }
      WriteList(list, bytes, 0, image);
      NewDone(disk0, live0, once0, cur0, disk1, live1, once1, disk, live, cur, gone0, gone, docs, list, image, bs);
      docs := docs + [Doc(list[0], 0, image)];
    }

    /** A document that does not fit into the current block. */
    method AppendLong(bytes: seq<int>) returns (offset: int, ghost list: seq<int>)
      requires Valid() && cur.At? && |bytes| > bs - cur.pos && |bytes| / bs < TWO32
      modifies this
      ensures Valid() && Cleared() && Ended() && Took(old(disk), old(once), disk, once, list)
      ensures (forall b :: b in list ==> b !in old(live))
      ensures |docs| == |old(docs)| + 1 && docs == old(docs) + [docs[|old(docs)|]]
      ensures var d := docs[|old(docs)|];
              && d.pos <= bs && d.bytes == Image(bytes, d.pos, bs) && offset == Byte(bs, d.block, d.pos)
              && (d.pos == 0 || d.pos == old(cur).pos)
      ensures gone == old(gone) || gone == old(gone) + Rest(bs, old(cur))
    {
      hide Tiles, AddAll, Rest, AllRegions, Stored, Listed, AllHeld, Fits, Byte, Filled, Off, Image, Took;
      ghost var disk0, live0, once0 := disk, live, once;
      var fromNew, blocks;
      blocks, fromNew := AllocList(|bytes|);
      list := blocks;
      ListedTook(disk0, live0, once0, disk, live, once, list);
      ghost var disk1 := disk;
      HeldPos(disk0, bs, live0, cur, docs);
      if bs - cur.pos > 0 && !fromNew {
        offset := Byte(bs, cur.block, cur.pos);
        AppendFront(blocks, bytes, disk0, live0, once0);
      } else {
        offset := Byte(bs, blocks[0], 0);
        AppendNew(blocks, bytes, disk0, live0, once0);
      }
      TookKeys(disk0, once0, disk1, once, disk, list);
    }

    /** `docio_append_doc_raw`: writable says whether the current block may still be written,
        below is what lies under the cache at the block written to, and used are the blocks
        that were handed out.  What is stored is the image of the document. */
    method Append(bytes: seq<int>, writable: bool, below: Block) returns (offset: int, ghost used: seq<int>)
      requires Valid() && |below.data| == bs && |bytes| / bs < TWO32
      modifies this
      ensures |docs| == |old(docs)| + 1 && docs[..|old(docs)|] == old(docs)
      ensures var d := docs[|old(docs)|];
              && d.pos <= bs && d.bytes == Image(bytes, d.pos, bs) && offset == Byte(bs, d.block, d.pos)
              && (d.pos == 0 || (old(cur).At? && d.pos == old(cur).pos))
              && (old(Safe(bytes, writable, below)) ==>
                    (ReadRaw(disk, bs, d.block, d.pos, |bytes|) == Some(bytes) <==> Repeats(bytes, d.pos, bs)))
      ensures Cleared() && (bytes != [] ==> Ended())
      ensures Took(old(disk), old(once), disk, once, used)
      ensures old(gone) <= gone && Sum(gone) <= Sum(old(gone)) + 2 * (bs + META)
      ensures old(Safe(bytes, writable, below)) ==>
                Valid() && (once ==> (Tiled() <==> AllFit([], gone))) && (once && Sum(gone) < TWO32 ==> Tiled())
      ensures !reuse ==> once
      ensures old(Safe(bytes, writable, below)) <==>
              forall i :: 0 <= i < |old(docs)| ==> ReadsBack(disk, bs, old(docs)[i])
    {
      hide Tiles, AddAll, Rest, AllRegions, Stored, AllHeld, Byte, Filled, ReadsBack, Took, Image, AllFit, Sum, ReadRaw,
           Repeats, Covered, Tiled, Cleared, Ended;
      used := Start(writable);
      ghost var disk1, once1, live1 := disk, once, live;
      RestSum(bs, old(cur), old(gone));
      RestSum(bs, cur, gone);
      ghost var list;
      offset, list := AppendAt(bytes, below);
      TookMore(old(disk), old(once), used, disk1, live1, once1, disk, once, list);
      used := used + list;
      if old(Safe(bytes, writable, below)) {
        StoredExact(|old(docs)|, bytes);
        if once { StaleTiles(); }
      }
    }

    /** The same with a current block that can be written. */
    method AppendAt(bytes: seq<int>, below: Block) returns (offset: int, ghost list: seq<int>)
      requires Valid() && cur.At? && |below.data| == bs && |bytes| / bs < TWO32
      modifies this
      ensures |docs| == |old(docs)| + 1 && docs[..|old(docs)|] == old(docs)
      ensures var d := docs[|old(docs)|];
              && d.pos <= bs && d.bytes == Image(bytes, d.pos, bs) && offset == Byte(bs, d.block, d.pos)
              && (d.pos == 0 || d.pos == old(cur).pos)
      ensures Cleared() && (bytes != [] ==> Ended())
      ensures Took(old(disk), old(once), disk, once, list) && forall b :: b in list ==> b !in old(live)
      ensures gone == old(gone) || gone == old(gone) + Rest(bs, old(cur))
      ensures Fit() && (old(Safe(bytes, true, below)) ==> Valid())
      ensures old(Safe(bytes, true, below)) <==> forall i :: 0 <= i < |old(docs)| ==> ReadsBack(disk, bs, old(docs)[i])
    {
      hide Tiles, AddAll, Rest, AllRegions, Stored, AllHeld, Byte, Filled, ReadsBack, Took, Image, ReadRaw, Covered,
           Cleared, Ended;
      ghost var disk1, once1, docs1 := disk, once, docs;
      list := [];
      if |bytes| <= bs - cur.pos {
        ImageHere(bytes, cur.pos, bs);
        offset := AppendHere(bytes, below);
        NoneTook(disk1, once1, disk);
      } else {
        offset, list := AppendLong(bytes);
        FirstRead(disk, bs, live, cur, docs1, docs);
      }
    }

    /** An append reads back as given if and only if its image is what was given. */
    lemma StoredExact(i: nat, bytes: seq<int>)
      requires Valid() && i < |docs| && docs[i].pos <= bs && docs[i].bytes == Image(bytes, docs[i].pos, bs)
      ensures ReadRaw(disk, bs, docs[i].block, docs[i].pos, |bytes|) == Some(bytes) <==> Repeats(bytes, docs[i].pos, bs)
    {
      hide Stored, Image, Repeats;
      HeldReads(disk, bs, live, cur, docs);
      assert ReadsBack(disk, bs, docs[i]);
      ImageExact(bytes, docs[i].pos, bs);
    }

    /** What is stored for a document, its image, reads back byte for byte from its offset. */
    method ReadBack(offset: int, len: nat, ghost i: nat) returns (r: Option<seq<int>>)
      requires Valid() && i < |docs| && docs[i].pos <= bs && offset == Byte(bs, docs[i].block, docs[i].pos)
               && len == |docs[i].bytes|
      ensures r == Some(docs[i].bytes)
    {
      hide Byte, Stored;
      ghost var d := docs[i];
      ByteDecode(bs, d.block, d.pos);
      if d.bytes != [] {
        StoredReads(disk, bs, live, cur, d.block, d.pos, d.bytes);
      }
      r := Read(offset, len);
    }

    /** A whole run of appends: the image of every document reads back from the offset it was
        given, and the blocks are covered if none was handed out twice.  The run ends early
        only at an empty document that is not safe to append. */
    method AppendAll(inputs: seq<seq<int>>, writable: seq<bool>, below: seq<Block>)
      returns (offsets: seq<int>, ghost used: seq<int>)
      requires Valid() && |writable| == |inputs| == |below| && forall i :: 0 <= i < |below| ==> |below[i].data| == bs
      requires forall i :: 0 <= i < |inputs| ==> |inputs[i]| / bs < TWO32
      modifies this
      ensures Valid() && |offsets| <= |inputs|
      ensures |offsets| < |inputs| ==> !Safe(inputs[|offsets|], writable[|offsets|], below[|offsets|])
      ensures forall i :: 0 <= i < |offsets| ==> offsets[i] % (bs + META) <= bs
      ensures forall i :: 0 <= i < |offsets| ==>
                var block, pos := offsets[i] / (bs + META), offsets[i] % (bs + META);
                && ReadRaw(disk, bs, block, pos, |inputs[i]|) == Some(Image(inputs[i], pos, bs))
                && (|inputs[i]| <= TWO32 ==> ReadRaw(disk, bs, block, pos, |inputs[i]|) == Some(inputs[i]))
      ensures |docs| == |old(docs)| + |offsets| && docs[..|old(docs)|] == old(docs)
      ensures disk.Keys == old(disk).Keys + (set b | b in used)
      ensures once <==> old(once) && Distinct(used) && forall b :: b in used ==> b !in old(disk)
      ensures (once ==> Covered() && (Tiled() <==> AllFit([], gone))) && (!reuse ==> once)
      ensures |offsets| > 0 ==> Cleared()
    {
      hide Byte, ReadRaw, AllHeld, Tiles, AllRegions, Rest, Filled, ReadsBack, Image, AllFit, Sum, AddAll, Repeats;
      offsets, used := [], [];
      ghost var docs0 := docs;
      NoneUsed(disk, once);
      for k := 0 to |inputs|
        invariant Valid() && |offsets| == k && |docs| == |docs0| + k && docs[..|docs0|] == docs0
        invariant Ran(old(disk), old(once), disk, once, used) && (k > 0 ==> Cleared())
        invariant forall i :: 0 <= i < k ==> Given(docs[|docs0| + i], inputs[i], bs, offsets[i])
      {
        hide Ran, Took, Given;
        if !Safe(inputs[k], writable[k], below[k]) {
          break;
        }
        ghost var before, disk1, once1 := docs, disk, once;
        ghost var more;
        var offset;
        offset, more := Append(inputs[k], writable[k], below[k]);
        RanMore(old(disk), old(once), disk1, once1, used, disk, once, more);
        used := used + more;
        GivenAs(docs[|docs0| + k], inputs[k], bs, offset);
        assert forall i :: 0 <= i < |docs0| + k ==> docs[i] == before[i];
        offsets := offsets + [offset];
      }
      if once { StaleTiles(); }
      forall i | 0 <= i < |offsets|
        ensures offsets[i] % (bs + META) <= bs
        ensures offsets[i] % (bs + META) <= bs ==>
                  var block, pos := offsets[i] / (bs + META), offsets[i] % (bs + META);
                  && ReadRaw(disk, bs, block, pos, |inputs[i]|) == Some(Image(inputs[i], pos, bs))
                  && (|inputs[i]| <= TWO32 ==> ReadRaw(disk, bs, block, pos, |inputs[i]|) == Some(inputs[i]))
      {
        var d := docs[|docs0| + i];
        assert Given(d, inputs[i], bs, offsets[i]);
        Readable(|docs0| + i);
        ByteDecode(bs, d.block, d.pos);
        if |inputs[i]| <= TWO32 { ImageSmall(inputs[i], d.pos, bs); }
      }
    }

    lemma Readable(i: nat)
      requires Valid() && i < |docs|
      ensures docs[i].pos <= bs && bs > 0
      ensures var x := Byte(bs, docs[i].block, docs[i].pos);
              x % (bs + META) <= bs && ReadRaw(disk, bs, x / (bs + META), x % (bs + META),
                                               |docs[i].bytes|) == Some(docs[i].bytes)
    {
      hide Byte, Stored;
      var d := docs[i];
      ByteDecode(bs, d.block, d.pos);
      if d.bytes != [] {
        StoredReads(disk, bs, live, cur, d.block, d.pos, d.bytes);
      }
    }
  }

  lemma NewDone(disk0: Disk, live0: set<int>, once0: bool, cur0: Cursor, disk1: Disk, live1: set<int>, once1: bool,
                disk: Disk, live: set<int>,
                cur: Cursor, gone0: seq<Region>, gone: seq<Region>, docs: seq<Doc>, list: seq<int>, bytes: seq<int>,
                bs: nat)
    requires Listed(disk0, live0, once0, disk1, live1, once1, list) && live0 <= disk0.Keys && cur0.At?
             && cur0.block in live0 && bs > 0
    requires cur0.pos <= bs && bytes != [] && Fits(0, bs, |list|, |bytes|) && cur == EndOf(list, bs, 0, |bytes|)
    requires live == if cur0.pos == 0 then live1 - {cur0.block} else live1
    requires AllHeld(disk0, bs, live0, cur0, docs) && Laid(disk, bs, list, bytes, 0)
    requires disk.Keys == disk1.Keys && (forall b :: b in disk1 && b !in list ==> disk[b] == disk1[b])
    requires once0 ==> Tiles(disk0.Keys, bs, AllRegions(disk0, bs, docs) + gone0 + Rest(bs, cur0))
    requires gone == gone0 + Rest(bs, cur0)
    ensures AllHeld(disk, bs, live, cur, docs + [Doc(list[0], 0, bytes)]) && cur.At? && cur.pos <= bs
            && cur.block in live
    ensures (forall i :: 0 <= i < |docs| ==> docs[i].pos <= bs)
            && Filled(AllRegions(disk, bs, docs + [Doc(list[0], 0, bytes)]), bs, cur)
    ensures once1 ==>
              Tiles(disk.Keys, bs, AllRegions(disk, bs, docs + [Doc(list[0], 0, bytes)]) + gone + Rest(bs, cur))
  {
    hide Tiles, Rest, AllRegions, Regions, Off, Laid, Stored, Listed, EndOf, AllHeld, Kept, Fits, Filled;
    HeldPos(disk0, bs, live0, cur0, docs);
    ListedFacts(disk0, live0, once0, disk1, live1, once1, list, cur0.block);
    FitsFacts(0, bs, list, |bytes|);
    NewKept(disk0, live0, once0, cur0, disk1, live1, once1, disk, live, list, cur);
    AllKept(disk0, bs, live0, cur0, disk, live, cur, docs);
    ChainStored(disk, bs, live, list, bytes, 0, 0);
    OffStep(0, bs, 0);
    assert bytes[0..] == bytes;
    AddDoc(disk, bs, live, cur, docs, Doc(list[0], 0, bytes));
    FilledList(disk, bs, AllRegions(disk, bs, docs), list, bytes, 0);
    if once1 {
      ListTiles(disk, disk0.Keys, bs, AllRegions(disk0, bs, docs), gone0, cur0, gone, list, bytes);
    }
  }

  /** Writing only listed blocks keeps all live ones. */
  lemma NewKept(disk: Disk, live: set<int>, once: bool, cur: Cursor, disk1: Disk, live1: set<int>, once1: bool,
                disk': Disk, live': set<int>, list: seq<int>, cur': Cursor)
    requires Listed(disk, live, once, disk1, live1, once1, list) && live <= disk.Keys && cur.At? && cur.block in live
    requires live' == if cur.pos == 0 then live1 - {cur.block} else live1
    requires disk'.Keys == disk1.Keys && (forall b :: b in disk1 && b !in list ==> disk'[b] == disk1[b])
    requires cur'.At? && cur'.block in list
    ensures Kept(disk, live, cur, disk', live', cur')
  {
  }

  lemma ListedFacts(disk: Disk, live: set<int>, once: bool, disk': Disk, live': set<int>, once': bool, list: seq<int>,
                    block: int)
    requires Listed(disk, live, once, disk', live', once', list) && block in live && live <= disk.Keys
    ensures Distinct(list) && block !in list && block in disk' && disk'[block] == disk[block] && block in live'
    ensures forall i :: 0 <= i < |list| ==> list[i] in disk' && list[i] in live' && list[i] !in live
    ensures disk'.Keys == disk.Keys + (set b | b in list)
    ensures once' ==> once && forall i :: 0 <= i < |list| ==> list[i] !in disk
  {
    assert forall i :: 0 <= i < |list| ==> list[i] in (set b | b in list);
  }

  lemma FitsFacts(s: nat, bs: nat, list: seq<int>, size: nat)
    requires Fits(s, bs, |list|, size)
    ensures |list| > 0 && Off(s, bs, |list| - 1) <= size && EndOf(list, bs, s, size).At?
            && EndOf(list, bs, s, size).pos <= bs
    ensures EndOf(list, bs, s, size).block == list[|list| - 1]
  {
    OffStep(s, bs, |list| - 1);
  }

  lemma HeldPos(disk: Disk, bs: nat, live: set<int>, cur: Cursor, docs: seq<Doc>)
    requires AllHeld(disk, bs, live, cur, docs)
    ensures forall i :: 0 <= i < |docs| ==> docs[i].pos <= bs
  {
  }

  lemma AddDoc(disk: Disk, bs: nat, live: set<int>, cur: Cursor, docs: seq<Doc>, d: Doc)
    requires bs > 0 && AllHeld(disk, bs, live, cur, docs) && DocHeld(disk, bs, live, cur, d)
    ensures AllHeld(disk, bs, live, cur, docs + [d])
    ensures AllRegions(disk, bs, docs + [d]) == AllRegions(disk, bs, docs)
            + Regions(disk, bs, d.block, d.pos, |d.bytes|)
  {
    hide Stored, Regions, AllRegions;
    AllRegionsPut(disk, bs, docs, d);
  }

  lemma FrontDone(disk0: Disk, live0: set<int>, once0: bool, cur0: Cursor, disk1: Disk, live1: set<int>, once1: bool,
                  disk: Disk, cur: Cursor, gone: seq<Region>, docs: seq<Doc>, list: seq<int>, bytes: seq<int>, bs: nat)
    requires Listed(disk0, live0, once0, disk1, live1, once1, list) && live0 <= disk0.Keys && cur0.At?
             && cur0.block in live0 && bs > 0
    requires cur0.pos < bs && bs - cur0.pos < |bytes| && Fits(bs - cur0.pos, bs, |list|, |bytes|)
             && cur == EndOf(list, bs, bs - cur0.pos, |bytes|)
    requires AllHeld(disk0, bs, live0, cur0, docs) && Laid(disk, bs, list, bytes, bs - cur0.pos)
             && |disk0[cur0.block].data| == bs
    requires disk.Keys == disk1.Keys
             && (forall b :: b in disk1 && b !in list && b != cur0.block ==> disk[b] == disk1[b])
    requires |disk[cur0.block].data| == bs && disk[cur0.block].data[..cur0.pos] == disk0[cur0.block].data[..cur0.pos]
    requires disk[cur0.block].data[cur0.pos..] == bytes[..bs - cur0.pos] && disk[cur0.block].next == Some(list[0])
    requires once0 ==> Tiles(disk0.Keys, bs, AllRegions(disk0, bs, docs) + gone + Rest(bs, cur0))
    ensures AllHeld(disk, bs, live1, cur, docs + [Doc(cur0.block, cur0.pos, bytes)]) && cur.At? && cur.pos <= bs
            && cur.block in live1
    ensures (forall i :: 0 <= i < |docs| ==> docs[i].pos <= bs)
            && Filled(AllRegions(disk, bs, docs + [Doc(cur0.block, cur0.pos, bytes)]), bs, cur)
    ensures once1 ==>
              Tiles(disk.Keys, bs, AllRegions(disk, bs, docs + [Doc(cur0.block, cur0.pos, bytes)]) + gone
                    + Rest(bs, cur))
  {
    hide Tiles, Rest, AllRegions, Regions, Off, Laid, Stored, Listed, EndOf, AllHeld, Kept, Fits, Filled;
    var start := bs - cur0.pos;
    HeldPos(disk0, bs, live0, cur0, docs);
    ListedFacts(disk0, live0, once0, disk1, live1, once1, list, cur0.block);
    FitsFacts(start, bs, list, |bytes|);
    FrontKept(disk0, live0, once0, cur0, disk1, live1, once1, disk, bs, list, cur);
    AllKept(disk0, bs, live0, cur0, disk, live1, cur, docs);
    ChainStored(disk, bs, live1, list, bytes, start, 0);
    FrontStored(disk, bs, live1, cur, cur0, list, bytes);
    AddDoc(disk, bs, live1, cur, docs, Doc(cur0.block, cur0.pos, bytes));
    FrontRegions(disk, bs, cur0.block, cur0.pos, list[0], |bytes|);
    FilledList(disk, bs, AllRegions(disk, bs, docs), list, bytes, start);
    FilledMore(AllRegions(disk, bs, docs), Region(Byte(bs, cur0.block, cur0.pos), bs + META - cur0.pos),
               Regions(disk, bs, list[0], 0, |bytes| - start), bs, cur);
    if once1 {
      FrontTiles(disk, disk0.Keys, bs, AllRegions(disk0, bs, docs), gone, cur0.block, cur0.pos, list, bytes);
    }
  }

  /** Writing the rest of the current block and the listed ones keeps what lies behind. */
  lemma FrontKept(disk: Disk, live: set<int>, once: bool, cur: Cursor, disk1: Disk, live1: set<int>, once1: bool,
                  disk': Disk, bs: nat, list: seq<int>, cur': Cursor)
    requires Listed(disk, live, once, disk1, live1, once1, list) && live <= disk.Keys && cur.At? && cur.block in live
    requires disk'.Keys == disk1.Keys
             && (forall b :: b in disk1 && b !in list && b != cur.block ==> disk'[b] == disk1[b])
    requires |disk[cur.block].data| == bs && cur.pos <= bs && |disk'[cur.block].data| == bs
             && disk'[cur.block].data[..cur.pos] == disk[cur.block].data[..cur.pos]
    requires cur'.At? && cur'.block in list
    ensures Kept(disk, live, cur, disk', live1, cur')
  {
  }

  lemma FrontStored(disk: Disk, bs: nat, live: set<int>, cur: Cursor, cur0: Cursor, list: seq<int>, bytes: seq<int>)
    requires bs > 0 && cur0.At? && cur0.pos < bs && bs - cur0.pos < |bytes| && |list| > 0 && cur.At?
             && cur.block != cur0.block
    requires cur0.block in disk && cur0.block in live && |disk[cur0.block].data| == bs
             && disk[cur0.block].next == Some(list[0])
    requires disk[cur0.block].data[cur0.pos..] == bytes[..bs - cur0.pos]
    requires Stored(disk, bs, live, cur, list[0], 0, bytes[Off(bs - cur0.pos, bs, 0)..])
    ensures Stored(disk, bs, live, cur, cur0.block, cur0.pos, bytes)
  {
    OffStep(bs - cur0.pos, bs, 0);
  }

  /** What the allocation loop has done so far. */
  ghost predicate Listed(disk: Disk, live: set<int>, once: bool, disk': Disk, live': set<int>, once': bool,
                         list: seq<int>) {
    && Distinct(list)
    && live' == live + (set b | b in list)
    && disk'.Keys == disk.Keys + (set b | b in list)
    && (forall i :: 0 <= i < |list| ==> list[i] !in live)
    && (forall b :: b in disk && b !in list ==> disk'[b] == disk[b])
    && once' == (once && forall i :: 0 <= i < |list| ==> list[i] !in disk)
  }

  lemma NothingListed(disk: Disk, live: set<int>, once: bool)
    ensures Listed(disk, live, once, disk, live, once, [])
  {
  }

  lemma ListedPut(disk: Disk, live: set<int>, once: bool, disk1: Disk, live1: set<int>, once1: bool,
                  disk2: Disk, live2: set<int>, once2: bool, list: seq<int>, b: int)
    requires Listed(disk, live, once, disk1, live1, once1, list) && b !in live1 && live2 == live1 + {b}
    requires b in disk2 && disk2 == disk1[b := disk2[b]] && once2 == (once1 && b !in disk1)
    ensures Listed(disk, live, once, disk2, live2, once2, list + [b])
  {
    assert (set x | x in list + [b]) == (set x | x in list) + {b};
    assert forall i :: 0 <= i < |list| ==> (list + [b])[i] == list[i] && list[i] in (set x | x in list);
  }

  lemma FitsSome(size: nat, bs: nat, offset: nat, n: nat)
    requires bs > 0 && offset <= bs && size > offset && n == if size % bs > offset then size / bs + 1 else size / bs
    ensures n > 0
  {
  }

  /** One step of the writing loop. */
  lemma PartWritten(disk: Disk, disk': Disk, bs: nat, list: seq<int>, bytes: seq<int>, start: nat, i: nat)
    requires bs > 0 && i < |list| && Distinct(list) && Off(start, bs, i) <= |bytes| && list[i] in disk
             && |disk[list[i]].data| == bs
    requires forall j :: 0 <= j < i ==> LaidAt(disk, bs, list, bytes, start, j)
    requires list[i] in disk' && disk' == disk[list[i] := disk'[list[i]]]
    requires var k := PartLen(start, bs, i, |bytes|);
             |disk'[list[i]].data| == bs && disk'[list[i]].data[..k] == bytes[Off(start, bs, i)..Off(start, bs, i) + k]
    requires i + 1 < |list| ==> disk'[list[i]].next == Some(list[i + 1])
    ensures forall j :: 0 <= j <= i ==> LaidAt(disk', bs, list, bytes, start, j)
  {
    hide Off, PartLen;
    forall j: nat | j <= i ensures LaidAt(disk', bs, list, bytes, start, j) {
      if j < i {
        assert LaidAt(disk, bs, list, bytes, start, j);
        assert list[j] != list[i];
      }
    }
  }

  lemma EndAt(list: seq<int>, bs: nat, s: nat, size: nat)
    requires |list| > 0 && Off(s, bs, |list| - 1) <= size
    ensures EndOf(list, bs, s, size) == At(list[|list| - 1], size - Off(s, bs, |list| - 1))
  {
  }

  lemma NoRest(bs: nat, stale: seq<Region>)
    ensures Rest(bs, NoBlock) == [] && AddAll(stale, []) == stale
  {
  }

  /** The documents that were there read back from a valid state that has one more. */
  lemma FirstRead(disk: Disk, bs: nat, live: set<int>, cur: Cursor, docs: seq<Doc>, docs': seq<Doc>)
    requires bs > 0 && AllHeld(disk, bs, live, cur, docs') && |docs| <= |docs'| && docs'[..|docs|] == docs
    ensures forall i :: 0 <= i < |docs| ==> ReadsBack(disk, bs, docs[i])
  {
    hide AllHeld, ReadsBack;
    HeldReads(disk, bs, live, cur, docs');
    assert forall i :: 0 <= i < |docs| ==> docs[i] == docs'[i];
  }

  /** A new current block, after the old one was given up. */
  lemma StartDone(disk0: Disk, live0: set<int>, once0: bool, cur0: Cursor, gone0: seq<Region>, live1: set<int>,
                  disk: Disk, live: set<int>, once: bool, gone: seq<Region>, docs: seq<Doc>, b: int, bs: nat)
    requires bs > 0 && AllHeld(disk0, bs, live0, cur0, docs) && live0 <= disk0.Keys && (cur0.At? ==> cur0.pos <= bs)
    requires cur0.At? ==> cur0.block in live0
    requires live1 == if cur0.At? && cur0.pos == 0 then live0 - {cur0.block} else live0
    requires b !in live1 && live == live1 + {b} && b in disk && disk == disk0[b := disk[b]] && |disk[b].data| == bs
    requires forall x :: x in disk0 ==> |disk0[x].data| == bs
    requires once == (once0 && b !in disk0) && gone == gone0 + Rest(bs, cur0)
    requires (forall i :: 0 <= i < |docs| ==> docs[i].pos <= bs)
    requires once0 ==> Tiles(disk0.Keys, bs, AllRegions(disk0, bs, docs) + gone0 + Rest(bs, cur0))
    ensures AllHeld(disk, bs, live, At(b, 0), docs) && Filled(AllRegions(disk, bs, docs), bs, At(b, 0))
    ensures once ==> Tiles(disk.Keys, bs, AllRegions(disk, bs, docs) + gone + Rest(bs, At(b, 0)))
  {
    hide Tiles, Stored, Rest, AllRegions, AllHeld;
    AllKept(disk0, bs, live0, cur0, disk, live, At(b, 0), docs);
    if once {
      StartTiles(disk0.Keys, bs, AllRegions(disk0, bs, docs), gone0, cur0, gone, b);
      assert disk.Keys == disk0.Keys + {b};
    }
  }

  /** Writing behind the cursor in the current block. */
  lemma HereKept(disk: Disk, live: set<int>, cur: Cursor, disk': Disk, cur': Cursor, bs: nat, bytes: seq<int>)
    requires cur.At? && cur.block in disk && cur.block in live && |disk[cur.block].data| == bs
             && cur.pos + |bytes| <= bs
    requires cur' == At(cur.block, cur.pos + |bytes|) && cur.block in disk'
             && disk' == disk[cur.block := disk'[cur.block]]
    requires |disk'[cur.block].data| == bs && disk'[cur.block].data[..cur.pos] == disk[cur.block].data[..cur.pos]
    requires disk'[cur.block].data[cur.pos..cur.pos + |bytes|] == bytes
    ensures Kept(disk, live, cur, disk', live, cur')
    ensures Stored(disk', bs, live, cur', cur.block, cur.pos, bytes)
  {
  }

  /** A document in the current block, behind which everything stays. */
  lemma HereHeld(disk: Disk, bs: nat, live: set<int>, cur: Cursor, disk': Disk, docs: seq<Doc>, bytes: seq<int>)
    requires bs > 0 && AllHeld(disk, bs, live, cur, docs) && cur.At? && cur.block in disk && cur.block in live
    requires |disk[cur.block].data| == bs && cur.pos + |bytes| <= bs
    requires cur.block in disk' && disk' == disk[cur.block := disk'[cur.block]] && |disk'[cur.block].data| == bs
    requires disk'[cur.block].data[..cur.pos] == disk[cur.block].data[..cur.pos]
    requires disk'[cur.block].data[cur.pos..cur.pos + |bytes|] == bytes
    requires (forall i :: 0 <= i < |docs| ==> docs[i].pos <= bs) && Filled(AllRegions(disk, bs, docs), bs, cur)
    ensures var cur', d := At(cur.block, cur.pos + |bytes|), Doc(cur.block, cur.pos, bytes);
            && AllHeld(disk', bs, live, cur', docs + [d])
            && AllRegions(disk', bs, docs) == AllRegions(disk, bs, docs)
            && Filled(AllRegions(disk', bs, docs + [d]), bs, cur')
  {
    hide Stored, Regions, AllRegions, AllHeld, Filled, Kept;
    var cur', d := At(cur.block, cur.pos + |bytes|), Doc(cur.block, cur.pos, bytes);
    HereKept(disk, live, cur, disk', cur', bs, bytes);
    AllKept(disk, bs, live, cur, disk', live, cur', docs);
    AddDoc(disk', bs, live, cur', docs, d);
    FilledHere(disk', bs, AllRegions(disk, bs, docs), cur.block, cur.pos, |bytes|);
  }

  /** An append into the current block loses a document exactly when the document is empty
      and the block below differs behind the cursor. */
  lemma HereExact(disk: Disk, bs: nat, live: set<int>, cur: Cursor, disk': Disk, docs: seq<Doc>, bytes: seq<int>,
                  below: Block,
                  data: seq<int>)
    requires bs > 0 && AllHeld(disk, bs, live, cur, docs) && cur.At? && cur.block in disk && cur.block in live
    requires |disk[cur.block].data| == bs && cur.pos + |bytes| <= bs && |below.data| == bs == |data|
    requires bytes != [] ==>
               data[..cur.pos] == disk[cur.block].data[..cur.pos] && data[cur.pos..cur.pos + |bytes|] == bytes
    requires bytes == [] ==> data == below.data
    requires cur.block in disk' && disk' == disk[cur.block := disk'[cur.block]]
    requires disk'[cur.block].data == FillZero(data, cur.pos + |bytes|)
    requires (forall i :: 0 <= i < |docs| ==> docs[i].pos <= bs) && Filled(AllRegions(disk, bs, docs), bs, cur)
    ensures bytes != [] || below.data[..cur.pos] == disk[cur.block].data[..cur.pos] ==>
              && disk'[cur.block].data[..cur.pos] == disk[cur.block].data[..cur.pos]
              && disk'[cur.block].data[cur.pos..cur.pos + |bytes|] == bytes
    ensures (forall i :: 0 <= i < |docs| ==> ReadsBack(disk', bs, docs[i]))
            <==> bytes != [] || below.data[..cur.pos] == disk[cur.block].data[..cur.pos]
  {
    hide Stored, Regions, AllRegions, AllHeld, Filled, Kept, ReadsBack;
    var now := disk'[cur.block].data;
    assert now[..cur.pos] == now[..cur.pos + |bytes|][..cur.pos] == data[..cur.pos];
    assert now[cur.pos..cur.pos + |bytes|] == now[..cur.pos + |bytes|][cur.pos..] == data[cur.pos..cur.pos + |bytes|];
    OverwrittenExact(disk, bs, live, cur, disk', docs);
  }

  /** An empty document appended behind a document that is not in the file yet: the earlier
      document is gone. */
  lemma EmptyLoses()
    ensures var d, disk, below := Doc(0, 0, [1]), map[0 := Block([1, 0], None)], Block([0, 0], None);
            && Stored(disk, 2, {0}, At(0, 1), 0, 0, [1]) && ReadsBack(disk, 2, d)
            && !ReadsBack(disk[0 := Block(FillZero(below.data, 1), None)], 2, d)
  {
    assert [1, 0][0..1] == [1] && [0, 0][0..1] == [0];
  }

  lemma NoSum()
    ensures Sum([]) == 0
  {
  }

  lemma RestSum(bs: nat, cur: Cursor, gone: seq<Region>)
    requires cur.At? ==> cur.pos <= bs
    ensures Sum(gone + Rest(bs, cur)) <= Sum(gone) + bs + META
    ensures gone + [] == gone
  {
    SumConcat(gone, Rest(bs, cur));
    if cur.At? && cur.pos < bs {
      var r := Region(Byte(bs, cur.block, cur.pos), bs + META - cur.pos);
      assert [r] == [] + [r];
      SumPut([], r);
    }
  }

  lemma ImageHere(bytes: seq<int>, pos: nat, bs: nat)
    requires bs > 0 && pos + |bytes| <= bs
    ensures Image(bytes, pos, bs) == bytes
  {
  }

  lemma U32Add(a: nat, b: nat)
    ensures U32(U32(a) + b) == U32(a + b)
  {
    DivFacts(a, TWO32);
    DivFacts(U32(a) + b, TWO32);
    var q, k := a / TWO32, (U32(a) + b) / TWO32;
    ModUnique(a + b, q + k, U32(U32(a) + b), TWO32);
  }

  /** d is the image of what was given, at this offset. */
  ghost predicate Given(d: Doc, bytes: seq<int>, bs: nat, offset: int) {
    bs > 0 && d.pos <= bs && d.bytes == Image(bytes, d.pos, bs) && offset == Byte(bs, d.block, d.pos)
  }

  lemma GivenAs(d: Doc, bytes: seq<int>, bs: nat, offset: int)
    requires bs > 0 && d.pos <= bs && d.bytes == Image(bytes, d.pos, bs) && offset == Byte(bs, d.block, d.pos)
    ensures Given(d, bytes, bs, offset)
  {
  }

  // ----- the blocks handed out -----

  /** One append was handed the blocks used, no block twice. */
  ghost predicate Took(disk: Disk, once: bool, disk': Disk, once': bool, used: seq<int>) {
    && Distinct(used)
    && disk'.Keys == disk.Keys + (set b | b in used)
    && once' == (once && forall b :: b in used ==> b !in disk)
  }

  lemma ListedTook(disk: Disk, live: set<int>, once: bool, disk': Disk, live': set<int>, once': bool, list: seq<int>)
    requires Listed(disk, live, once, disk', live', once', list)
    ensures Took(disk, once, disk', once', list) && forall b :: b in list ==> b !in live
  {
    assert forall i :: 0 <= i < |list| ==> list[i] in list;
    assert forall b :: b in list ==> exists i :: 0 <= i < |list| && list[i] == b;
  }

  lemma TookMore(disk0: Disk, once0: bool, used: seq<int>, disk1: Disk, live1: set<int>, once1: bool, disk2: Disk,
                 once2: bool, list: seq<int>)
    requires Took(disk0, once0, disk1, once1, used) && Took(disk1, once1, disk2, once2, list)
    requires (forall b :: b in used ==> b in live1) && forall b :: b in list ==> b !in live1
    ensures Took(disk0, once0, disk2, once2, used + list)
  {
    var all := used + list;
    assert (set b | b in all) == (set b | b in used) + (set b | b in list);
    forall i, j | 0 <= i < j < |all| ensures all[i] != all[j] {
      if i < |used| <= j { assert all[i] in used && all[j] in list; }
    }
    assert forall b :: b in used ==> b in (set x | x in used);
  }

  lemma NoneTook(disk: Disk, once: bool, disk': Disk)
    requires disk'.Keys == disk.Keys
    ensures Took(disk, once, disk', once, [])
  {
  }

  lemma TookKeys(disk: Disk, once: bool, disk1: Disk, once1: bool, disk2: Disk, used: seq<int>)
    requires Took(disk, once, disk1, once1, used) && disk2.Keys == disk1.Keys
    ensures Took(disk, once, disk2, once1, used)
  {
  }

  /** A run of appends was handed the blocks used. */
  ghost predicate Ran(disk: Disk, once: bool, disk': Disk, once': bool, used: seq<int>) {
    && disk'.Keys == disk.Keys + (set b | b in used)
    && (once' <==> once && Distinct(used) && forall b :: b in used ==> b !in disk)
  }

  lemma NoneUsed(disk: Disk, once: bool)
    ensures Ran(disk, once, disk, once, [])
  {
  }

  lemma RanMore(disk0: Disk, once0: bool, disk1: Disk, once1: bool, used: seq<int>, disk2: Disk, once2: bool,
                more: seq<int>)
    requires Ran(disk0, once0, disk1, once1, used) && Took(disk1, once1, disk2, once2, more)
    ensures Ran(disk0, once0, disk2, once2, used + more)
  {
    var all := used + more;
    assert (set b | b in all) == (set b | b in used) + (set b | b in more);
    assert forall b :: b in used ==> b in (set x | x in used);
    if Distinct(all) {
      assert forall i :: 0 <= i < |used| ==> all[i] == used[i];
      assert forall i :: 0 <= i < |more| ==> all[|used| + i] == more[i];
      forall i, j | 0 <= i < |used| && 0 <= j < |more| ensures used[i] != more[j] {
        assert all[i] != all[|used| + j];
      }
    }
    if Distinct(used) && forall b :: b in more ==> b !in used {
      forall i, j | 0 <= i < j < |all| ensures all[i] != all[j] {
        if i < |used| <= j { assert all[i] in used && all[j] in more; }
      }
    }
  }
}
