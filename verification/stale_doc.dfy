/** The system document that keeps stale regions on disk (src/staleblock.cc). */
module StaleDoc {
  import opened Arith
  import opened DocLayout
  import opened StaleMerge
  import opened StaleBlocks
  import DocIo

  function Pow256(k: nat): (r: nat)
    ensures r > 0
  {
    if k == 0 then 1 else 256 * Pow256(k - 1)
  }

  /** A number in k bytes, the most significant first. */
  function Enc(n: nat, k: nat): (r: seq<int>)
    ensures |r| == k
  {
    if k == 0 then [] else Enc(n / 256, k - 1) + [n % 256]
  }

  function Dec(b: seq<int>): int {
    if b == [] then 0 else Dec(b[..|b| - 1]) * 256 + b[|b| - 1]
  }

  lemma {:induction false} DecEnc(n: nat, k: nat)
    requires n < Pow256(k)
    ensures Dec(Enc(n, k)) == n
    decreases k
  {
    if k > 0 {
      DecEnc(n / 256, k - 1);
      assert Enc(n, k)[..k - 1] == Enc(n / 256, k - 1);
    }
  }

  /** Byte i counts multiples of 256 to the power of the bytes behind it. */
  lemma {:induction false} EncByte(n: nat, k: nat, i: nat)
    requires i < k
    ensures Enc(n, k)[i] == n / Pow256(k - 1 - i) % 256
    decreases k
  {
    if i < k - 1 {
      EncByte(n / 256, k - 1, i);
      DivTwice(n, 256, Pow256(k - 2 - i));
    }
  }

  lemma DivTwice(n: nat, a: nat, b: nat)
    requires a > 0 && b > 0
    ensures a * b > 0 && n / a / b == n / (a * b)
  {
    var q, r := n / a, n % a;
    var u, v := q / b, q % b;
    DivFacts(n, a);
    DivFacts(q, b);
    MulMono(v + 1, b, a);
    assert n == (u * b + v) * a + r == u * (a * b) + (v * a + r);
    assert (v + 1) * a == v * a + a;
    ModUnique(n, u, v * a + r, a * b);
  }

  const HEADER := 36
  const ITEM := 12

  /** The head of a document; an absent offset or header is 2^64 - 1. */
  datatype Info = Info(prevOffset: nat, prevHdr: nat, kvInfo: nat, seqnum: nat)

  ghost predicate InfoFits(d: Info) {
    d.prevOffset < Pow256(8) && d.prevHdr < Pow256(8) && d.kvInfo < Pow256(8) && d.seqnum < Pow256(8)
  }

  ghost predicate ItemsFit(items: seq<Region>) {
    forall i :: 0 <= i < |items| ==> 0 <= items[i].pos < Pow256(8) && items[i].len < Pow256(4)
  }

  function EncItem(r: Region): (b: seq<int>)
    requires r.pos >= 0
    ensures |b| == ITEM
  {
    Enc(r.pos, 8) + Enc(r.len, 4)
  }

  function EncItems(items: seq<Region>): (b: seq<int>)
    requires forall i :: 0 <= i < |items| ==> items[i].pos >= 0
    ensures |b| == ITEM * |items|
  {
    if items == [] then [] else EncItems(items[..|items| - 1]) + EncItem(items[|items| - 1])
  }

  function EncHead(d: Info, count: nat): (b: seq<int>)
    ensures |b| == HEADER
  {
    Enc(d.prevOffset, 8) + Enc(d.prevHdr, 8) + Enc(d.kvInfo, 8) + Enc(d.seqnum, 8) + Enc(count, 4)
  }

  lemma HeadParts(d: Info, count: nat)
    ensures var h := EncHead(d, count);
            && h[..8] == Enc(d.prevOffset, 8) && h[8..16] == Enc(d.prevHdr, 8) && h[16..24] == Enc(d.kvInfo, 8)
            && h[24..32] == Enc(d.seqnum, 8) && h[32..36] == Enc(count, 4)
  {
  }

  /** The i-th item's bytes in the encoded list. */
  lemma {:induction false} ItemAt(items: seq<Region>, i: nat)
    requires (forall j :: 0 <= j < |items| ==> items[j].pos >= 0) && i < |items|
    ensures EncItems(items)[ITEM * i..ITEM * i + ITEM] == EncItem(items[i])
    decreases items
  {
    var init := items[..|items| - 1];
    if i < |init| {
      ItemAt(init, i);
      assert EncItems(items)[ITEM * i..ITEM * i + ITEM] == EncItems(init)[ITEM * i..ITEM * i + ITEM];
      assert init[i] == items[i];
    }
  }

  /** The stale list merged into a tree, item by item. */
  function MergeAll(tree: seq<Region>, items: seq<Region>): seq<Region> {
    if items == [] then tree else Merged(MergeAll(tree, items[..|items| - 1]), items[|items| - 1].pos,
                                         items[|items| - 1].len)
  }

  lemma SortedConcat(a: seq<Region>, b: seq<Region>)
    requires Sorted(a) && Sorted(b) && (a != [] && b != [] ==> a[|a| - 1].pos < b[0].pos)
    ensures Sorted(a + b)
  {
    var c := a + b;
    forall i, j | 0 <= i < j < |c| ensures c[i].pos < c[j].pos {
      if i < |a| <= j {
        assert c[i].pos <= a[|a| - 1].pos && b[0].pos <= c[j].pos;
      }
    }
  }

  lemma SortedAround(left: seq<Region>, item: Region, right: seq<Region>)
    requires Sorted(left) && Sorted(right) && (left != [] ==> left[|left| - 1].pos < item.pos)
             && (right != [] ==> item.pos < right[0].pos)
    ensures Sorted(left + [item] + right)
  {
    SortedConcat(left, [item]);
    SortedConcat(left + [item], right);
  }

  lemma JoinedSorted(left: seq<Region>, item: Region, right: seq<Region>)
    requires Sorted(left) && Sorted(right) && (left != [] ==> left[|left| - 1].pos < item.pos)
             && (right != [] ==> item.pos < right[0].pos)
    ensures Sorted(Joined(left, item, right, false))
  {
    hide Grow;
    var prev := left != [] && End(left[|left| - 1]) >= item.pos;
    var left' := if prev then left[..|left| - 1] else left;
    var item' := if prev then Grow(left[|left| - 1], item, false) else item;
    if prev { GrowPos(left[|left| - 1], item); }
    if right != [] && End(item') >= right[0].pos {
      GrowPos(item', right[0]);
      SortedAround(left', Grow(item', right[0], false), right[1..]);
    } else {
      SortedAround(left', item', right);
    }
  }

  lemma GrowPos(r: Region, q: Region)
    ensures Grow(r, q, false).pos == r.pos
  {
  }

  lemma MergedSorted(items: seq<Region>, pos: int, len: nat)
    requires Sorted(items)
    ensures Sorted(Merged(items, pos, len))
  {
    hide Joined;
    var i := Rank(items, pos);
    if i < |items| && items[i].pos == pos {
      JoinedSorted(items[..i], Region(pos, if items[i].len < len then len else items[i].len), items[i + 1..]);
    } else {
      JoinedSorted(items[..i], Region(pos, len), items[i..]);
    }
  }

  /** No step of the merging leaves 32 bits. */
  ghost predicate FitsAll(tree: seq<Region>, items: seq<Region>) {
    items == [] || (FitsAll(tree, items[..|items| - 1])
                    && Fits32(MergeAll(tree, items[..|items| - 1]), items[|items| - 1].pos, items[|items| - 1].len))
  }

  /** Merging a list makes exactly its bytes stale besides the old ones. */
  lemma {:induction false} MergeAllCovers(tree: seq<Region>, items: seq<Region>, x: int)
    requires Sorted(tree) && FitsAll(tree, items)
    ensures Sorted(MergeAll(tree, items)) && (Covers(MergeAll(tree, items), x) <==> Covers(tree, x) || Covers(items, x))
    decreases items
  {
    hide Covers, Merged, Sorted, Fits32;
    if items == [] {
      NothingCovered(0, x);
    } else {
      var init, last := items[..|items| - 1], items[|items| - 1];
      MergeAllCovers(tree, init, x);
      MergedCovers(MergeAll(tree, init), last.pos, last.len, x);
      MergedSorted(MergeAll(tree, init), last.pos, last.len);
      assert items == init + [last];
      CoversConcat(init, [last], x);
      CoversOne(last, x);
    }
  }

  // ----- writing -----

  /** `fdb_gather_stale_blocks`: one document holding the given items.  size is the buffer
      size the code starts with, 8192. */
  method Gather(d: Info, items: seq<Region>, size: nat) returns (body: seq<int>)
    requires (forall i :: 0 <= i < |items| ==> items[i].pos >= 0) && size > HEADER + ITEM
    ensures body == EncHead(d, |items|) + EncItems(items) && |body| == HEADER + ITEM * |items|
    ensures InfoFits(d) && |items| < Pow256(4) ==>
              && Dec(body[..8]) == d.prevOffset && Dec(body[8..16]) == d.prevHdr && Dec(body[16..24]) == d.kvInfo
              && Dec(body[24..32]) == d.seqnum && Dec(body[32..36]) == |items|
    ensures ItemsFit(items) ==> forall i :: 0 <= i < |items| ==> ItemAtEnd(body, items, i)
  {
    hide EncHead, EncItem, Enc, EncItems, Dec, Pow256;
    NoItems();
    var bufsize, buf := size, DocIo.ZeroBytes(size);
    buf := DocIo.Overwrite(buf, 0, EncHead(d, 0));
    var offset, count := HEADER, 0;
    while count < |items|
      invariant count <= |items| && |buf| == bufsize && offset == HEADER + ITEM * count && offset + ITEM < bufsize
      invariant buf[..32] == EncHead(d, 0)[..32] && buf[HEADER..offset] == EncItems(items[..count])
    {
      ghost var buf0 := buf;
      buf := DocIo.Overwrite(buf, offset, EncItem(items[count]));
      Wrote(buf0, buf, offset, EncItem(items[count]));
      ItemPut(items, count);
      count := count + 1;
      offset := offset + ITEM;
      if offset + ITEM >= bufsize {
        bufsize := bufsize * 2;
        buf := buf + DocIo.ZeroBytes(bufsize - |buf|);
      }
    }
    assert items[..count] == items;
    ghost var before := buf;
    buf := DocIo.Overwrite(buf, 32, Enc(count, 4));
    CountSet(d, count);
    assert buf[HEADER..offset] == before[HEADER..offset];
    assert buf[..HEADER] == buf[..32] + buf[32..HEADER];
    body := buf[..offset];
    assert body == buf[..HEADER] + buf[HEADER..offset];
    HeadReads(body, d, items);
    if ItemsFit(items) {
      forall i | 0 <= i < |items| ensures ItemAtEnd(body, items, i) {
        ItemBytes(body, d, items, i);
      }
    }
  }

  /** The i-th position and length stand behind the head in their order. */
  ghost predicate ItemAtEnd(body: seq<int>, items: seq<Region>, i: int)
    requires 0 <= i < |items| && |body| == HEADER + ITEM * |items|
  {
    var p := HEADER + ITEM * i;
    Dec(body[p..p + 8]) == items[i].pos && Dec(body[p + 8..p + 12]) == items[i].len
  }

  lemma NoItems()
    ensures EncItems([]) == []
  {
  }

  lemma ItemPut(items: seq<Region>, n: nat)
    requires n < |items| && forall i :: 0 <= i < |items| ==> items[i].pos >= 0
    ensures EncItems(items[..n + 1]) == EncItems(items[..n]) + EncItem(items[n])
  {
    assert items[..n + 1][..n] == items[..n];
  }

  lemma FrontPart(h: seq<int>, t: seq<int>, a: nat, b: nat)
    requires a <= b <= |h|
    ensures (h + t)[a..b] == h[a..b]
  {
  }

  lemma HeadReads(body: seq<int>, d: Info, items: seq<Region>)
    requires (forall i :: 0 <= i < |items| ==> items[i].pos >= 0) && body == EncHead(d, |items|) + EncItems(items)
    ensures InfoFits(d) && |items| < Pow256(4) ==>
              && Dec(body[..8]) == d.prevOffset && Dec(body[8..16]) == d.prevHdr && Dec(body[16..24]) == d.kvInfo
              && Dec(body[24..32]) == d.seqnum && Dec(body[32..36]) == |items|
  {
    hide EncHead, Enc, Dec, EncItems, Pow256;
    var h := EncHead(d, |items|);
    HeadParts(d, |items|);
    var t := EncItems(items);
    FrontPart(h, t, 0, 8);
    FrontPart(h, t, 8, 16);
    FrontPart(h, t, 16, 24);
    FrontPart(h, t, 24, 32);
    FrontPart(h, t, 32, 36);
    if InfoFits(d) && |items| < Pow256(4) {
      DecEnc(d.prevOffset, 8);
      DecEnc(d.prevHdr, 8);
      DecEnc(d.kvInfo, 8);
      DecEnc(d.seqnum, 8);
      DecEnc(|items|, 4);
    }
  }

  lemma CountSet(d: Info, count: nat)
    ensures EncHead(d, count) == EncHead(d, 0)[..32] + Enc(count, 4)
  {
  }

  lemma Wrote(buf: seq<int>, buf': seq<int>, offset: nat, b: seq<int>)
    requires HEADER <= offset && offset + |b| <= |buf| && buf' == DocIo.Overwrite(buf, offset, b)
    ensures buf'[HEADER..offset + |b|] == buf[HEADER..offset] + b && buf'[..32] == buf[..32]
  {
  }

  // ----- reading -----

  /** `_fetch_stale_info_doc`: parse a document body and merge its regions. */
  method Fetch(body: seq<int>, tree: MergeTree, ghost d: Info, ghost items: seq<Region>)
    returns (prevOffset: int, prevHdr: int)
    requires InfoFits(d) && ItemsFit(items) && |items| < Pow256(4) && body == EncHead(d, |items|) + EncItems(items)
             && Sorted(tree.items)
    modifies tree
    ensures prevOffset == d.prevOffset && prevHdr == d.prevHdr
    ensures tree.items == MergeAll(old(tree.items), items) && Sorted(tree.items)
  {
    hide EncHead, EncItem, Enc, Dec, Merged, Sorted, Pow256, EncItems;
    HeadReads(body, d, items);
    prevOffset := Dec(body[..8]);
    prevHdr := Dec(body[8..16]);
    var count := Dec(body[32..36]);
    var i, pos := 0, HEADER;
    ghost var tree0 := tree.items;
    while i < count
      invariant 0 <= i <= count && pos == HEADER + ITEM * i && tree.items == MergeAll(tree0, items[..i])
                && Sorted(tree.items)
    {
      ItemBytes(body, d, items, i);
      var itemPos := Dec(body[pos..pos + 8]);
      var itemLen := Dec(body[pos + 8..pos + 12]);
      assert items[..i + 1][..i] == items[..i];
      MergedSorted(tree.items, itemPos, itemLen);
      tree.InsertMerge(itemPos, itemLen);
      pos, i := pos + ITEM, i + 1;
    }
    assert items[..i] == items;
  }

  /** The bytes of the i-th item decode to it. */
  lemma ItemBytes(body: seq<int>, d: Info, items: seq<Region>, i: nat)
    requires ItemsFit(items) && i < |items| && body == EncHead(d, |items|) + EncItems(items)
    ensures var p := HEADER + ITEM * i;
            p + ITEM <= |body| && Dec(body[p..p + 8]) == items[i].pos && Dec(body[p + 8..p + 12]) == items[i].len
  {
    hide Enc, Dec, EncHead, EncItems, Pow256;
    ItemAt(items, i);
    var p := HEADER + ITEM * i;
    var b := EncItem(items[i]);
    assert body[p..p + ITEM] == EncItems(items)[ITEM * i..ITEM * i + ITEM] == b;
    assert body[p..p + 8] == body[p..p + ITEM][..8] == b[..8] == Enc(items[i].pos, 8);
    assert body[p + 8..p + 12] == body[p..p + ITEM][8..] == b[8..] == Enc(items[i].len, 4);
    DecEnc(items[i].pos, 8);
    DecEnc(items[i].len, 4);
  }
}
