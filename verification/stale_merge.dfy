/** The merge tree of stale regions (src/staleblock.cc), as its items in order of
    position. */
module StaleMerge {
  import opened DocLayout

  function End(r: Region): int {
    r.pos + r.len
  }

  ghost predicate Sorted(items: seq<Region>) {
    forall i, j :: 0 <= i < j < |items| ==> items[i].pos < items[j].pos
  }

  /** Sorted, disjoint, and with a gap between any two items. */
  ghost predicate Normal(items: seq<Region>) {
    forall i, j :: 0 <= i < j < |items| ==> items[i].pos < items[j].pos && End(items[i]) < items[j].pos
  }

  ghost predicate Covers(items: seq<Region>, x: int) {
    exists i :: 0 <= i < |items| && In(items[i], x)
  }

  /** How many items start before pos. */
  function Rank(items: seq<Region>, pos: int): (n: nat)
    ensures n <= |items|
    ensures forall i :: 0 <= i < n ==> items[i].pos < pos
    ensures n < |items| ==> items[n].pos >= pos
  {
    if items == [] || items[0].pos >= pos then 0 else 1 + Rank(items[1..], pos)
  }

  /** r grown to cover q, which starts inside or right behind it; the stored length is cut
      to 32 bits unless wide. */
  function Grow(r: Region, q: Region, wide: bool): Region {
    var len := r.len + q.len + (q.pos - r.pos - r.len);
    if End(r) >= End(q) then r else Region(r.pos, if wide && len >= 0 then len else U32(len))
  }

  /** Merging the last of left and the first of right into item where they touch. */
  function Joined(left: seq<Region>, item: Region, right: seq<Region>, wide: bool): seq<Region> {
    var prev := left != [] && End(left[|left| - 1]) >= item.pos;
    var left' := if prev then left[..|left| - 1] else left;
    var item' := if prev then Grow(left[|left| - 1], item, wide) else item;
    if right != [] && End(item') >= right[0].pos then left' + [Grow(item', right[0], wide)] + right[1..]
    else left' + [item'] + right
  }

  /** `_insert_n_merge` on the items in order. */
  function Merged(items: seq<Region>, pos: int, len: nat, wide: bool := false): seq<Region> {
    var i := Rank(items, pos);
    if i < |items| && items[i].pos == pos then
      Joined(items[..i], Region(pos, if items[i].len < len then len else items[i].len), items[i + 1..], wide)
    else Joined(items[..i], Region(pos, len), items[i..], wide)
  }

  ghost predicate AllSmall(items: seq<Region>) {
    forall i :: 0 <= i < |items| ==> items[i].len < TWO32
  }

  /** No merged length needs more than 32 bits. */
  ghost predicate Fits32(items: seq<Region>, pos: int, len: nat) {
    AllSmall(Merged(items, pos, len, true))
  }

  /** A grown region keeps its start and never gets shorter; a small one is stored as it is. */
  lemma GrowNarrow(r: Region, q: Region)
    requires r.pos <= q.pos
    ensures Grow(r, q, true).pos == r.pos && r.len <= Grow(r, q, true).len
    ensures Grow(r, q, true).len < TWO32 ==> Grow(r, q, false) == Grow(r, q, true)
  {
  }

  lemma SmallMid(left: seq<Region>, r: Region, right: seq<Region>)
    requires AllSmall(left + [r] + right)
    ensures r.len < TWO32
  {
    assert (left + [r] + right)[|left|] == r;
  }

  lemma JoinedNarrow(left: seq<Region>, item: Region, right: seq<Region>)
    requires AllSmall(Joined(left, item, right, true))
    requires (left != [] ==> left[|left| - 1].pos <= item.pos) && (right != [] ==> item.pos <= right[0].pos)
    ensures Joined(left, item, right, false) == Joined(left, item, right, true)
  {
    hide AllSmall, Grow;
    var prev := left != [] && End(left[|left| - 1]) >= item.pos;
    var left' := if prev then left[..|left| - 1] else left;
    var item' := if prev then Grow(left[|left| - 1], item, true) else item;
    if prev { GrowNarrow(left[|left| - 1], item); }
    if right != [] && End(item') >= right[0].pos {
      GrowNarrow(item', right[0]);
      SmallMid(left', Grow(item', right[0], true), right[1..]);
    } else {
      SmallMid(left', item', right);
    }
  }

  lemma MergedNarrow(items: seq<Region>, pos: int, len: nat)
    requires Sorted(items) && Fits32(items, pos, len)
    ensures Merged(items, pos, len) == Merged(items, pos, len, true)
  {
    hide Joined;
    var i := Rank(items, pos);
    if i < |items| && items[i].pos == pos {
      JoinedNarrow(items[..i], Region(pos, if items[i].len < len then len else items[i].len), items[i + 1..]);
    } else {
      JoinedNarrow(items[..i], Region(pos, len), items[i..]);
    }
  }

  // ----- coverage -----

  lemma CoversConcat(a: seq<Region>, b: seq<Region>, x: int)
    ensures Covers(a + b, x) <==> Covers(a, x) || Covers(b, x)
  {
    if Covers(a, x) {
      var i :| 0 <= i < |a| && In(a[i], x);
      assert In((a + b)[i], x);
    }
    if Covers(b, x) {
      var i :| 0 <= i < |b| && In(b[i], x);
      assert In((a + b)[|a| + i], x);
    }
  }

  lemma CoversOne(r: Region, x: int)
    ensures Covers([r], x) <==> In(r, x)
  {
    assert [r][0] == r;
  }

  lemma GrowCovers(r: Region, q: Region, x: int)
    requires r.pos <= q.pos <= End(r)
    ensures In(Grow(r, q, true), x) <==> In(r, x) || In(q, x)
    ensures End(Grow(r, q, true)) == if End(r) >= End(q) then End(r) else End(q)
    ensures Grow(r, q, true).pos == r.pos
  {
  }

  lemma Covers3(a: seq<Region>, r: Region, b: seq<Region>, x: int)
    ensures Covers(a + [r] + b, x) <==> Covers(a, x) || In(r, x) || Covers(b, x)
  {
    CoversConcat(a + [r], b, x);
    CoversConcat(a, [r], x);
    CoversOne(r, x);
  }

  /** Joining neighbours changes no coverage. */
  lemma JoinedCovers(left: seq<Region>, item: Region, right: seq<Region>, x: int)
    requires (left != [] ==> left[|left| - 1].pos <= item.pos) && (right != [] ==> item.pos <= right[0].pos)
    ensures Covers(Joined(left, item, right, true), x) <==> Covers(left, x) || In(item, x) || Covers(right, x)
  {
    hide Covers;
    var prev := left != [] && End(left[|left| - 1]) >= item.pos;
    var left' := if prev then left[..|left| - 1] else left;
    var item' := if prev then Grow(left[|left| - 1], item, true) else item;
    if prev {
      var p := left[|left| - 1];
      assert left == left' + [p];
      CoversConcat(left', [p], x);
      CoversOne(p, x);
      GrowCovers(p, item, x);
    }
    if right != [] {
      assert right == [right[0]] + right[1..];
      CoversConcat([right[0]], right[1..], x);
      CoversOne(right[0], x);
    }
    if right != [] && End(item') >= right[0].pos {
      GrowCovers(item', right[0], x);
      Covers3(left', Grow(item', right[0], true), right[1..], x);
    } else {
      Covers3(left', item', right, x);
    }
  }

  /** For every tree: after an insertion exactly the old bytes and the new region are
      covered. */
  lemma MergedCovers(items: seq<Region>, pos: int, len: nat, x: int)
    requires Sorted(items) && Fits32(items, pos, len)
    ensures Covers(Merged(items, pos, len), x) <==> Covers(items, x) || In(Region(pos, len), x)
  {
    hide Covers, Joined, Fits32, Sorted;
    MergedNarrow(items, pos, len);
    var i := Rank(items, pos);
    SortedRank(items, pos);
    if i < |items| && items[i].pos == pos {
      var big := Region(pos, if items[i].len < len then len else items[i].len);
      CoversAt(items, i, x);
      JoinedCovers(items[..i], big, items[i + 1..], x);
    } else {
      CoversCut(items, i, x);
      JoinedCovers(items[..i], Region(pos, len), items[i..], x);
    }
  }

  lemma SortedRank(items: seq<Region>, pos: int)
    requires Sorted(items)
    ensures var i := Rank(items, pos); i + 1 < |items| && items[i].pos == pos ==> pos < items[i + 1].pos
  {
  }

  lemma CoversAt(items: seq<Region>, i: nat, x: int)
    requires i < |items|
    ensures Covers(items, x) <==> Covers(items[..i], x) || In(items[i], x) || Covers(items[i + 1..], x)
  {
    hide Covers;
    assert items == items[..i] + [items[i]] + items[i + 1..];
    Covers3(items[..i], items[i], items[i + 1..], x);
  }

  lemma CoversCut(items: seq<Region>, i: nat, x: int)
    requires i <= |items|
    ensures Covers(items, x) <==> Covers(items[..i], x) || Covers(items[i..], x)
  {
    hide Covers;
    assert items == items[..i] + items[i..];
    CoversConcat(items[..i], items[i..], x);
  }

  /** The 32-bit cut matters: joining a region of 2^32 - 1 bytes with the byte behind it
      leaves an empty item. */
  lemma MergedWraps()
    ensures var items := [Region(0, TWO32 - 1)];
            Merged(items, TWO32 - 1, 1) == [Region(0, 0)] && Covers(items, 0) && !Covers(Merged(items, TWO32 - 1, 1), 0)
  {
    var items := [Region(0, TWO32 - 1)];
    assert items[1..] == [];
    assert Rank(items, TWO32 - 1) == 1;
    assert items[..1] == items && items[..0] == [];
    assert In(items[0], 0);
    CoversOne(Region(0, 0), 0);
  }

  // ----- normal form -----

  /** At most one item starts inside the region (behind its first byte) or right behind it. */
  ghost predicate Reaches1(items: seq<Region>, pos: int, len: nat) {
    forall i, j :: 0 <= i < j < |items| && pos < items[i].pos ==> pos + len < items[j].pos
  }

  ghost predicate Gapped(left: seq<Region>, right: seq<Region>) {
    forall i, j :: 0 <= i < |left| && 0 <= j < |right| ==> left[i].pos < right[j].pos && End(left[i]) < right[j].pos
  }

  lemma NormalConcat(a: seq<Region>, b: seq<Region>)
    ensures Normal(a + b) <==> Normal(a) && Normal(b) && Gapped(a, b)
  {
    var c := a + b;
    if Normal(c) {
      forall i, j | 0 <= i < |a| && 0 <= j < |b| ensures a[i].pos < b[j].pos && End(a[i]) < b[j].pos {
        assert a[i] == c[i] && b[j] == c[|a| + j];
      }
      forall i, j | 0 <= i < j < |a| ensures a[i].pos < a[j].pos && End(a[i]) < a[j].pos {
        assert a[i] == c[i] && a[j] == c[j];
      }
      forall i, j | 0 <= i < j < |b| ensures b[i].pos < b[j].pos && End(b[i]) < b[j].pos {
        assert b[i] == c[|a| + i] && b[j] == c[|a| + j];
      }
    }
  }

  /** Between lists in normal form the gap shows at the last and the first item. */
  lemma GappedBefore(left: seq<Region>, item: Region)
    requires Normal(left)
    ensures Gapped(left, [item]) <==>
            (left != [] ==> left[|left| - 1].pos < item.pos && End(left[|left| - 1]) < item.pos)
  {
    if Gapped(left, [item]) && left != [] { assert [item][0] == item; }
  }

  lemma GappedBehind(item: Region, right: seq<Region>)
    requires Normal(right)
    ensures Gapped([item], right) <==> (right != [] ==> item.pos < right[0].pos && End(item) < right[0].pos)
  {
    if Gapped([item], right) && right != [] { assert [item][0] == item; }
  }

  lemma GappedConcat(a: seq<Region>, b: seq<Region>, c: seq<Region>)
    ensures Gapped(a + b, c) <==> Gapped(a, c) && Gapped(b, c)
  {
    if Gapped(a + b, c) {
      forall i, j | 0 <= i < |b| && 0 <= j < |c| ensures b[i].pos < c[j].pos && End(b[i]) < c[j].pos {
        assert (a + b)[|a| + i] == b[i];
      }
      forall i, j | 0 <= i < |a| && 0 <= j < |c| ensures a[i].pos < c[j].pos && End(a[i]) < c[j].pos {
        assert (a + b)[i] == a[i];
      }
    }
  }

  lemma NormalOne(item: Region)
    ensures Normal([item])
  {
  }

  /** left + [item] + right is in normal form exactly when the item keeps a gap on both
      sides. */
  lemma NormalAround(left: seq<Region>, item: Region, right: seq<Region>)
    requires Normal(left) && Normal(right) && Gapped(left, right)
    ensures Normal(left + [item] + right) <==>
            && (left != [] ==> left[|left| - 1].pos < item.pos && End(left[|left| - 1]) < item.pos)
            && (right != [] ==> item.pos < right[0].pos && End(item) < right[0].pos)
  {
    hide End, Normal, Gapped;
    NormalConcat(left + [item], right);
    NormalConcat(left, [item]);
    NormalOne(item);
    GappedConcat(left, [item], right);
    GappedBefore(left, item);
    GappedBehind(item, right);
  }

  lemma NormalParts(items: seq<Region>, i: nat, j: nat)
    requires Normal(items) && i <= j <= |items|
    ensures Normal(items[..i]) && Normal(items[j..]) && Gapped(items[..i], items[j..])
  {
  }

  lemma JoinedNormal(left: seq<Region>, item: Region, right: seq<Region>)
    requires Normal(left) && Normal(right) && Gapped(left, right)
    requires (left != [] ==> left[|left| - 1].pos < item.pos) && (right != [] ==> item.pos < right[0].pos)
    ensures Normal(Joined(left, item, right, true)) <==> (|right| >= 2 ==> End(item) < right[1].pos)
  {
    hide Normal, Grow, Gapped;
    var prev := left != [] && End(left[|left| - 1]) >= item.pos;
    var left' := if prev then left[..|left| - 1] else left;
    var item' := if prev then Grow(left[|left| - 1], item, true) else item;
    if prev { GrowCovers(left[|left| - 1], item, 0); }
    NormalLast(left);
    NormalFirst(right);
    GappedEnds(left, right);
    if right != [] && End(item') >= right[0].pos {
      GrowCovers(item', right[0], 0);
      NormalAround(left', Grow(item', right[0], true), right[1..]);
    } else {
      NormalAround(left', item', right);
    }
  }

  lemma NormalLast(s: seq<Region>)
    requires Normal(s)
    ensures s != [] ==> Normal(s[..|s| - 1])
    ensures |s| > 1 ==> s[|s| - 2].pos < s[|s| - 1].pos && End(s[|s| - 2]) < s[|s| - 1].pos
  {
  }

  lemma NormalFirst(s: seq<Region>)
    requires Normal(s)
    ensures s != [] ==> Normal(s[1..])
    ensures |s| > 1 ==> s[0].pos < s[1].pos && End(s[0]) < s[1].pos
  {
  }

  lemma GappedEnds(left: seq<Region>, right: seq<Region>)
    requires Gapped(left, right)
    ensures left != [] && right != [] ==> End(left[|left| - 1]) < right[0].pos
    ensures left != [] ==> Gapped(left[..|left| - 1], right)
    ensures right != [] ==> Gapped(left, right[1..])
    ensures left != [] && right != [] ==> Gapped(left[..|left| - 1], right[1..])
  {
  }

  lemma NormalSorted(items: seq<Region>)
    requires Normal(items)
    ensures Sorted(items)
    ensures forall i :: 0 <= i < |items| - 1 ==> items[i].pos < items[i + 1].pos && End(items[i]) < items[i + 1].pos
  {
  }

  /** An insertion into a tree in normal form leaves it in normal form exactly when the new
      region reaches at most one item that starts behind its first byte. */
  lemma MergedNormal(items: seq<Region>, pos: int, len: nat)
    requires Normal(items) && Fits32(items, pos, len)
    ensures Normal(Merged(items, pos, len)) <==> Reaches1(items, pos, len)
  {
    hide Joined, Fits32, Normal, Gapped, Reaches1, Sorted;
    NormalSorted(items);
    MergedNarrow(items, pos, len);
    var i := Rank(items, pos);
    if i < |items| && items[i].pos == pos {
      NormalParts(items, i, i + 1);
      JoinedNormal(items[..i], Region(pos, if items[i].len < len then len else items[i].len), items[i + 1..]);
      assert i + 2 < |items| ==>
            End(items[i]) < items[i + 1].pos < items[i + 2].pos && items[i + 1..][1] == items[i + 2];
      ReachesFrom(items, pos, len, i + 1);
    } else {
      NormalParts(items, i, i);
      JoinedNormal(items[..i], Region(pos, len), items[i..]);
      ReachesFrom(items, pos, len, i);
    }
  }

  // ----- where 32 bits are too few -----

  /** A region that starts where r does and, cut to 32 bits, ends 2^32 bytes before q does. */
  lemma GrowWraps(r: Region, q: Region)
    requires r.pos <= q.pos <= End(r) && r.len < TWO32 && q.len < TWO32
    ensures Grow(r, q, true).len < TWO32 ==> Grow(r, q, false) == Grow(r, q, true)
    ensures Grow(r, q, true).len >= TWO32 ==>
              Grow(r, q, false).pos == r.pos && End(Grow(r, q, false)) == End(q) - TWO32 && In(r, End(q) - TWO32)
  {
  }

  lemma Missed(left: seq<Region>, r: Region, right: seq<Region>, x: int)
    requires (forall i :: 0 <= i < |left| ==> End(left[i]) <= x) && End(r) <= x && forall i :: 0 <= i < |right| ==>
               x < right[i].pos
    ensures !Covers(left + [r] + right, x)
  {
    Covers3(left, r, right, x);
  }

  lemma EndsBefore(left: seq<Region>, x: int)
    requires Normal(left) && (left != [] ==> left[|left| - 1].pos <= x && End(left[|left| - 1]) <= x)
    ensures forall i :: 0 <= i < |left| ==> End(left[i]) <= x
  {
  }

  lemma StartsBehind(right: seq<Region>, x: int)
    requires Normal(right) && (right != [] ==> x < right[0].pos)
    ensures forall i :: 0 <= i < |right| ==> x < right[i].pos
  {
  }

  /** If a merged length needs more than 32 bits, some byte that was covered is lost. */
  lemma JoinedLoses(left: seq<Region>, item: Region, right: seq<Region>) returns (x: int)
    requires Normal(left) && Normal(right) && AllSmall(left) && AllSmall(right) && item.len < TWO32
    requires (left != [] ==> left[|left| - 1].pos < item.pos) && (right != [] ==> item.pos < right[0].pos)
    requires !AllSmall(Joined(left, item, right, true))
    ensures Covers(left, x) || In(item, x)
    ensures !Covers(Joined(left, item, right, false), x)
  {
    hide Normal, Grow, Covers;
    var prev := left != [] && End(left[|left| - 1]) >= item.pos;
    var left' := if prev then left[..|left| - 1] else left;
    NormalLast(left);
    NormalFirst(right);
    if prev {
      var p := left[|left| - 1];
      assert left == left' + [p];
      GrowWraps(p, item);
      if Grow(p, item, true).len >= TWO32 {
        x := End(item) - TWO32;
        CoversConcat(left', [p], x);
        CoversOne(p, x);
        EndsBefore(left', x);
        StartsBehind(right, x);
        Missed(left', Grow(p, item, false), right, x);
        return;
      }
      GrowCovers(p, item, 0);
    }
    var item' := if prev then Grow(left[|left| - 1], item, true) else item;
    x := JoinedLosesRight(left', item', right);
    if prev {
      var p := left[|left| - 1];
      GrowCovers(p, item, x);
      CoversConcat(left', [p], x);
      CoversOne(p, x);
    }
  }

  lemma JoinedLosesRight(left: seq<Region>, item: Region, right: seq<Region>) returns (x: int)
    requires Normal(left) && Normal(right) && AllSmall(left) && AllSmall(right) && item.len < TWO32
    requires (left != [] ==> left[|left| - 1].pos < item.pos && End(left[|left| - 1]) < item.pos)
             && (right != [] ==> item.pos < right[0].pos)
    requires var merge := right != [] && End(item) >= right[0].pos;
             !AllSmall(if merge then left + [Grow(item, right[0], true)] + right[1..] else left + [item] + right)
    ensures right != [] && End(item) >= right[0].pos && In(item, x)
            && !Covers(left + [Grow(item, right[0], false)] + right[1..], x)
  {
    hide Normal, Grow, Covers;
    NormalFirst(right);
    GrowWraps(item, right[0]);
    x := End(right[0]) - TWO32;
    EndsBefore(left, x);
    StartsBehind(right[1..], x);
    Missed(left, Grow(item, right[0], false), right[1..], x);
  }

  // ----- the length after a merge, read off the neighbours -----

  predicate Touched(items: seq<Region>, pos: int) {
    var i := Rank(items, pos);
    i > 0 && End(items[i - 1]) >= pos
  }

  /** Where the merged region starts: at the left neighbour if that reaches pos. */
  function LowEnd(items: seq<Region>, pos: int): int {
    if Touched(items, pos) then items[Rank(items, pos) - 1].pos else pos
  }

  /** The farthest end among the region, an item that starts with it and a touched left
      neighbour. */
  function MidEnd(items: seq<Region>, pos: int, len: nat): int {
    var i := Rank(items, pos);
    var e := if i < |items| && items[i].pos == pos && items[i].len > len then End(items[i]) else pos + len;
    if Touched(items, pos) && End(items[i - 1]) > e then End(items[i - 1]) else e
  }

  /** Where the merged region ends: with the next item if that is reached. */
  function HighEnd(items: seq<Region>, pos: int, len: nat): int {
    var i, e := Rank(items, pos), MidEnd(items, pos, len);
    var j := if i < |items| && items[i].pos == pos then i + 1 else i;
    if j < |items| && items[j].pos <= e && End(items[j]) > e then End(items[j]) else e
  }

  /** From the start of the first region merged to the end of the last it is less than
      2^32 bytes. */
  predicate Short(items: seq<Region>, pos: int, len: nat) {
    HighEnd(items, pos, len) - LowEnd(items, pos) < TWO32
  }

  lemma SmallAround(left: seq<Region>, r: Region, right: seq<Region>)
    requires AllSmall(left) && AllSmall(right)
    ensures AllSmall(left + [r] + right) <==> r.len < TWO32
  {
    var all := left + [r] + right;
    assert all[|left|] == r;
  }

  lemma JoinedSmall(left: seq<Region>, item: Region, right: seq<Region>)
    requires AllSmall(left) && AllSmall(right)
    requires (left != [] ==> left[|left| - 1].pos < item.pos) && (right != [] ==> item.pos < right[0].pos)
    ensures var touch := left != [] && End(left[|left| - 1]) >= item.pos;
            var low := if touch then left[|left| - 1].pos else item.pos;
            var mid := if touch && End(left[|left| - 1]) > End(item) then End(left[|left| - 1]) else End(item);
            var high := if right != [] && right[0].pos <= mid && End(right[0]) > mid then End(right[0]) else mid;
            AllSmall(Joined(left, item, right, true)) <==> high - low < TWO32
  {
    hide AllSmall, Grow;
    var prev := left != [] && End(left[|left| - 1]) >= item.pos;
    var left' := if prev then left[..|left| - 1] else left;
    var item' := if prev then Grow(left[|left| - 1], item, true) else item;
    if prev { GrowCovers(left[|left| - 1], item, 0); }
    SmallParts(left, right);
    if right != [] && End(item') >= right[0].pos {
      GrowCovers(item', right[0], 0);
      SmallAround(left', Grow(item', right[0], true), right[1..]);
    } else {
      SmallAround(left', item', right);
    }
  }

  lemma SmallParts(left: seq<Region>, right: seq<Region>)
    requires AllSmall(left) && AllSmall(right)
    ensures (left != [] ==> AllSmall(left[..|left| - 1])) && (right != [] ==> AllSmall(right[1..]))
  {
  }

  lemma SmallCut(items: seq<Region>, i: nat)
    requires AllSmall(items) && i <= |items|
    ensures AllSmall(items[..i]) && AllSmall(items[i..])
  {
  }

  /** No merged length needs more than 32 bits exactly when the merged regions span fewer
      than 2^32 bytes. */
  lemma ShortFits(items: seq<Region>, pos: int, len: nat)
    requires Sorted(items) && AllSmall(items) && len < TWO32
    ensures Fits32(items, pos, len) <==> Short(items, pos, len)
  {
    hide Joined, AllSmall, Sorted, Short, Fits32;
    var i := Rank(items, pos);
    SmallCut(items, i);
    if i < |items| && items[i].pos == pos {
      SortedRank(items, pos);
      SmallCut(items, i + 1);
      ShortAt(items, pos, len, i);
    } else {
      ShortBetween(items, pos, len, i);
    }
  }

  lemma ShortAt(items: seq<Region>, pos: int, len: nat, i: nat)
    requires i < |items| && i == Rank(items, pos) && items[i].pos == pos
    requires AllSmall(items[..i]) && AllSmall(items[i + 1..])
    requires i + 1 < |items| ==> pos < items[i + 1].pos
    ensures Fits32(items, pos, len) <==> Short(items, pos, len)
  {
    hide Joined, AllSmall, Rank;
    JoinedSmall(items[..i], Region(pos, if items[i].len < len then len else items[i].len), items[i + 1..]);
  }

  lemma ShortBetween(items: seq<Region>, pos: int, len: nat, i: nat)
    requires i <= |items| && i == Rank(items, pos) && AllSmall(items[..i]) && AllSmall(items[i..])
    requires i < |items| ==> pos < items[i].pos
    ensures Fits32(items, pos, len) <==> Short(items, pos, len)
  {
    hide Joined, AllSmall, Rank;
    JoinedSmall(items[..i], Region(pos, len), items[i..]);
  }

  /** Where a merged length does not fit, a byte that was covered is not any more. */
  lemma MergedLoses(items: seq<Region>, pos: int, len: nat) returns (x: int)
    requires Normal(items) && AllSmall(items) && len < TWO32 && !Fits32(items, pos, len)
    ensures Covers(items, x) || In(Region(pos, len), x)
    ensures !Covers(Merged(items, pos, len), x)
  {
    hide Covers, Joined, Normal, AllSmall;
    NormalSorted(items);
    var i := Rank(items, pos);
    SmallCut(items, i);
    NormalParts(items, i, i);
    if i < |items| && items[i].pos == pos {
      SmallCut(items, i + 1);
      NormalParts(items, i, i + 1);
      SmallAt(items, i);
      x := JoinedLoses(items[..i], Region(pos, if items[i].len < len then len else items[i].len), items[i + 1..]);
      CoversAt(items, i, x);
    } else {
      x := JoinedLoses(items[..i], Region(pos, len), items[i..]);
      CoversCut(items, i, x);
    }
  }

  lemma SmallAt(items: seq<Region>, i: nat)
    requires AllSmall(items) && i < |items|
    ensures items[i].len < TWO32
  {
  }

  /** For a tree in normal form: an insertion covers exactly the old bytes and the new
      region if and only if the regions it merges span fewer than 2^32 bytes. */
  lemma MergedExact(items: seq<Region>, pos: int, len: nat)
    requires Normal(items) && AllSmall(items) && len < TWO32
    ensures Short(items, pos, len) <==>
              forall x :: Covers(Merged(items, pos, len), x) <==> Covers(items, x) || In(Region(pos, len), x)
  {
    hide Covers, Merged, Normal, Sorted, Short, Fits32, AllSmall, In;
    NormalSorted(items);
    ShortFits(items, pos, len);
    if Fits32(items, pos, len) {
      forall x ensures Covers(Merged(items, pos, len), x) <==> Covers(items, x) || In(Region(pos, len), x) {
        MergedCovers(items, pos, len, x);
      }
    } else {
      var x := MergedLoses(items, pos, len);
    }
  }

  lemma ReachesFrom(items: seq<Region>, pos: int, len: nat, k: nat)
    requires Normal(items) && k <= |items| && (forall i :: 0 <= i < k ==> items[i].pos <= pos)
             && (k < |items| ==> pos < items[k].pos)
    ensures Reaches1(items, pos, len) <==> (k + 1 < |items| ==> pos + len < items[k + 1].pos)
  {
    if k + 1 < |items| && pos + len < items[k + 1].pos {
      forall i, j | 0 <= i < j < |items| && pos < items[i].pos ensures pos + len < items[j].pos {
        assert items[k + 1].pos <= items[j].pos;
      }
    }
  }

  /** A region that shares no byte with a tree in normal form keeps it in normal form. */
  lemma DisjointNormal(items: seq<Region>, pos: int, len: nat)
    requires Normal(items) && Fits32(items, pos, len) && forall i :: 0 <= i < |items| ==> items[i].len > 0
    requires forall x :: In(Region(pos, len), x) ==> !Covers(items, x)
    ensures Normal(Merged(items, pos, len))
  {
    hide Merged, Fits32;
    MergedNormal(items, pos, len);
    forall i, j | 0 <= i < j < |items| && pos < items[i].pos ensures pos + len < items[j].pos {
      assert In(items[i], items[i].pos);
      assert Covers(items, items[i].pos);
      assert !In(Region(pos, len), items[i].pos);
    }
  }
}
