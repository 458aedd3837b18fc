/** Runs of the dirty-update protocol (src/fdb_internal.h over src/filemgr.cc): one
    serialized writer, any number of readers, each step atomic. */
module DirtyRuns {
  import opened Options
  import opened DirtyUpdate

  /** Where the writer is: `_fdb_dirty_update_ready` starts Writing, and
      `_fdb_dirty_update_finalize` seals, closes the previous update and perhaps commits. */
  datatype Phase =
    | Resting
    | Writing(prev: Option<int>, node: Option<int>)
    | Sealing(prev: Option<int>, node: Option<int>)
    | Closing(node: Option<int>)
    | Flushing(node: Option<int>)

  /** A handle that holds a reference, and the blocks its update had when it got it. */
  datatype Reader = Reader(id: int, snap: map<int, Bytes>)

  /** cur is what the writer last wrote to each block, sealed the same as of the last
      sealed update; lost are the blocks whose last sealed write is neither in the latest
      update nor in the file. */
  datatype World = World(o: Overlay, phase: Phase, readers: map<int, Reader>, cur: map<int, Bytes>,
                         sealed: map<int, Bytes>, lost: set<int>)

  datatype Step =
    | Open(h: int)
    | Share(h: int, h2: int)
    | Drop(h: int)
    | Ready(dirty: bool)
    | Write(bid: int, data: Bytes)
    | SealUpdate
    | ClosePrev
    | Finish
    | FlushUpdate
    | TidyUp
    | Allow(writable: set<int>)

  function Data(blocks: map<int, Block>): map<int, Bytes> {
    map b | b in blocks :: blocks[b].data
  }

  function Init(file: map<int, Bytes>, writable: set<int>): World {
    World(Overlay(map[], None, 0, file, writable), Resting, map[], file, file, {})
  }

  predicate Known(o: Overlay, id: Option<int>) {
    id.Some? ==> id.value in o.updates
  }

  /** When a step may happen.  An update must still exist to be used. */
  predicate Can(w: World, s: Step) {
    match s
    case Open(h) => h !in w.readers && Known(w.o, w.o.latest)
    case Share(h, h2) => h in w.readers && h2 !in w.readers && w.readers[h].id in w.o.updates
    case Drop(h) => h in w.readers && w.readers[h].id in w.o.updates && w.o.updates[w.readers[h].id].refs > 0
    case Ready(_) => w.phase.Resting? && Known(w.o, w.o.latest)
    case Write(_, _) => w.phase.Writing? && Known(w.o, w.phase.node)
    case SealUpdate => w.phase.Writing? && Known(w.o, w.phase.node) && Known(w.o, w.phase.prev)
    case ClosePrev => w.phase.Sealing? && Known(w.o, w.phase.prev)
        && (w.phase.prev.Some? ==> w.o.updates[w.phase.prev.value].refs > 0)
    case Finish => w.phase.Closing?
    case FlushUpdate => w.phase.Closing? && Known(w.o, w.phase.node)
    case TidyUp => w.phase.Flushing?
    case Allow(_) => true
  }

  function OpenStep(w: World, h: int, id: int): World
    requires id in w.o.updates
  {
    w.(o := Hold(w.o, id), readers := w.readers[h := Reader(id, Data(w.o.updates[id].blocks))])
  }

  function ReadyStep(w: World, dirty: bool): World
    requires Known(w.o, w.o.latest)
  {
    var prev := w.o.latest;
    var o1 := if prev.Some? then Hold(w.o, prev.value) else w.o;
    if prev.Some? || dirty then
      var id := o1.counter + 1;
      w.(o := o1.(counter := id, updates := o1.updates[id := Update(false, false, 0, map[])]),
         phase := Writing(prev, Some(id)))
    else w.(o := o1, phase := Writing(prev, None))
  }

  function WriteStep(w: World, bid: int, data: Bytes): World
    requires w.phase.Writing? && Known(w.o, w.phase.node)
  {
    if w.phase.node.Some? then
      w.(o := Put(w.o, w.phase.node.value, bid, data), cur := w.cur[bid := data])
    else
      w.(o := w.o.(file := w.o.file[bid := data]), cur := w.cur[bid := data], sealed := w.sealed[bid := data],
         lost := w.lost - {bid})
  }

  /** Blocks that only the previous update has, that are not writable and differ in the file:
      sealing passes them by. */
  function Dropped(o: Overlay, prev: Option<int>, id: int): set<int>
    requires id in o.updates && Known(o, prev)
  {
    if prev.None? then {} else
      var p := o.updates[prev.value];
      set b | b in p.blocks && b !in o.updates[id].blocks && b !in o.writable && p.blocks[b].data != FileRead(o.file, b)
  }

  function SealStep(w: World): World
    requires w.phase.Writing? && Known(w.o, w.phase.node) && Known(w.o, w.phase.prev)
  {
    var w' := w.(sealed := w.cur, phase := Sealing(w.phase.prev, w.phase.node));
    if w.phase.node.None? then w' else
      var id := w.phase.node.value;
      w'.(o := Seal(w.o, w.phase.prev, id),
          lost := w.lost - w.o.updates[id].blocks.Keys + Dropped(w.o, w.phase.prev, id))
  }

  /** Blocks of the latest update that are not in the file. */
  function Unwritten(o: Overlay): set<int> {
    if o.latest.None? || o.latest.value !in o.updates then {} else
      var u := o.updates[o.latest.value];
      set b | b in u.blocks && u.blocks[b].data != FileRead(o.file, b)
  }

  function Next(w: World, s: Step): World
    requires Can(w, s)
  {
    match s
    case Open(h) => if w.o.latest.Some? then OpenStep(w, h, w.o.latest.value) else w
    case Share(h, h2) => OpenStep(w, h2, w.readers[h].id)
    case Drop(h) => w.(o := Release(w.o, w.readers[h].id), readers := w.readers - {h})
    case Ready(dirty) => ReadyStep(w, dirty)
    case Write(bid, data) => WriteStep(w, bid, data)
    case SealUpdate => SealStep(w)
    case ClosePrev =>
      w.(o := if w.phase.prev.Some? then Release(w.o, w.phase.prev.value) else w.o, phase := Closing(w.phase.node))
    case Finish => w.(phase := Resting)
    case FlushUpdate =>
      w.(o := if w.phase.node.Some? then Flush(w.o, w.phase.node.value) else w.o, phase := Flushing(w.phase.node))
    case TidyUp => w.(o := Tidy(w.o), phase := Resting, lost := w.lost + Unwritten(w.o))
    case Allow(writable) => w.(o := w.o.(writable := writable))
  }

  // ----- the invariant -----

  /** The id the writer holds a reference to. */
  function Held(p: Phase): Option<int> {
    if p.Writing? || p.Sealing? then p.prev else None
  }

  function Holders(readers: map<int, Reader>, id: int): set<int> {
    set h | h in readers && readers[h].id == id
  }

  ghost predicate Counted(w: World) {
    && (forall i :: i in w.o.updates ==>
          w.o.updates[i].refs == |Holders(w.readers, i)| + if Held(w.phase) == Some(i) then 1 else 0)
    && Known(w.o, Held(w.phase))
  }

  /** Readers' updates exist, are immutable and hold what they held at the start. */
  ghost predicate Isolated(w: World) {
    forall h :: h in w.readers ==>
      var r := w.readers[h];
      r.id in w.o.updates && w.o.updates[r.id].immutable && Data(w.o.updates[r.id].blocks) == r.snap
  }

  /** latest is null or the highest immutable id in the index. */
  ghost predicate LatestHighest(o: Overlay) {
    o.latest.Some? ==>
      o.latest.value in o.updates && o.updates[o.latest.value].immutable &&
      forall i :: i in o.updates && o.updates[i].immutable ==> i <= o.latest.value
  }

  ghost predicate Numbered(w: World) {
    && (forall i :: i in w.o.updates ==> 1 <= i <= w.o.counter)
    && (forall i :: i in w.o.updates && !w.o.updates[i].immutable ==> w.phase.Writing? && w.phase.node == Some(i))
  }

  ghost predicate Placed(w: World) {
    match w.phase
    case Resting => true
    case Writing(prev, node) =>
      && prev == w.o.latest
      && (if node.Some? then node.value in w.o.updates && node.value == w.o.counter
          && !w.o.updates[node.value].immutable else prev.None?)
    case Sealing(prev, node) => w.o.latest == node
    case Closing(node) => w.o.latest == node
    case Flushing(node) => w.o.latest == node
  }

  ghost predicate NoFlags(u: Update) {
    forall b :: b in u.blocks ==> !u.blocks[b].immutable
  }

  /** Uncommitted updates are not expired and have no block marked as committed. */
  ghost predicate Current(w: World) {
    && (w.o.latest.Some? && w.o.latest.value in w.o.updates ==>
          var u := w.o.updates[w.o.latest.value]; NoFlags(u) && (u.expired ==> w.phase.Flushing?))
    && (w.phase.Writing? && w.phase.node.Some? && w.phase.node.value in w.o.updates ==>
          var u := w.o.updates[w.phase.node.value]; NoFlags(u) && !u.expired)
  }

  /** The latest update holds last sealed writes; elsewhere the file does, except for the lost
      blocks; and what the writer wrote since is in its own update. */
  ghost predicate SeenAt(w: World, b: int) {
    && (if Dirty(w.o, w.o.latest, b) then b !in w.lost && Look(w.o, w.o.latest, None, b) == FileRead(w.sealed, b)
        else (b !in w.lost <==> FileRead(w.o.file, b) == FileRead(w.sealed, b)))
    && FileRead(w.cur, b) == if w.phase.Writing? && Dirty(w.o, w.phase.node, b) then Look(w.o, None, w.phase.node, b)
                             else FileRead(w.sealed, b)
  }

  ghost predicate Seen(w: World) {
    forall b :: SeenAt(w, b)
  }

  ghost predicate Inv(w: World) {
    && Counted(w) && Isolated(w) && LatestHighest(w.o) && Numbered(w) && Placed(w) && Current(w) && Seen(w)
  }

  lemma InitInv(file: map<int, Bytes>, writable: set<int>)
    ensures Inv(Init(file, writable))
  {
  }

  // ----- steps that only touch reference counts -----

  ghost predicate SameBlocks(o: Overlay, o': Overlay) {
    && o'.updates.Keys == o.updates.Keys && o'.latest == o.latest && o'.counter == o.counter && o'.file == o.file
       && o'.writable == o.writable
    && (forall i :: i in o.updates ==> o'.updates[i] == o.updates[i].(refs := o'.updates[i].refs))
  }

  /** Everything but the counts carries over. */
  lemma RefsOnly(w: World, w': World)
    requires Inv(w) && SameBlocks(w.o, w'.o) && w'.cur == w.cur && w'.sealed == w.sealed && w'.lost == w.lost
    requires w'.phase == w.phase || (w.phase.Sealing? && w'.phase == Closing(w.phase.node))
    ensures LatestHighest(w'.o) && Numbered(w') && Placed(w') && Current(w') && Seen(w')
  {
    hide FileRead, Counted, Isolated;
    forall b ensures SeenAt(w', b) {
      assert SeenAt(w, b);
      LookSame(w.o, w'.o, w.o.latest, None, b);
      if w.phase.Writing? {
        LookSame(w.o, w'.o, w.phase.node, w.phase.node, b);
        LookSame(w.o, w'.o, None, w.phase.node, b);
      }
    }
  }

  lemma LookSame(o: Overlay, o': Overlay, reader: Option<int>, writer: Option<int>, b: int)
    requires SameBlocks(o, o')
    ensures Look(o', reader, writer, b) == Look(o, reader, writer, b) && (Dirty(o', reader, b) <==> Dirty(o, reader, b))
  {
    hide FileRead;
    forall i
      ensures i in o'.updates <==> i in o.updates
      ensures i in o.updates ==> o'.updates[i].blocks == o.updates[i].blocks
    {
      assert i in o'.updates.Keys <==> i in o.updates.Keys;
    }
  }

  lemma HoldersPut(readers: map<int, Reader>, h: int, r: Reader, i: int)
    requires h !in readers
    ensures |Holders(readers[h := r], i)| == |Holders(readers, i)| + if r.id == i then 1 else 0
  {
    assert Holders(readers[h := r], i) == Holders(readers, i) + if r.id == i then {h} else {};
  }

  lemma HoldersDrop(readers: map<int, Reader>, h: int, i: int)
    requires h in readers
    ensures |Holders(readers - {h}, i)| == |Holders(readers, i)| - if readers[h].id == i then 1 else 0
  {
    assert Holders(readers - {h}, i) == Holders(readers, i) - {h};
  }

  lemma OpenInv(w: World, h: int, id: int)
    requires Inv(w) && h !in w.readers && id in w.o.updates && w.o.updates[id].immutable
    ensures Inv(OpenStep(w, h, id))
  {
    hide LatestHighest, Numbered, Placed, Current, Seen, Holders, Data;
    var w' := OpenStep(w, h, id);
    RefsOnly(w, w');
    forall i ensures |Holders(w'.readers, i)| == |Holders(w.readers, i)| + if id == i then 1 else 0 {
      HoldersPut(w.readers, h, w'.readers[h], i);
    }
  }

  lemma DropInv(w: World, h: int)
    requires Inv(w) && Can(w, Drop(h))
    ensures Inv(Next(w, Drop(h)))
  {
    hide LatestHighest, Numbered, Placed, Current, Seen, Holders, Data;
    var w' := Next(w, Drop(h));
    RefsOnly(w, w');
    forall i ensures |Holders(w'.readers, i)| == |Holders(w.readers, i)| - if w.readers[h].id == i then 1 else 0 {
      HoldersDrop(w.readers, h, i);
    }
  }

  lemma ClosePrevInv(w: World)
    requires Inv(w) && Can(w, ClosePrev)
    ensures Inv(Next(w, ClosePrev))
  {
    hide LatestHighest, Numbered, Placed, Current, Seen, Holders, Data;
    RefsOnly(w, Next(w, ClosePrev));
  }

  // ----- the writer's steps -----

  lemma NoHolders(w: World, i: int)
    requires Isolated(w) && i !in w.o.updates
    ensures Holders(w.readers, i) == {}
  {
    forall h | h in w.readers ensures w.readers[h].id != i {}
  }

  lemma HolderCount(readers: map<int, Reader>, h: int)
    requires h in readers
    ensures |Holders(readers, readers[h].id)| > 0
  {
    assert h in Holders(readers, readers[h].id);
  }

  lemma ReadyCounts(w: World, dirty: bool)
    requires Inv(w) && Can(w, Ready(dirty))
    ensures Counted(Next(w, Ready(dirty))) && Isolated(Next(w, Ready(dirty)))
  {
    hide Data, Holders, Current, Seen, LatestHighest;
    NoHolders(w, w.o.counter + 1);
  }

  lemma ReadyPlaces(w: World, dirty: bool)
    requires Inv(w) && Can(w, Ready(dirty))
    ensures var w' := Next(w, Ready(dirty));
            LatestHighest(w'.o) && Numbered(w') && Placed(w') && Current(w')
  {
    hide Data, Holders, Counted, Isolated, Seen;
  }

  lemma ReadySeen(w: World, dirty: bool)
    requires Inv(w) && Can(w, Ready(dirty))
    ensures Seen(Next(w, Ready(dirty)))
  {
    hide Data, Holders, Counted, Isolated, Current, FileRead;
    var w' := Next(w, Ready(dirty));
    forall b ensures SeenAt(w', b) {
      assert SeenAt(w, b);
    }
  }

  lemma ReadyInv(w: World, dirty: bool)
    requires Inv(w) && Can(w, Ready(dirty))
    ensures Inv(Next(w, Ready(dirty)))
  {
    ReadyCounts(w, dirty);
    ReadyPlaces(w, dirty);
    ReadySeen(w, dirty);
  }

  lemma WriteCounts(w: World, bid: int, data: Bytes)
    requires Inv(w) && Can(w, Write(bid, data))
    ensures Counted(Next(w, Write(bid, data))) && Isolated(Next(w, Write(bid, data)))
  {
    hide Data, Holders, Current, Seen, LatestHighest;
  }

  lemma WritePlaces(w: World, bid: int, data: Bytes)
    requires Inv(w) && Can(w, Write(bid, data))
    ensures var w' := Next(w, Write(bid, data));
            LatestHighest(w'.o) && Numbered(w') && Placed(w') && Current(w')
  {
    hide Data, Holders, Counted, Isolated, Seen;
  }

  lemma LookPut(o: Overlay, id: int, bid: int, data: Bytes, reader: Option<int>, b: int)
    requires id in o.updates && reader != Some(id)
    ensures var o' := Put(o, id, bid, data);
            && o'.latest == o.latest && o'.file == o.file
            && (Dirty(o', Some(id), b) <==> b == bid || Dirty(o, Some(id), b))
            && (Dirty(o', reader, b) <==> Dirty(o, reader, b))
            && Look(o', None, Some(id), b) == (if b == bid then data else Look(o, None, Some(id), b))
            && Look(o', reader, None, b) == Look(o, reader, None, b)
  {
  }

  lemma WriteSeen(w: World, bid: int, data: Bytes)
    requires Inv(w) && Can(w, Write(bid, data))
    ensures Seen(Next(w, Write(bid, data)))
  {
    hide Counted, Isolated, Current, Numbered, Put, Look, Dirty;
    var w' := Next(w, Write(bid, data));
    forall b ensures SeenAt(w', b) {
      assert SeenAt(w, b);
      if w.phase.node.Some? {
        assert w.o.latest != w.phase.node;
        LookPut(w.o, w.phase.node.value, bid, data, w.o.latest, b);
      } else {
        NoLatest(w.o, b);
        NoLatest(w'.o, b);
      }
    }
  }

  lemma NoLatest(o: Overlay, b: int)
    ensures !Dirty(o, None, b) && Look(o, None, None, b) == FileRead(o.file, b)
  {
  }

  lemma WriteInv(w: World, bid: int, data: Bytes)
    requires Inv(w) && Can(w, Write(bid, data))
    ensures Inv(Next(w, Write(bid, data)))
  {
    WriteCounts(w, bid, data);
    WritePlaces(w, bid, data);
    WriteSeen(w, bid, data);
  }

  lemma FinishInv(w: World)
    requires Inv(w) && Can(w, Finish)
    ensures Inv(Next(w, Finish))
  {
    hide Data, Holders, FileRead, Look;
    var w' := Next(w, Finish);
    forall b ensures SeenAt(w', b) {
      assert SeenAt(w, b);
    }
  }

  lemma AllowInv(w: World, writable: set<int>)
    requires Inv(w)
    ensures Inv(Next(w, Allow(writable)))
  {
    hide Data, Holders, FileRead;
    var w' := Next(w, Allow(writable));
    forall b ensures SeenAt(w', b) {
      assert SeenAt(w, b);
    }
  }

  lemma FlushSeen(w: World)
    requires Inv(w) && Can(w, FlushUpdate)
    ensures Seen(Next(w, FlushUpdate))
  {
    hide Data, Holders, Counted, Isolated, LatestHighest, Numbered;
    var w' := Next(w, FlushUpdate);
    forall b ensures SeenAt(w', b) {
      assert SeenAt(w, b);
    }
  }

  lemma FlushInv(w: World)
    requires Inv(w) && Can(w, FlushUpdate)
    ensures Inv(Next(w, FlushUpdate))
  {
    hide Data, Holders, Seen;
    FlushSeen(w);
  }

  lemma TidyCounts(w: World)
    requires Inv(w) && Can(w, TidyUp)
    ensures Counted(Next(w, TidyUp)) && Isolated(Next(w, TidyUp))
  {
    hide Data, Holders, Current, Seen, LatestHighest;
    forall h | h in w.readers ensures |Holders(w.readers, w.readers[h].id)| > 0 {
      HolderCount(w.readers, h);
    }
  }

  lemma TidySeen(w: World)
    requires Inv(w) && Can(w, TidyUp)
    ensures Seen(Next(w, TidyUp))
  {
    hide Data, Holders, Counted, Isolated, LatestHighest, Numbered, Current;
    var w' := Next(w, TidyUp);
    forall b ensures SeenAt(w', b) {
      assert SeenAt(w, b);
    }
  }

  lemma TidyInv(w: World)
    requires Inv(w) && Can(w, TidyUp)
    ensures Inv(Next(w, TidyUp))
  {
    hide Data, Holders, Counted, Isolated, Seen;
    TidyCounts(w);
    TidySeen(w);
  }

  // ----- sealing -----

  /** Exactly when a block reads the same through the sealed update as it did through the
      writer above the previous update above the file. */
  lemma SealReads(o: Overlay, prev: int, id: int, b: int)
    requires prev in o.updates && id in o.updates && prev != id
    ensures var p, n := o.updates[prev], o.updates[id];
            Look(Seal(o, Some(prev), id), Some(id), None, b) == Look(o, Some(prev), Some(id), b) <==>
              (b in n.blocks || b !in p.blocks || (!p.expired && !Committed(p, o.writable, b))
               || p.blocks[b].data == FileRead(o.file, b))
  {
  }

  lemma SealReadsFirst(o: Overlay, id: int, b: int)
    requires id in o.updates
    ensures Look(Seal(o, None, id), Some(id), None, b) == Look(o, None, Some(id), b)
  {
  }

  lemma SealCounts(w: World)
    requires Inv(w) && Can(w, SealUpdate) && w.phase.node.Some?
    ensures Counted(Next(w, SealUpdate))
  {
    hide Data, Holders, Current, Seen, LatestHighest, Isolated, Taken;
  }

  lemma YieldData(p: Update, n: Update, writable: set<int>)
    requires p.refs != 1
    ensures Data(Yield(p, n, writable).blocks) == Data(p.blocks)
    ensures Yield(p, n, writable).immutable == p.immutable && Yield(p, n, writable).refs == p.refs
  {
  }

  lemma SealIsolated(w: World)
    requires Inv(w) && Can(w, SealUpdate) && w.phase.node.Some?
    ensures Isolated(Next(w, SealUpdate))
  {
    hide Data, Holders, Current, Seen, LatestHighest, Taken, Yield, Absorb;
    forall h | h in w.readers ensures |Holders(w.readers, w.readers[h].id)| > 0 {
      HolderCount(w.readers, h);
    }
    if w.phase.prev.Some? && w.o.updates[w.phase.prev.value].refs != 1 {
      YieldData(w.o.updates[w.phase.prev.value], w.o.updates[w.phase.node.value], w.o.writable);
    }
  }

  lemma SealPlaces(w: World)
    requires Inv(w) && Can(w, SealUpdate) && w.phase.node.Some?
    ensures var w' := Next(w, SealUpdate); LatestHighest(w'.o) && Numbered(w') && Placed(w')
  {
    hide Data, Holders, Current, Seen, Isolated, Taken, Counted;
  }

  lemma SealBlocks(w: World)
    requires Inv(w) && Can(w, SealUpdate) && w.phase.node.Some?
    ensures var w' := Next(w, SealUpdate); Current(w')
  {
    hide Data, Holders, Seen, Isolated, Counted;
  }

  lemma SealSeen(w: World)
    requires Inv(w) && Can(w, SealUpdate) && w.phase.node.Some?
    ensures Seen(Next(w, SealUpdate))
  {
    hide Data, Holders, Isolated, Counted, Numbered, Seal;
    var id := w.phase.node.value;
    assert w.phase.prev != Some(id);
    var w' := Next(w, SealUpdate);
    forall b ensures SeenAt(w', b) {
      assert SeenAt(w, b);
      SealHas(w.o, w.phase.prev, id, b);
    }
  }

  /** The blocks of a sealed update. */
  lemma SealHas(o: Overlay, prev: Option<int>, id: int, b: int)
    requires id in o.updates && Known(o, prev) && prev != Some(id)
    requires prev.Some? ==> !o.updates[prev.value].expired && NoFlags(o.updates[prev.value])
    ensures var o' := Seal(o, prev, id);
            && o'.latest == Some(id) && o'.file == o.file
            && (Dirty(o', Some(id), b) <==> Dirty(o, Some(id), b) || (Dirty(o, prev, b) && b in o.writable))
            && (Dirty(o', Some(id), b) ==> Look(o', Some(id), None, b) == Look(o, prev, Some(id), b))
  {
  }

  /** Without an update there was nothing to seal. */
  lemma SealNothing(w: World)
    requires Inv(w) && Can(w, SealUpdate) && w.phase.node.None?
    ensures Inv(Next(w, SealUpdate))
  {
    hide Data, Holders;
    var w' := Next(w, SealUpdate);
    forall b ensures SeenAt(w', b) {
      assert SeenAt(w, b);
    }
  }

  lemma SealInv(w: World)
    requires Inv(w) && Can(w, SealUpdate)
    ensures Inv(Next(w, SealUpdate))
  {
    hide Seal, Counted, Isolated, Numbered, Placed, Current, Seen, LatestHighest;
    if w.phase.node.Some? {
      SealCounts(w);
      SealIsolated(w);
      SealPlaces(w);
      SealBlocks(w);
      SealSeen(w);
    } else {
      SealNothing(w);
    }
  }

  // ----- all runs -----

  lemma StepInv(w: World, s: Step)
    requires Inv(w) && Can(w, s)
    ensures Inv(Next(w, s))
  {
    hide Counted, Isolated, Numbered, Placed, Current, Seen;
    match s
    case Open(h) => if w.o.latest.Some? { OpenInv(w, h, w.o.latest.value); }
    case Share(h, h2) => ReaderFacts(w, h); OpenInv(w, h2, w.readers[h].id);
    case Drop(h) => DropInv(w, h);
    case Ready(dirty) => ReadyInv(w, dirty);
    case Write(bid, data) => WriteInv(w, bid, data);
    case SealUpdate => SealInv(w);
    case ClosePrev => ClosePrevInv(w);
    case Finish => FinishInv(w);
    case FlushUpdate => FlushInv(w);
    case TidyUp => TidyInv(w);
    case Allow(writable) => AllowInv(w, writable);
  }

  /** The world after a run; a run stops at a step that cannot happen. */
  function After(w: World, run: seq<Step>): World
    decreases run
  {
    if run == [] || !Can(w, run[0]) then w else After(Next(w, run[0]), run[1..])
  }

  lemma {:induction false} RunInv(w: World, run: seq<Step>)
    requires Inv(w)
    ensures Inv(After(w, run))
    decreases run
  {
    hide Inv;
    if run != [] && Can(w, run[0]) {
      StepInv(w, run[0]);
      RunInv(Next(w, run[0]), run[1..]);
    }
  }

  lemma HeldRef(w: World)
    requires Counted(w)
    ensures Held(w.phase).Some? ==> Held(w.phase).value in w.o.updates && w.o.updates[Held(w.phase).value].refs > 0
  {
    if Held(w.phase).Some? {
      var i := Held(w.phase).value;
      assert Held(w.phase) == Some(i) && i in w.o.updates && |Holders(w.readers, i)| >= 0;
    }
  }

  lemma ReaderFacts(w: World, h: int)
    requires Inv(w) && h in w.readers
    ensures var r := w.readers[h];
            r.id in w.o.updates && w.o.updates[r.id].immutable && w.o.updates[r.id].refs > 0
                && Data(w.o.updates[r.id].blocks) == r.snap
  {
    hide Data;
    HolderCount(w.readers, h);
  }

  /** In every run: a reader's update is never freed and holds exactly the blocks and bytes
      it held when the reader got it. */
  lemma ReaderIsolation(file: map<int, Bytes>, writable: set<int>, run: seq<Step>, h: int, b: int)
    ensures var w := After(Init(file, writable), run);
            h in w.readers ==>
              var r := w.readers[h];
              && r.id in w.o.updates && w.o.updates[r.id].refs > 0
              && w.o.updates[r.id].blocks.Keys == r.snap.Keys
              && Look(w.o, Some(r.id), None, b) == if b in r.snap then r.snap[b] else FileRead(w.o.file, b)
  {
    hide Inv;
    InitInv(file, writable);
    RunInv(Init(file, writable), run);
    var w := After(Init(file, writable), run);
    if h in w.readers {
      ReaderFacts(w, h);
    }
  }

  /** In every run: the latest update is null or the highest immutable one in the index,
      every update handed to a caller still exists, and the closing steps find a reference
      to give back. */
  lemma LatestInRuns(file: map<int, Bytes>, writable: set<int>, run: seq<Step>)
    ensures var w := After(Init(file, writable), run);
            && LatestHighest(w.o)
            && (w.phase.Resting? ==> Can(w, Ready(true)))
            && (w.phase.Writing? ==> Can(w, SealUpdate))
            && (w.phase.Sealing? ==> Can(w, ClosePrev))
            && (w.phase.Closing? ==> Can(w, FlushUpdate))
            && (forall h :: h in w.readers ==> Can(w, Drop(h)))
  {
    InitInv(file, writable);
    RunInv(Init(file, writable), run);
    var w := After(Init(file, writable), run);
    HeldRef(w);
    forall h | h in w.readers ensures Can(w, Drop(h)) {
      ReaderFacts(w, h);
    }
  }

  /** In every run: where the next write of a writer that starts goes.  Without a latest
      update, and if none is asked for, it goes to the file and no update is made; otherwise
      the file stays and exactly one update is added, which holds the write alone. */
  lemma WriteGoes(file: map<int, Bytes>, writable: set<int>, run: seq<Step>, dirty: bool, b: int, x: Bytes)
    ensures var w := After(Init(file, writable), run);
            w.phase.Resting? ==>
              && Can(w, Ready(dirty)) && Can(Next(w, Ready(dirty)), Write(b, x))
              && var o := Next(Next(w, Ready(dirty)), Write(b, x)).o;
              if w.o.latest.None? && !dirty then o.file == w.o.file[b := x] && o.updates == w.o.updates
              else
                && o.file == w.o.file
                && o.updates.Keys == w.o.updates.Keys + {o.counter} && o.counter !in w.o.updates
                && Data(o.updates[o.counter].blocks) == map[b := x]
                && forall i :: i in w.o.updates ==> i < o.counter && o.updates[i].blocks == w.o.updates[i].blocks
  {
    hide Counted, Isolated, Current, Seen, LatestHighest, Placed;
    InitInv(file, writable);
    RunInv(Init(file, writable), run);
    var w := After(Init(file, writable), run);
    if w.phase.Resting? {
      assert LatestHighest(w.o);
      LatestThere(w.o);
      ReadyMakes(w, dirty);
      hide ReadyStep, Numbered;
      WriteAlone(Next(w, Ready(dirty)), b, x);
    }
  }

  lemma LatestThere(o: Overlay)
    requires LatestHighest(o)
    ensures Known(o, o.latest)
  {
  }

  /** What the start of a writer adds: nothing, or one empty update above all others. */
  lemma ReadyMakes(w: World, dirty: bool)
    requires Known(w.o, w.o.latest) && Numbered(w)
    ensures var w1 := ReadyStep(w, dirty);
            && w1.phase.Writing? && w1.o.file == w.o.file
            && if w.o.latest.None? && !dirty then w1.phase.node.None? && w1.o.updates == w.o.updates
               else
                 var id := w1.o.counter;
                 && w1.phase.node == Some(id) && id !in w.o.updates && w1.o.updates.Keys == w.o.updates.Keys + {id}
                 && w1.o.updates[id].blocks == map[]
                 && forall i :: i in w.o.updates ==> i < id && w1.o.updates[i].blocks == w.o.updates[i].blocks
  {
  }

  lemma WriteAlone(w: World, b: int, x: Bytes)
    requires w.phase.Writing? && Known(w.o, w.phase.node)
    ensures var o := WriteStep(w, b, x).o;
            if w.phase.node.None? then o == w.o.(file := w.o.file[b := x])
            else
              var id := w.phase.node.value;
              && o.file == w.o.file && o.counter == w.o.counter && o.updates.Keys == w.o.updates.Keys
              && (w.o.updates[id].blocks == map[] ==> Data(o.updates[id].blocks) == map[b := x])
              && forall i :: i in w.o.updates && i != id ==> o.updates[i] == w.o.updates[i]
  {
  }

  /** In every run: a seal leaves no update without a user but the new one, and a commit
      leaves none at all. */
  lemma NoIdleUpdates(file: map<int, Bytes>, writable: set<int>, run: seq<Step>, i: int)
    ensures var w := After(Init(file, writable), run);
            && (w.phase.Writing? && w.phase.node.Some? ==>
                  Can(w, SealUpdate) && (i in Next(w, SealUpdate).o.updates ==>
                    i == w.phase.node.value || w.phase.prev == Some(i) || Holders(w.readers, i) != {}))
            && (w.phase.Flushing? ==> (i in Next(w, TidyUp).o.updates ==> Holders(w.readers, i) != {}))
  {
    hide Isolated, Current, Seen, Holders, Absorb, Taken;
    InitInv(file, writable);
    RunInv(Init(file, writable), run);
    var w := After(Init(file, writable), run);
    HeldRef(w);
    if w.phase.Writing? && w.phase.node.Some? {
      var o, id := w.o, w.phase.node.value;
      if i in Next(w, SealUpdate).o.updates && i != id {
        assert i in o.updates && o.updates[i].immutable && i < id;
        assert Sealed(o, w.phase.prev, id)[i].refs == o.updates[i].refs;
      }
    }
    if w.phase.Flushing? && i in Next(w, TidyUp).o.updates {
      assert i in w.o.updates && w.o.updates[i].immutable && i <= w.o.counter;
    }
  }

  /** In every run: what a seal does to the two updates.  The new one takes over the writable
      blocks that only the old one has; the old one is expired, keeps its other blocks, with
      those not writable marked, and keeps the ones taken over only for its readers. */
  lemma SealMoves(file: map<int, Bytes>, writable: set<int>, run: seq<Step>, b: int)
    ensures var w := After(Init(file, writable), run);
            w.phase.Writing? && w.phase.prev.Some? && w.phase.node.Some? ==>
              && Can(w, SealUpdate)
              && var pid, id := w.phase.prev.value, w.phase.node.value;
              var p, n, us := w.o.updates[pid], w.o.updates[id], Next(w, SealUpdate).o.updates;
              var taken := b in p.blocks && b in w.o.writable && b !in n.blocks;
              && pid in us && us[pid].expired && id in us && us[id].immutable && !us[id].expired
              && (b in us[id].blocks <==> b in n.blocks || taken)
              && (b in us[id].blocks ==>
                    us[id].blocks[b] == Block(if taken then p.blocks[b].data else n.blocks[b].data, false))
              && (b in us[pid].blocks <==> b in p.blocks && !(taken && Holders(w.readers, pid) == {}))
              && (b in us[pid].blocks ==> us[pid].blocks[b] == Block(p.blocks[b].data, b !in w.o.writable))
  {
    hide Isolated, Seen, Holders, Seal;
    InitInv(file, writable);
    RunInv(Init(file, writable), run);
    var w := After(Init(file, writable), run);
    if w.phase.Writing? && w.phase.prev.Some? && w.phase.node.Some? {
      HeldRef(w);
      LatestThere(w.o);
      var pid := w.phase.prev.value;
      SealBoth(w.o, pid, w.phase.node.value, b);
      assert w.o.updates[pid].refs == |Holders(w.readers, pid)| + 1;
    }
  }

  lemma SealBoth(o: Overlay, pid: int, id: int, b: int)
    requires pid in o.updates && id in o.updates && pid < id
    requires var p, n := o.updates[pid], o.updates[id];
             !p.expired && !n.expired && NoFlags(p) && NoFlags(n) && p.refs > 0 && p.immutable
    ensures var p, n, us := o.updates[pid], o.updates[id], Seal(o, Some(pid), id).updates;
            var taken := b in p.blocks && b in o.writable && b !in n.blocks;
            && pid in us && us[pid].expired && id in us && us[id].immutable && !us[id].expired
            && (b in us[id].blocks <==> b in n.blocks || taken)
            && (b in us[id].blocks ==>
                  us[id].blocks[b] == Block(if taken then p.blocks[b].data else n.blocks[b].data, false))
            && (b in us[pid].blocks <==> b in p.blocks && !(taken && p.refs == 1))
            && (b in us[pid].blocks ==> us[pid].blocks[b] == Block(p.blocks[b].data, b !in o.writable))
  {
  }

  /** In every run: a flushed update is expired. */
  lemma FlushExpires(file: map<int, Bytes>, writable: set<int>, run: seq<Step>)
    ensures var w := After(Init(file, writable), run);
            w.phase.Closing? && w.phase.node.Some? ==>
              && Can(w, FlushUpdate) && w.phase.node.value in w.o.updates
              && var u, o := w.o.updates[w.phase.node.value], Next(w, FlushUpdate).o;
              o.updates == w.o.updates[w.phase.node.value := u.(expired := true)] && o.latest == w.phase.node
  {
    hide Counted, Isolated, Seen, Current;
    InitInv(file, writable);
    RunInv(Init(file, writable), run);
  }

  /** In every run: sealing leaves every writable block reading through the new update as it
      did through writer over previous over file. */
  lemma SealPreserves(file: map<int, Bytes>, writable: set<int>, run: seq<Step>, b: int)
    ensures var w := After(Init(file, writable), run);
            w.phase.Writing? && w.phase.node.Some? && Can(w, SealUpdate) && b in w.o.writable ==>
              Look(Next(w, SealUpdate).o, w.phase.node, None, b) == Look(w.o, w.phase.prev, w.phase.node, b)
  {
    hide Look, Seal;
    InitInv(file, writable);
    RunInv(Init(file, writable), run);
    var w := After(Init(file, writable), run);
    if w.phase.Writing? && w.phase.node.Some? && Can(w, SealUpdate) && b in w.o.writable {
      if w.phase.prev.Some? {
        SealReads(w.o, w.phase.prev.value, w.phase.node.value, b);
      } else {
        SealReadsFirst(w.o, w.phase.node.value, b);
      }
    }
  }

  /** In every run: after a commit a plain read of a block of the file returns what a reader of
      the update saw if and only if the update does not have the block, the block is
      writable, or the file had those bytes already. */
  lemma CommitInRuns(file: map<int, Bytes>, writable: set<int>, run: seq<Step>, b: int)
    ensures var w := After(Init(file, writable), run);
            w.phase.Closing? && Can(w, FlushUpdate) ==>
              var after := Next(Next(w, FlushUpdate), TidyUp).o.file;
              (FileRead(after, b) == Look(w.o, w.phase.node, None, b) <==>
                 !Dirty(w.o, w.phase.node, b) || b in w.o.writable
                 || Look(w.o, w.phase.node, None, b) == FileRead(w.o.file, b))
  {
    hide Counted, Isolated, Numbered, Seen;
    InitInv(file, writable);
    RunInv(Init(file, writable), run);
  }

  /** In every run: whoever opens the latest update sees the last sealed write of a block if and
      only if the block is not lost; the writer sees its last write if and only if the block
      is not lost or in its own update; and unless the writer is at work its last write is
      sealed. */
  lemma LastWriteSeen(file: map<int, Bytes>, writable: set<int>, run: seq<Step>, b: int)
    ensures var w := After(Init(file, writable), run);
            && (Look(w.o, w.o.latest, None, b) == FileRead(w.sealed, b) <==> b !in w.lost)
            && (w.phase.Writing? ==>
                  (Look(w.o, w.phase.prev, w.phase.node, b) == FileRead(w.cur, b) <==>
                     b !in w.lost || Dirty(w.o, w.phase.node, b)))
            && (!w.phase.Writing? ==> FileRead(w.sealed, b) == FileRead(w.cur, b))
  {
    hide Counted, Isolated, Numbered, Current;
    InitInv(file, writable);
    RunInv(Init(file, writable), run);
    assert SeenAt(After(Init(file, writable), run), b);
  }

  /** In every run: a block gets lost exactly by a seal that passes it by or by the end of a
      commit that did not write it, and is found again exactly by a seal of an update that
      has it or by a write to the file. */
  lemma LostChanges(file: map<int, Bytes>, writable: set<int>, run: seq<Step>, s: Step, b: int)
    ensures var w := After(Init(file, writable), run);
            Can(w, s) ==>
              && (b !in w.lost && b in Next(w, s).lost <==>
                    || (s == SealUpdate && w.phase.node.Some? && Dirty(w.o, w.phase.prev, b)
                        && !Dirty(w.o, w.phase.node, b) && b !in w.o.writable
                        && FileRead(w.o.file, b) != FileRead(w.sealed, b))
                    || (s == TidyUp && Dirty(w.o, w.o.latest, b) && FileRead(w.o.file, b) != FileRead(w.sealed, b)))
              && (b in w.lost && b !in Next(w, s).lost <==>
                    || (s == SealUpdate && b in w.lost && Dirty(w.o, w.phase.node, b))
                    || (s.Write? && s.bid == b && b in w.lost && w.phase.node.None?))
  {
    hide Counted, Isolated, Numbered, Current;
    InitInv(file, writable);
    RunInv(Init(file, writable), run);
    assert SeenAt(After(Init(file, writable), run), b);
  }

  /** In every run: the update a writer builds on is not expired, so sealing changes what a
      block reads as exactly when only the previous update has it, it is not writable, and
      the file has other bytes. */
  lemma SealInRuns(file: map<int, Bytes>, writable: set<int>, run: seq<Step>, b: int)
    ensures var w := After(Init(file, writable), run);
            w.phase.Writing? && w.phase.prev.Some? && w.phase.node.Some? && Can(w, SealUpdate) ==>
              var p, n := w.o.updates[w.phase.prev.value], w.o.updates[w.phase.node.value];
              && !p.expired
              && (Look(Next(w, SealUpdate).o, w.phase.node, None, b) == Look(w.o, w.phase.prev, w.phase.node, b) <==>
                    b in n.blocks || b !in p.blocks || b in w.o.writable || p.blocks[b].data == FileRead(w.o.file, b))
  {
    hide Look, Seal, Counted, Isolated, Seen;
    InitInv(file, writable);
    RunInv(Init(file, writable), run);
    var w := After(Init(file, writable), run);
    if w.phase.Writing? && w.phase.prev.Some? && w.phase.node.Some? && Can(w, SealUpdate) {
      assert w.phase.prev == w.o.latest && w.phase.prev != w.phase.node;
      SealReads(w.o, w.phase.prev.value, w.phase.node.value, b);
    }
  }

  // ----- a run in which sealing changes a block -----

  const EMPTY := Update(false, false, 0, map[])
  const SEVEN := Update(false, false, 0, map[7 := Block([1], false)])
  const DATA: map<int, Bytes> := map[7 := [1]]

  lemma AfterStep(w: World, s: Step, rest: seq<Step>)
    requires Can(w, s)
    ensures After(w, [s] + rest) == After(Next(w, s), rest)
  {
    assert ([s] + rest)[1..] == rest;
  }

  /** A block is written and sealed. */
  lemma FirstHalf(rest: seq<Step>)
    ensures After(Init(map[], {7}),
                  [Ready(true)] + ([Write(7, [1])] + ([SealUpdate] + ([ClosePrev] + ([Finish] + rest)))))
            == After(World(Overlay(map[1 := SEVEN.(immutable := true)], Some(1), 1, map[], {7}), Resting, map[], DATA,
                           DATA, {}), rest)
  {
    hide After;
    var w0 := Init(map[], {7});
    var w1 := World(Overlay(map[1 := EMPTY], None, 1, map[], {7}), Writing(None, Some(1)), map[], map[], map[], {});
    assert Next(w0, Ready(true)) == w1;
    AfterStep(w0, Ready(true), [Write(7, [1])] + ([SealUpdate] + ([ClosePrev] + ([Finish] + rest))));
    var w2 := w1.(o := w1.o.(updates := map[1 := SEVEN]), cur := DATA);
    assert Next(w1, Write(7, [1])) == w2;
    AfterStep(w1, Write(7, [1]), [SealUpdate] + ([ClosePrev] + ([Finish] + rest)));
    var o := Overlay(map[1 := SEVEN.(immutable := true)], Some(1), 1, map[], {7});
    var w3 := World(o, Sealing(None, Some(1)), map[], DATA, DATA, {});
    assert Next(w2, SealUpdate).o.updates == o.updates;
    assert Next(w2, SealUpdate) == w3;
    AfterStep(w2, SealUpdate, [ClosePrev] + ([Finish] + rest));
    AfterStep(w3, ClosePrev, [Finish] + rest);
    AfterStep(w3.(phase := Closing(Some(1))), Finish, rest);
  }

  /** The block stops being writable before it is committed, and is gone after the next
      seal. */
  lemma SealChanges()
    ensures var w := After(Init(map[], {7}),
                           [Ready(true), Write(7, [1]), SealUpdate, ClosePrev, Finish, Allow({}), Ready(false)]);
            && w.phase == Writing(Some(1), Some(2)) && Can(w, SealUpdate)
            && Look(w.o, Some(1), Some(2), 7) == [1]
            && Look(Next(w, SealUpdate).o, Some(2), None, 7) == []
  {
    hide After;
    var rest := [Allow({})] + ([Ready(false)] + []);
    assert [Ready(true), Write(7, [1]), SealUpdate, ClosePrev, Finish, Allow({}), Ready(false)]
           == [Ready(true)] + ([Write(7, [1])] + ([SealUpdate] + ([ClosePrev] + ([Finish] + rest))));
    FirstHalf(rest);
    var u := SEVEN.(immutable := true);
    var w5 := World(Overlay(map[1 := u], Some(1), 1, map[], {7}), Resting, map[], DATA, DATA, {});
    AfterStep(w5, Allow({}), [Ready(false)] + []);
    var w6 := w5.(o := w5.o.(writable := {}));
    assert Next(w5, Allow({})) == w6;
    AfterStep(w6, Ready(false), []);
    var w7 := Next(w6, Ready(false));
    assert w7.o == Overlay(map[1 := u.(refs := 1), 2 := EMPTY], Some(1), 2, map[], {});
    assert After(w7, []) == w7 by { NoSteps(w7); }
    SealLoses(w7);
  }

  lemma NoSteps(w: World)
    ensures After(w, []) == w
  {
  }

  lemma SealLoses(w: World)
    requires w.o == Overlay(map[1 := SEVEN.(immutable := true, refs := 1), 2 := EMPTY], Some(1), 2, map[], {})
    requires w.phase == Writing(Some(1), Some(2))
    ensures Can(w, SealUpdate) && Look(w.o, Some(1), Some(2), 7) == [1]
    ensures Look(Next(w, SealUpdate).o, Some(2), None, 7) == []
  {
    assert Taken(w.o.updates[1], EMPTY, {}) == {};
    assert Absorb(w.o.updates[1], EMPTY, {}).blocks == map[];
  }
}
