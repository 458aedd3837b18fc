/** The dirty-update overlay of a file: sets of not yet committed index blocks kept in
    memory above the file (src/filemgr.cc). */
module DirtyUpdate {
  import opened Options
  import opened Sets

  type Bytes = seq<int>

  datatype Block = Block(data: Bytes, immutable: bool)

  datatype Update = Update(immutable: bool, expired: bool, refs: nat, blocks: map<int, Block>)

  datatype Overlay = Overlay(updates: map<int, Update>, latest: Option<int>, counter: nat, file: map<int, Bytes>,
                             writable: set<int>)

  function FileRead(file: map<int, Bytes>, bid: int): Bytes {
    if bid in file then file[bid] else []
  }

  predicate Dirty(o: Overlay, id: Option<int>, bid: int) {
    id.Some? && id.value in o.updates && bid in o.updates[id.value].blocks
  }

  /** What a read of bid returns: the writer's block, else the reader's, else the file's. */
  function Look(o: Overlay, reader: Option<int>, writer: Option<int>, bid: int): Bytes {
    if Dirty(o, writer, bid) then o.updates[writer.value].blocks[bid].data
    else if Dirty(o, reader, bid) then o.updates[reader.value].blocks[bid].data
    else FileRead(o.file, bid)
  }

  // ----- sealing an update -----

  /** A block of the previous update that is already committed. */
  predicate Committed(p: Update, writable: set<int>, b: int)
    requires b in p.blocks
  {
    p.blocks[b].immutable || b !in writable
  }

  /** The blocks an update takes over from its predecessor. */
  function Taken(p: Update, n: Update, writable: set<int>): set<int> {
    if p.expired then {} else set b | b in p.blocks && !Committed(p, writable, b) && b !in n.blocks
  }

  function Absorb(p: Update, n: Update, writable: set<int>): Update {
    n.(immutable := true, blocks := n.blocks + map b | b in Taken(p, n, writable) :: p.blocks[b])
  }

  /** The predecessor afterwards: expired, committed blocks flagged, and the taken blocks
      gone if nobody but the writer holds it. */
  function Yield(p: Update, n: Update, writable: set<int>): Update {
    var moved := if p.immutable && p.refs == 1 then Taken(p, n, writable) else {};
    p.(expired := true,
       blocks := map b | b in p.blocks && b !in moved ::
             p.blocks[b].(immutable := p.blocks[b].immutable || (!p.expired && b !in writable)))
  }

  function Sealed(o: Overlay, prev: Option<int>, id: int): map<int, Update>
    requires id in o.updates && (prev.Some? ==> prev.value in o.updates)
  {
    if prev.None? then o.updates[id := o.updates[id].(immutable := true)]
    else o.updates[prev.value := Yield(o.updates[prev.value], o.updates[id],
                                       o.writable)][id := Absorb(o.updates[prev.value], o.updates[id], o.writable)]
  }

  predicate Idle(u: Update) {
    u.immutable && u.refs == 0
  }

  /** Dropping the idle updates with an id below the given one. */
  function Purge(us: map<int, Update>, below: int): map<int, Update> {
    map i | i in us && !(i < below && Idle(us[i])) :: us[i]
  }

  function Seal(o: Overlay, prev: Option<int>, id: int): Overlay
    requires id in o.updates && (prev.Some? ==> prev.value in o.updates)
  {
    o.(updates := Purge(Sealed(o, prev, id), id), latest := Some(id))
  }

  /** The predecessor's blocks after all but those in todo were looked at. */
  ghost function YieldPart(p: Update, n: Update, writable: set<int>, todo: set<int>): map<int, Block> {
    var moved := if p.immutable && p.refs == 1 then Taken(p, n, writable) - todo else {};
    map b | b in p.blocks && b !in moved ::
          p.blocks[b].(immutable := p.blocks[b].immutable || (!p.expired && b !in todo && b !in writable))
  }

  /** The new update's blocks by then. */
  ghost function AbsorbPart(p: Update, n: Update, writable: set<int>, todo: set<int>): map<int, Block> {
    n.blocks + map b | b in Taken(p, n, writable) - todo :: p.blocks[b]
  }

  lemma PartEnds(p: Update, n: Update, writable: set<int>)
    ensures p.(expired := true, blocks := YieldPart(p, n, writable, {})) == Yield(p, n, writable)
    ensures n.(immutable := true, blocks := AbsorbPart(p, n, writable, {})) == Absorb(p, n, writable)
  {
  }

  lemma PartStart(p: Update, n: Update, writable: set<int>, todo: set<int>)
    requires todo == if p.expired then {} else p.blocks.Keys
    ensures YieldPart(p, n, writable, todo) == p.blocks && AbsorbPart(p, n, writable, todo) == n.blocks
  {
    assert Taken(p, n, writable) - todo == {};
    var y := YieldPart(p, n, writable, todo);
    assert y.Keys == p.blocks.Keys;
    forall b | b in p.blocks ensures y[b] == p.blocks[b] {
      assert p.blocks[b] == Block(p.blocks[b].data, p.blocks[b].immutable);
    }
  }

  lemma YieldStep(p: Update, n: Update, writable: set<int>, todo: set<int>, b: int)
    requires b in p.blocks && b !in todo && !p.expired
    ensures var p0, p1 := YieldPart(p, n, writable, todo + {b}), YieldPart(p, n, writable, todo);
            && b in p0 && p0[b] == p.blocks[b]
            && (Committed(p, writable, b) ==> p1 == p0[b := p.blocks[b].(immutable := true)])
            && (!Committed(p, writable, b) ==>
                  p1 == if b in Taken(p, n, writable) && p.immutable && p.refs == 1 then p0 - {b} else p0)
  {
    hide Taken;
    TakenAt(p, n, writable, b);
  }

  lemma AbsorbStep(p: Update, n: Update, writable: set<int>, todo: set<int>, b: int)
    requires b in p.blocks && b !in todo && !p.expired
    ensures var n0, n1 := AbsorbPart(p, n, writable, todo + {b}), AbsorbPart(p, n, writable, todo);
            n1 == (if b in Taken(p, n, writable) then n0[b := p.blocks[b]] else n0) && (b in n0 <==> b in n.blocks)
  {
    hide Taken;
    TakenAt(p, n, writable, b);
  }

  lemma TakenAt(p: Update, n: Update, writable: set<int>, b: int)
    requires b in p.blocks && !p.expired
    ensures b in Taken(p, n, writable) <==> !Committed(p, writable, b) && b !in n.blocks
    ensures Taken(p, n, writable) <= p.blocks.Keys
  {
  }

  lemma FlagFree(p: Update, n: Update, writable: set<int>)
    ensures Yield(p, n.(immutable := true), writable) == Yield(p, n, writable)
    ensures Absorb(p, n.(immutable := true), writable) == Absorb(p, n, writable)
  {
    assert Taken(p, n.(immutable := true), writable) == Taken(p, n, writable);
  }

  // ----- references and writes -----

  function Hold(o: Overlay, id: int): Overlay
    requires id in o.updates
  {
    o.(updates := o.updates[id := o.updates[id].(refs := o.updates[id].refs + 1)])
  }

  function Release(o: Overlay, id: int): Overlay
    requires id in o.updates && o.updates[id].refs > 0
  {
    o.(updates := o.updates[id := o.updates[id].(refs := o.updates[id].refs - 1)])
  }

  /** Overwriting a block of an update keeps the block's flag. */
  function Put(o: Overlay, id: int, bid: int, data: Bytes): Overlay
    requires id in o.updates
  {
    var u := o.updates[id];
    var flag := bid in u.blocks && u.blocks[bid].immutable;
    o.(updates := o.updates[id := u.(blocks := u.blocks[bid := Block(data, flag)])])
  }

  // ----- committing an update -----

  function Flushed(file: map<int, Bytes>, u: Update, writable: set<int>): map<int, Bytes> {
    file + map b | b in u.blocks && !Committed(u, writable, b) :: u.blocks[b].data
  }

  function Flush(o: Overlay, id: int): Overlay
    requires id in o.updates
  {
    o.(file := Flushed(o.file, o.updates[id], o.writable), updates := o.updates[id := o.updates[id].(expired := true)])
  }

  function Tidy(o: Overlay): Overlay {
    o.(latest := None, updates := Purge(o.updates, o.counter + 1))
  }

  /** The file after all but the blocks in todo were flushed. */
  ghost function FlushedPart(file: map<int, Bytes>, u: Update, writable: set<int>, todo: set<int>): map<int, Bytes> {
    file + map b | b in u.blocks && b !in todo && !Committed(u, writable, b) :: u.blocks[b].data
  }

  lemma FlushedStep(file: map<int, Bytes>, u: Update, writable: set<int>, todo: set<int>, b: int)
    requires b in u.blocks && b !in todo
    ensures var f := FlushedPart(file, u, writable, todo + {b});
            FlushedPart(file, u, writable, todo) == if Committed(u, writable, b) then f else f[b := u.blocks[b].data]
  {
  }

  lemma FlushedEnds(file: map<int, Bytes>, u: Update, writable: set<int>)
    ensures FlushedPart(file, u, writable, u.blocks.Keys) == file
            && FlushedPart(file, u, writable, {}) == Flushed(file, u, writable)
  {
  }

  /** The overlay of one open file. */
  class DirtyIndex {
    var updates: map<int, Update>
    var latest: Option<int>
    var counter: nat
    var file: map<int, Bytes>
    var writable: set<int>

    ghost function State(): Overlay
      reads this
    {
      Overlay(updates, latest, counter, file, writable)
    }

    /** `filemgr_dirty_update_init` */
    constructor (file: map<int, Bytes>, writable: set<int>)
      ensures State() == Overlay(map[], None, 0, file, writable)
    {
      this.updates := map[];
      this.latest := None;
      this.counter := 0;
      this.file := file;
      this.writable := writable;
    }

    /** `filemgr_read_dirty` */
    method Read(bid: int, reader: Option<int>, writer: Option<int>) returns (r: Bytes)
      requires reader.Some? ==> reader.value in updates
      requires writer.Some? ==> writer.value in updates
      ensures r == Look(State(), reader, writer, bid)
    {
      if writer.Some? {
        var u := updates[writer.value];
        if bid in u.blocks {
          return u.blocks[bid].data;
        }
      }
      if reader.Some? {
        var u := updates[reader.value];
        if bid in u.blocks {
          return u.blocks[bid].data;
        }
      }
      r := FileRead(file, bid);
    }

    /** `filemgr_dirty_update_flush` */
    method FlushBlocks(id: int)
      requires id in updates
      modifies this
      ensures State() == Flush(old(State()), id)
    {
      hide FlushedPart;
      var u := updates[id];
      ghost var f0 := file;
      FlushedEnds(f0, u, writable);
      var todo := u.blocks.Keys;
      while todo != {}
        invariant todo <= u.blocks.Keys && updates == old(updates) && latest == old(latest) && counter == old(counter)
                  && writable == old(writable)
        invariant file == FlushedPart(f0, u, writable, todo)
        decreases todo
      {
        LeastExists(todo);
        var b :| b in todo && forall x :: x in todo ==> b <= x;
        assert todo - {b} + {b} == todo;
        todo := todo - {b};
        if b in writable && !u.blocks[b].immutable {
          file := file[b := u.blocks[b].data];
        }
        FlushedStep(f0, u, writable, todo, b);
      }
      updates := updates[id := u.(expired := true)];
    }

    /** `filemgr_dirty_update_commit` */
    method Commit(id: Option<int>)
      requires id.Some? ==> id.value in updates
      modifies this
      ensures State() == Tidy(if id.Some? then Flush(old(State()), id.value) else old(State()))
    {
      if id.Some? {
        FlushBlocks(id.value);
      }
      latest := None;
      PurgeBelow(counter + 1);
    }

    /** The walk over the index that removes idle updates. */
    method PurgeBelow(id: int)
      modifies this`updates
      ensures updates == Purge(old(updates), id)
    {
      ghost var us := updates;
      var todo := updates.Keys;
      while todo != {}
        invariant todo <= us.Keys
        invariant updates == map i | i in us && (i in todo || !(i < id && Idle(us[i]))) :: us[i]
        decreases todo
      {
        LeastExists(todo);
        var i :| i in todo && forall x :: x in todo ==> i <= x;
        if i >= id {
          return;
        }
        todo := todo - {i};
        if updates[i].immutable && updates[i].refs == 0 {
          updates := updates - {i};
        }
      }
    }

    /** `filemgr_dirty_update_set_immutable` */
    method SetImmutable(prev: Option<int>, id: int)
      requires id in updates && (prev.Some? ==> prev.value in updates && prev.value != id)
      modifies this
      ensures State() == Seal(old(State()), prev, id)
    {
      hide Yield, Absorb;
      updates := updates[id := updates[id].(immutable := true)];
      if prev.Some? {
        FlagFree(old(updates)[prev.value], old(updates)[id], writable);
        TakeBlocks(prev.value, id);
      }
      latest := Some(id);
      PurgeBelow(id);
    }

    /** The loop that copies or moves the previous update's blocks. */
    method TakeBlocks(prev: int, id: int)
      requires id in updates && prev in updates && prev != id && updates[id].immutable
      modifies this`updates
      ensures updates == old(updates)[prev := Yield(old(updates)[prev], old(updates)[id],
                                                    writable)][id := Absorb(old(updates)[prev], old(updates)[id],
                                                            writable)]
    {
      hide YieldPart, AbsorbPart, Yield, Absorb, Taken;
      ghost var us := updates;
      ghost var p, n := updates[prev], updates[id];
      var migrate := updates[prev].immutable && updates[prev].refs == 1;
      var todo := if updates[prev].expired then {} else updates[prev].blocks.Keys;
      PartEnds(p, n, writable);
      PartStart(p, n, writable, todo);
      while todo != {}
        invariant todo <= p.blocks.Keys && (p.expired ==> todo == {})
        invariant updates == us[prev := p.(blocks := YieldPart(p, n, writable, todo))][id := n.(blocks := AbsorbPart(p,
                n, writable, todo))]
        decreases todo
      {
        LeastExists(todo);
        var b :| b in todo && forall x :: x in todo ==> b <= x;
        assert todo - {b} + {b} == todo;
        todo := todo - {b};
        YieldStep(p, n, writable, todo, b);
        AbsorbStep(p, n, writable, todo, b);
        TakenAt(p, n, writable, b);
        var block := updates[prev].blocks[b];
        if block.immutable || b !in writable {
          updates := updates[prev := updates[prev].(blocks := updates[prev].blocks[b := block.(immutable := true)])];
        } else if b !in updates[id].blocks {
          if migrate {
            updates := updates[prev := updates[prev].(blocks := updates[prev].blocks - {b})];
          }
          updates := updates[id := updates[id].(blocks := updates[id].blocks[b := block])];
        }
      }
      updates := updates[prev := updates[prev].(expired := true)];
    }

    /** `filemgr_dirty_update_new_node` */
    method NewUpdate() returns (id: int)
      modifies this
      ensures id == old(counter) + 1
      ensures State() == old(State()).(updates := old(updates)[id := Update(false, false, 0, map[])], counter := id)
    {
      counter := counter + 1;
      id := counter;
      updates := updates[id := Update(false, false, 0, map[])];
    }

    /** `filemgr_dirty_update_get_latest` */
    method GetLatest() returns (r: Option<int>)
      requires latest.Some? ==> latest.value in updates
      modifies this
      ensures r == old(latest) && State() == if r.Some? then Hold(old(State()), r.value) else old(State())
    {
      r := latest;
      if r.Some? {
        IncRef(r.value);
      }
    }

    /** `filemgr_dirty_update_inc_ref_count` */
    method IncRef(id: int)
      requires id in updates
      modifies this
      ensures State() == Hold(old(State()), id)
    {
      updates := updates[id := updates[id].(refs := updates[id].refs + 1)];
    }

    /** `filemgr_dirty_update_close_node` */
    method CloseUpdate(id: int)
      requires id in updates && updates[id].refs > 0
      modifies this
      ensures State() == Release(old(State()), id)
    {
      updates := updates[id := updates[id].(refs := updates[id].refs - 1)];
    }

    /** `filemgr_write_dirty` */
    method WriteDirty(id: int, bid: int, data: Bytes)
      requires id in updates
      modifies this
      ensures State() == Put(old(State()), id, bid, data)
    {
      var u := updates[id];
      var block := if bid in u.blocks then u.blocks[bid] else Block([], false);
      updates := updates[id := u.(blocks := u.blocks[bid := block.(data := data)])];
    }
  }
}
