/** The block layer under the B+tree, as `btree_blk_ops` presents it
    (src/btreeblock.cc without sub-blocks).

    `buf` is what `blk_read` returns, including edits made in memory; `disk` is what
    has been written back.  Committed blocks are the ones that are not writable. */
module BTreeStore {
  import opened Sets
  import opened BTreeNode
  import opened BTreeTree

  class BlockStore {
    var buf: Blocks
    var disk: Blocks
    var writable: set<int>
    /** Blocks that `OperationEnd` writes back: new ones and those set dirty. */
    var dirty: set<int>

    /** A file all of whose blocks are committed. */
    constructor (blocks: Blocks)
      ensures Valid() && buf == disk == blocks && writable == dirty == {}
    {
      buf, disk, writable, dirty := blocks, blocks, {}, {};
    }

    ghost predicate Valid()
      reads this
    {
      dirty <= writable && dirty <= buf.Keys
    }

    /** Since the old state nothing was written to disk, and every block that became
        writable was new. */
    twostate predicate Grown()
      reads this
    {
      && disk == old(disk)
      && old(buf).Keys <= buf.Keys
      && old(writable) <= writable
      && old(dirty) <= dirty
      && (writable - old(writable)) !! disk.Keys
    }

    /** `blk_alloc` followed by writing a node into the new block. */
    method Alloc(n: Node) returns (bid: int)
      requires Valid()
      modifies this
      ensures Valid()
      ensures bid !in old(buf) && bid !in old(disk) && bid !in old(writable)
      ensures buf == old(buf)[bid := n] && disk == old(disk)
      ensures writable == old(writable) + {bid} && dirty == old(dirty) + {bid}
    {
      ghost var top := Bounded(buf.Keys + disk.Keys + writable);
      assert top !in buf && top !in disk && top !in writable;
      bid :| bid !in buf && bid !in disk && bid !in writable;
      buf := buf[bid := n];
      writable := writable + {bid};
      dirty := dirty + {bid};
    }

    /** In-memory edit of a node that was read. */
    method Edit(bid: int, n: Node)
      requires Valid() && bid in buf
      modifies this`buf
      ensures Valid() && buf == old(buf)[bid := n]
    {
      buf := buf[bid := n];
    }

    /** `blk_move`: copy to a new block; the old one stays readable. */
    method Move(bid: int) returns (bid': int)
      requires Valid() && bid in buf
      modifies this
      ensures Valid()
      ensures bid' !in old(buf) && bid' !in old(disk) && bid' !in old(writable)
      ensures buf == old(buf)[bid' := old(buf)[bid]] && disk == old(disk)
      ensures writable == old(writable) + {bid'} && dirty == old(dirty) + {bid'}
    {
      bid' := Alloc(buf[bid]);
    }

    /** The step taken after every in-place edit of a node: committed blocks move,
        writable ones are marked for write-back. */
    method Settle(bid: int) returns (bid': int, moved: bool)
      requires Valid() && bid in buf
      modifies this
      ensures Valid()
      ensures moved <==> bid !in old(writable)
      ensures moved ==> bid' !in old(buf) && bid' !in old(disk) && bid' !in old(writable)
      ensures !moved ==> bid' == bid
      ensures buf == old(buf)[bid' := old(buf)[bid]] && disk == old(disk)
      ensures writable == old(writable) + {bid'} && dirty == old(dirty) + {bid'}
    {
      if bid !in writable {
        bid' := Move(bid);
        moved := true;
      } else {
        dirty := dirty + {bid};
        bid', moved := bid, false;
      }
    }

    /** The bulk loader's `write_done`: write one finished block back. */
    method WriteDone(bid: int)
      requires Valid() && bid in dirty
      modifies this
      ensures Valid() && buf == old(buf) && writable == old(writable)
      ensures disk == old(disk)[bid := buf[bid]] && dirty == old(dirty) - {bid}
    {
      disk := disk[bid := buf[bid]];
      dirty := dirty - {bid};
    }

    /** `blk_operation_end`: write back every new or dirty block. */
    method OperationEnd()
      requires Valid()
      modifies this
      ensures Valid() && dirty == {} && buf == old(buf) && writable == old(writable)
      ensures disk == old(disk) + (map b | b in old(dirty) :: old(buf)[b])
    {
      disk := disk + (map b | b in dirty :: buf[b]);
      dirty := {};
    }
  }
}
