# A verified model of ForestDB's storage core

ForestDB keeps documents in an append-only file and indexes them with copy-on-write B+trees.
This project models the parts that carry that design and proves what they are for:

- **B+tree** (`btree_*.dfy`, from `src/btree.cc`, `src/btree_kv.cc`, `src/btreeblock.cc`). Nodes are
  blocks with a fixed number of slots. Lookup, insert with cascaded splits, remove with
  cascaded deletion and height shrinking, bulk load and both iterators are methods over a block
  store with buffered, dirty, writable and committed blocks. A ghost tree ties the blocks to a
  sorted sequence, and the sequence to a map. `Insert` is map update, `Remove` is removal of the
  floor, `Load` builds a tree of least height, `Scan` and `ScanBack` list exactly the entries on
  one side of a key, and no operation writes a block that is committed. The height grows exactly when a
  new key meets no node with room on its way down, and drops exactly when the removal empties a child
  of a root with at most one other child, which fits a root.
- **AVL tree** (`avl*.dfy`, from `src/avltree.cc`). Nodes are records in a memory with left, right
  and parent pointers and a stored balance factor, changed in place. Correctness is stated on
  memory: each pointer, each parent and each balance factor. Insertion and removal, with their
  climbs decided by comparing old and new balance factors only, add and remove exactly one node
  of the in-order sequence and leave a correct AVL tree.
- **Dirty-update overlay** (`dirty_*.dfy`, from `src/filemgr.cc`, `src/fdb_internal.h`). The
  in-memory index of uncommitted block sets, as a class whose methods equal functions on
  its state, and a state machine of any number of readers and one serialized writer over those
  functions. Its invariant holds in every run: exact reference counts, isolation of readers,
  and a block reads as it was last sealed if and only if it is not lost. A block is lost when a seal
  passes it by or a commit ends without writing it, and found again by the next seal or direct write
  of it, which is stated step by step. Where a write goes, to the file or to a new update, and which
  updates are dropped is stated for every run too.
- **Document blocks** (`doc_*.dfy`, `docio.dfy`, from `src/docio.cc` and the stale accounting of
  `src/filemgr.cc`). Appending documents over blocks that need not be consecutive, linked by block
  metadata. What is stored is the image of a document under a 32-bit buffer offset: the document
  itself up to 2^32 bytes, and beyond that under an exact condition. Whatever was stored reads back
  after any number of appends, unless an empty document is appended to a block that differs in the
  file. Sixteen zero bytes follow the last document where they fit. As long as no block is handed out
  twice, which each append determines, documents, the rests of blocks given up and the rest of the
  current block cover every byte of every used block exactly once; with the stale list in place of those rests this holds if and only if no length in it outgrew
  32 bits.
- **Stale-block reclaim** (`stale_*.dfy`, from `src/staleblock.cc`). Merging stale regions with
  32-bit lengths, the system document that stores them, and extraction of reusable blocks. A block
  is handed out exactly when all its bytes are in the tree, and extraction loses no byte and gives none
  twice; merging loses none if and only if the merged lengths fit.
- **Block cache** (`cache*.dfy`, from `src/blockcache.cc` and the read and write paths of
  `src/filemgr.cc`). Shards, hash tables, clean lists, dirty trees, the free list, second-chance
  eviction and batched flushing. Every block reads as it was last written, however much is
  evicted and flushed in between, up to the checksum field of index nodes, where a write of no bytes and a
  clean request over a dirty block count as writes of what lies below the cache. A dirty block is in the
  index tree exactly if it was an index node when it became dirty, so a flush writes data before index
  blocks; which blocks a flush takes, in which order, and what a round of eviction frees, spares or writes
  is stated exactly; making room always terminates; and the batched cross-shard flush leaves the same disk
  as writing block by block.
- **Variable-length slots** (`slots*.dfy`, from `src/btree_fast_str_kv.cc`). In-place editing of a
  node that holds 16-bit offsets and key-value pairs of any length, byte for byte.

`arith.dfy`, `sets.dfy` and `options.dfy` hold small shared facts.

## What the proofs show about the code

These are properties one would expect of the code that do not hold as such, with the exact condition.

- `btree_remove` does not compare the key it finds with the key it was given. It removes the
  greatest key at or below it. `RemovesExactly`: this is the key asked for if and only if that
  key is in the tree.
- Removing the only key of a tree of height three or more shrinks the height once and leaves an
  index root without entries (`Remove`, an if-and-only-if; `EmptyIndexRoot` gets there). The slots of
  that new root are never initialised, so the next insert would follow an indeterminate block
  number. `Insert` requires that the tree is not in this state; lookup, remove and
  iteration handle it.
- A node always splits into two. The general split count of `_btree_get_nsplitnode` never matters
  for a single insert (`SplitCountIsTwo`).
- When a committed root splits it is copied twice, once to drop its metadata and once as a former
  root. One block more than needed is allocated if and only if the root was committed, and it belongs to
  neither half (`SplitRoot`).
- Sealing a dirty update keeps what a block reads as if and only if the condition of `SealReads`
  holds. In every run the previous update is not expired, and the block changes if and only if only that
  update has it, it is not writable, and the file differs (`SealInRuns`; `SealChanges` is such a run).
- A commit leaves in the file what the update showed for a block if and only if the update does not have
  the block, the block is writable, or the file had those bytes already (`CommitInRuns`). The last write
  of a block is seen if and only if the block is not lost (`LastWriteSeen`), and `LostChanges` says which
  steps lose a block and which find it again.
- `docio_append_doc_raw` keeps its place in the document in a 32-bit word. From byte 2^32 on it starts
  over at the beginning of the buffer, so a document is stored as given if and only if every part from there
  on repeats the bytes at its start modulo 2^32 (`ImageExact`, `Append`). Up to 2^32 bytes it always is
  (`ImageSmall`), and for every length from 2^32 plus a block on there is one that is not (`WideLoses`).
- The stale list of the file has 32-bit lengths too. An addition counts exactly the bytes added if and only
  if the length stored fits (`AddStaleExact`), and the list completes the tiling of the used blocks if and
  only if all of them did (`TiledExact`, `StaleTiles`), as they do below 2^32 stale bytes (`FewFit`).
- A document whose size is a multiple of the data size of a block, appended at the very start of a
  current block and going on in the next one, takes one block more than it needs, and only then
  (`ListFits`, an if-and-only-if; `ExtraBlock` is an instance). That block stays empty and becomes current.
- A zero-byte write to a cached block is taken for a cache miss by `filemgr_write_offset` and puts
  back the bytes of the disk, or of a temporary buffer when the block is not on disk yet (`WriteBlock`;
  `LostWrite` is an instance). The extra empty block above gets such a write; `WritePart` allows any
  contents there, and `Append` is proved with it.
- Appending an empty document into the current block is such a write too. Earlier documents all survive
  it if and only if the block below the cache agrees behind the cursor (`AppendHere`; `EmptyLoses` is
  an instance).
- A clean request to the cache puts the bytes of the disk over a block that is cached dirty: it counts as a
  write of them if and only if the block is cached dirty, and otherwise changes no read (`Write`).
  `ReadBlock` changes no read.
- Stale regions have 32-bit lengths. Merging loses bytes if and only if the region and the neighbours it
  reaches span 2^32 bytes or more (`MergedExact`; `MergedWraps` is an instance). The regions stay disjoint
  with gaps if and only if the new one reaches at most one region that starts behind its first byte (`MergedNormal`).
- The size computed for an empty node with variable-length keys leaves out the first
  offset, two bytes (`DataSize`).
- The comment of `avl_remove` says that the successor has no right child. It can have one
  (`SuccessorChild`), and the code handles it.

## Model

| member | source | states |
|---|---|---|
| `BTreeNode.SizeCheck` | src/btree.cc:137-193 | the byte-size check of a node holds exactly when the number of entries is at most the capacity of the node (less for a root that carries metadata) |
| `BTreeNode.SplitCountIsTwo` | src/btree.cc:224-270 | a node that overflows by one entry always splits into exactly two nodes, for root and non-root, with and without metadata |
| `BTreeNode.ShrinkFits` | src/btree.cc:1270-1280 | a child that passes the size test of height shrinking fits into a root node together with the metadata; a child with at most one entry always passes it |
| `BTreeNode.NthIdxHalves` | src/btree_kv.cc:125-129 | the split positions of a node cut its entries into two halves, the first rounded up, without gap or overlap |
| `BTreeNode.SetKvEntries` | src/btree_kv.cc:38-47 | writing slot idx replaces exactly that entry of the sequence |
| `BTreeNode.InsKvEntries` | src/btree_kv.cc:57-64 | shifting the slots right and writing one inserts the entry at idx and keeps all others; at the end it is the same as a plain write |
| `BTreeNode.DelKvEntries` | src/btree_kv.cc:65-71 | shifting the slots left deletes exactly entry idx; the only entry of a node is deleted without touching the slots |
| `BTreeNode.FindEntry` | src/btree.cc:426-485 | the binary search returns the greatest index whose key is at most the key; nothing exactly when the node is empty or the key is below the first key |
| `BTreeNode.AddEntry` | src/btree.cc:487-535 | the sorted entries around the key keep their places and the new entry replaces an equal key or goes in between |
| `BTreeNode.RemoveEntry` | src/btree.cc:537-562 | exactly the entry with the key goes; when it was the last one the slots stay as they were |
| `BTreeNode.InitNode` | src/btree.cc:195-222 | a fresh node has the level and root flag asked for, no entries, and the capacity of its kind; its slots hold anything |
| `BTreeNode.SplitNode` | src/btree.cc:753-780 | the entries of the two halves, one after the other, are the entries of the node; the first half has as many as the second or one more; both are non-empty and have room |
| `BTreeNode.AddToHalves` | src/btree.cc:783-807 | after a split the new entry goes to the half its key belongs to, which alone grows: the two halves together are the old entries with the new one in sorted place, and the first key of the second half does not change |
| `BTreeNode.EditNode` | src/btree.cc:1010-1086 | one level of an insert: the node is split if and only if a new entry comes and it has no room; the entries of the one or two resulting nodes are the old entries with the pair set and the least key replaced, and two resulting nodes differ by at most two entries |
| `BTreeNode.ReplaceMin` | src/btree.cc:1045-1049 | replacing the least key changes the first key only |
| `BTreeNode.DropMeta` | src/btree.cc:834-856 | the old root, turned into a plain node, keeps its entries |
| `BTreeNode.TwoEntries` | src/btree.cc:868-881 | the new root points at the two halves in key order |
| `BTreeNode.CopyToRoot` | src/btree.cc:1284-1293 | the new root after shrinking has the entries of the child |
| `BTreeStore.BlockStore.Alloc` | src/btreeblock.cc:126-185 | a block number never used before; nothing else in buffers or on disk changes |
| `BTreeStore.BlockStore.Move` | src/btreeblock.cc:386-492 | the contents appear under a fresh block number; the old block keeps its bytes on disk |
| `BTreeStore.BlockStore.Settle` | src/btree.cc:1090-1105 | a modified node is moved exactly when its block is not writable, otherwise marked dirty in place |
| `BTreeStore.BlockStore.WriteDone` | src/btreeblock.cc:948-978 | one dirty block reaches the disk and stops being dirty |
| `BTreeStore.BlockStore.OperationEnd` | src/btreeblock.cc:882-946 | every dirty block reaches the disk, nothing else changes there, and no dirty block is left |
| `BTreeTree.Splice` | src/btree.cc:987-1106 | the entries, the blocks and the disjointness of blocks of a child list with one child replaced by a list are those of its three parts |
| `BTreeTree.Locate` | src/btree.cc:967-980 | in a well-formed index node everything left of the child that the slot search selects is below the key and everything right of it is above |
| `BTreeTree.GoodFrame` | src/btree.cc:910-1132 | a subtree stays well formed as long as its own blocks keep their contents |
| `BTreeTree.AroundSorted` | src/btree.cc:910-1132 | putting an entry between the smaller and the greater ones, or leaving it out, keeps the sequence strictly sorted |
| `BTreeTree.ToMapPut` | src/btree.cc:910-1132 | putting an entry among the sorted ones is the map update at its key, and leaving it out is the map without the key |
| `BTreeStep.AssembleOne` | src/btree.cc:987-1106 | a rewritten node over ready children is a well-formed subtree with separate blocks |
| `BTreeStep.AssembleTwo` | src/btree.cc:987-1106 | the two halves of a split over ready children are two well-formed subtrees with separate blocks |
| `BTreeStep.IndexEntries` | src/btree.cc:1000-1049 | repointing, inserting and replacing the least key of an index node gives exactly the first keys and block numbers of its new children |
| `BTreeStep.CutEntries` | src/btree.cc:1229-1233 | dropping one slot of an index node leaves exactly the first keys and block numbers of its other children |
| `BTreeStep.RootOver` | src/btree.cc:826-884 | a new root over the two halves of the old one is a well-formed tree one level higher |
| `BTreeStep.Promoted` | src/btree.cc:1249-1302 | replacing the root by its only child keeps a well-formed tree one level lower with the same entries |
| `BTreeStep.AllAbove` | src/btree.cc:1176-1187 | if the first key of a node is above the key then so is every entry below that node |
| `BTreeOps.BTree.constructor` | src/btree.cc:363-424 | a well-formed empty tree of height one; the disk is untouched |
| `BTreeOps.BTree.FromBid` | src/btree.cc:339-361 | opening the root of a stored tree gives that tree, with the height the root block records |
| `BTreeOps.BTree.Lookup` | src/btree.cc:670-729 | returns the value of the key if it is in the contents and nothing otherwise, for every well-formed tree |
| `BTreeOps.BTree.FindPath` | src/btree.cc:957-984 | the descent follows, at every level, the child whose range the key belongs to |
| `BTreeOps.BTree.EditLeaf` | src/btree.cc:1019-1050 | the pair is in its sorted place in the leaf or its two halves; it is an update exactly when the key was there; the leaf is split exactly when the key is new and it has no room |
| `BTreeOps.BTree.EditIndex` | src/btree.cc:992-1086 | the index node and its possible second half list exactly the new children; it is split exactly when a child was split and it has no room, and touched exactly when a child moved, was split or got a smaller first key |
| `BTreeOps.BTree.Install` | src/btree.cc:1090-1105 | the edited node and its new sibling are stored copy-on-write, and the parent is told the right block numbers and first key; the node moves exactly when it was touched and is not writable |
| `BTreeOps.BTree.InstallRoot` | src/btree.cc:889-908 | the root is edited or moved, and moved exactly when it was touched and is not writable; the new root number names a well-formed tree |
| `BTreeOps.BTree.SplitRoot` | src/btree.cc:753-866 | a full root becomes two well-formed non-root subtrees with all its entries; one block more than they need is allocated if and only if the old root was committed, and it is in neither subtree |
| `BTreeOps.BTree.CopyRoot` | src/btree.cc:753-866 | the halves are stored under fresh numbers, or the first in place; a committed root is copied twice, which the set of new blocks states exactly |
| `BTreeOps.BTree.GrowRoot` | src/btree.cc:826-884 | the height grows by one and the new root is well formed with the same entries |
| `BTreeOps.BTree.PutTop` | src/btree.cc:826-884 | a new root block with two entries, and no other block changes |
| `BTreeOps.BTree.InsertStep` | src/btree.cc:987-1086 | if the level below was rewritten correctly then so is this level, which splits exactly when the level below did and it has no room |
| `BTreeOps.BTree.InsertUp` | src/btree.cc:977-1106 | from the leaf up to the root every level is rewritten correctly, and the root has to split exactly when the key is new and every node on its way is full |
| `BTreeOps.BTree.FinishInsert` | src/btree.cc:1081-1106 | the tree is well formed with exactly the new sequence of entries, and one higher exactly when the root split |
| `BTreeOps.BTree.Insert` | src/btree.cc:910-1132 | for every well-formed tree the contents become the old ones with the key set; update is reported exactly when the key was there; the tree stays balanced, sorted and within capacity; every block committed on disk is unchanged; nothing dirty is left; the height grows by one if and only if the key is new and every node on its way from the root to a leaf is full, and is unchanged otherwise |
| `BTreeOps.BTree.RemovePath` | src/btree.cc:1165-1199 | fails exactly when every entry is above the key; otherwise ends at the greatest entry at or below it |
| `BTreeOps.BTree.CutLeaf` | src/btree.cc:1229-1233 | the leaf loses exactly the entry the descent ended at |
| `BTreeOps.BTree.InstallCut` | src/btree.cc:1307-1326 | the edited node is stored copy-on-write, or is dropped when it is empty; it moves exactly when it was touched and is not writable |
| `BTreeOps.BTree.CutIndex` | src/btree.cc:1204-1233 | the index node lists exactly the remaining children with their first keys, and is touched exactly when a child moved, was emptied or got another first key |
| `BTreeOps.CutOrKept` | src/btree.cc:1235-1245 | a child of an index node is emptied exactly when the removed entry was its only one |
| `BTreeOps.BTree.CutStep` | src/btree.cc:1202-1305 | if the level below was rewritten correctly then so is this level |
| `BTreeOps.BTree.CutUp` | src/btree.cc:1180-1326 | from the leaf up to the root every level is rewritten without the removed entry, and it is known exactly whether a child of the root was emptied |
| `BTreeOps.BTree.Shrink` | src/btree.cc:1249-1302 | the height drops by one and the new root has the same entries |
| `BTreeOps.BTree.FinishCut` | src/btree.cc:1235-1326 | the tree is well formed with exactly the remaining entries; it is one lower if and only if the removal emptied a child of the root, at most one other child is left, and that one fits a root |
| `BTreeOps.BTree.Remove` | src/btree.cc:1134-1337 | for every well-formed tree: succeeds exactly when some key is at or below the given one, and then removes the greatest such key and nothing else; the height never grows and drops by one when the last key goes; a tree of height above one is left empty exactly when the only key went from a tree of height three or more; every block committed on disk is unchanged; in all cases the height drops by one if and only if the removed key was the last one of its child of the root, the root has at most one other child, and that child with the metadata of a root leaves a byte free |
| `BTreeOps.RemovesExactly` | src/btree.cc:1165-1233 | removing the key asked for is what happens if and only if that key is in the tree |
| `BTreeOps.OneKeyChain` | src/btree.cc:1235-1302 | a tree of height three with a single key is well formed, with the blocks of the given chain |
| `BTreeOps.EmptyIndexRoot` | src/btree.cc:1235-1302 | opening that chain and removing its key leaves a tree of height two without entries |
| `BTreeOps.RemovalFacts` | src/btree.cc:1202-1233 | cutting one entry from the sorted sequence is removing its key from the map, and that key is the floor of the key asked for |
| `BTreeLoad.Height` | src/btree.cc:1779-1785 | the height computed for a bulk load is the least one whose capacity holds the keys |
| `BTreeLoad.NewNode` | src/btree.cc:1796-1811 | a fresh node of the right kind is opened at a level that has none, and carries the chain of new nodes below it |
| `BTreeLoad.PutLast` | src/btree.cc:1813-1838 | one entry is appended; the node is written out and closed exactly when it is full |
| `BTreeLoad.AppendEntry` | src/btree.cc:1813-1838 | the partly built tree holds the keys added so far plus the new one |
| `BTreeLoad.AddKey` | src/btree.cc:1795-1840 | one key climbs as far as needed and the partly built tree stays a left-filled tree |
| `BTreeLoad.SpineGood` | src/btree.cc:1794-1841 | every stage of a bulk load is a well-formed search tree |
| `BTreeLoad.SpineFull` | src/btree.cc:1828-1838 | a closed subtree of level n holds exactly the capacity to the power n |
| `BTreeLoad.RootOpen` | src/btree.cc:1779-1841 | while keys are left the root is never closed and has room |
| `BTreeLoad.LoadLeaf` | src/btree.cc:1744-1775 | few keys give one root leaf with exactly them |
| `BTreeLoad.Load` | src/btree.cc:1696-1844 | a bulk load fails exactly when the metadata does not fit; otherwise it builds a well-formed tree of least height whose entries are the input, writes no committed block, and has on disk every block that is not dirty |
| `BTreeLoad.LoadAndOpen` | src/btree.cc:1696-1844 | the loaded tree can be used by insert, remove and lookup and its contents are the map of the input |
| `BTreeIter.Iterator.constructor` | src/btree.cc:1349-1384 | a fresh iterator at the root with the start key |
| `BTreeIter.Iterator.Enter` | src/btree.cc:1568-1602 | the slot chosen at a level leaves exactly the entries still to be returned at or after it |
| `BTreeIter.Iterator.Step` | src/btree.cc:1552-1682 | one step in a subtree returns the first entry still to come and leaves the others; the subtree is reset when none is left |
| `BTreeIter.Iterator.StepChild` | src/btree.cc:1628-1670 | descending into a child, or its right siblings when the child is exhausted, returns the first entry still to come |
| `BTreeIter.Iterator.NextChild` | src/btree.cc:1637-1666 | when a child is exhausted the next one is entered from its start |
| `BTreeIter.Iterator.Next` | src/btree.cc:1684-1694 | each call returns the next entry at or after the start key, in order, and fails exactly when none is left |
| `BTreeIter.Iterator.EnterBack` | src/btree.cc:1419-1455 | the slot chosen at a level leaves exactly the entries still to be returned at or before it |
| `BTreeIter.Iterator.StepBack` | src/btree.cc:1403-1538 | one backward step returns the last entry still to come and leaves the others |
| `BTreeIter.Iterator.StepBackChild` | src/btree.cc:1482-1525 | descending into a child, or its left siblings when the child is exhausted, returns the last entry still to come |
| `BTreeIter.Iterator.PrevChild` | src/btree.cc:1491-1521 | when a child is exhausted the one before it is entered from its end |
| `BTreeIter.Iterator.Prev` | src/btree.cc:1540-1550 | each call returns the next smaller entry at or before the start key, and fails exactly when none is left |
| `BTreeIter.FromHas` | src/btree.cc:1552-1694 | the entries still to come from a key are exactly those at or above it |
| `BTreeIter.FromSorted` | src/btree.cc:1552-1694 | the entries still to come are in key order |
| `BTreeIter.UpToHas` | src/btree.cc:1403-1550 | the entries still to come backward are exactly those at or below the key |
| `BTreeIter.Scan` | src/btree.cc:1349-1694 | iterating to the end from a key gives every entry at or above it, once, in ascending order, and nothing else |
| `BTreeIter.ScanBack` | src/btree.cc:1349-1550 | iterating backward to the end gives every entry at or below the key, once, in descending order, and nothing else |
| `AvlTree.TurnLLTrue` | src/avltree.cc:60-98 | the arithmetic of the right turn gives the true balance factors and height change of the turned shape, and the turn keeps the order |
| `AvlTree.TurnRRTrue` | src/avltree.cc:100-139 | the arithmetic of the left turn gives the true balance factors and height change of the turned shape, and the turn keeps the order |
| `AvlTree.HeightBound` | src/avltree.cc:179-213 | a tree of height h has at least Fib(h + 2) - 1 nodes, so heights are logarithmic |
| `AvlOps.AvlIndex.RotateLL` | src/avltree.cc:60-98 | the pointers after the turn form the turned tree with correct parents and balance factors, and only the two nodes and the moved child change |
| `AvlOps.AvlIndex.RotateRR` | src/avltree.cc:100-139 | the pointers after the left turn form the turned tree with correct parents and balance factors, and only the two nodes and the moved child change |
| `AvlOps.AvlIndex.TurnLeftChild` | src/avltree.cc:141-157 | the first of the two turns: the left child becomes a turned subtree, with the arithmetic for the second one |
| `AvlOps.AvlIndex.TurnRightChild` | src/avltree.cc:159-175 | the mirror image for the right child |
| `AvlOps.AvlIndex.RotateLR` | src/avltree.cc:141-157 | the double turn of a left-right case gives a correct AVL tree with an even root |
| `AvlOps.AvlIndex.RotateRL` | src/avltree.cc:159-175 | the double turn of a right-left case gives a correct AVL tree with an even root |
| `AvlOps.AvlIndex.TurnLeftOnce` | src/avltree.cc:187-195 | the single turn of a left-left case gives a correct AVL tree |
| `AvlOps.AvlIndex.TurnRightOnce` | src/avltree.cc:196-204 | the single turn of a right-right case gives a correct AVL tree |
| `AvlOps.AvlIndex.Balance` | src/avltree.cc:179-213 | any subtree whose true lean is at most two becomes a correct AVL subtree with the same in-order sequence; its new height is stated exactly |
| `AvlOps.AvlIndex.BalanceLeft` | src/avltree.cc:187-195 | the choice between the single and the double turn on the left is right |
| `AvlOps.AvlIndex.BalanceRight` | src/avltree.cc:196-204 | the choice between the single and the double turn on the right is right |
| `AvlStep.GrowDecision` | src/avltree.cc:499-513 | the test on balance factors by which an insertion goes on climbing holds exactly when the subtree got taller |
| `AvlStep.ShrinkDecision` | src/avltree.cc:631-645 | the test on balance factors by which a removal goes on climbing holds exactly when the subtree got lower |
| `AvlStep.ClimbGrow` | src/avltree.cc:499-521 | a taller subtree leaves its parent off by exactly the balance passed up |
| `AvlStep.ClimbShrink` | src/avltree.cc:616-654 | a lower subtree leaves its parent off by exactly the balance passed up |
| `AvlOps.AvlIndex.Settle` | src/avltree.cc:487-497 | rebalancing one node and linking it back leaves every ancestor correct for the old height |
| `AvlOps.AvlIndex.GrowUp` | src/avltree.cc:482-522 | climbing after an insertion ends in a correct AVL tree with the same in-order sequence |
| `AvlOps.AvlIndex.ShrinkUp` | src/avltree.cc:616-654 | climbing after a removal ends in a correct AVL tree with the same in-order sequence |
| `AvlOps.AvlIndex.constructor` | src/avltree.cc:413-417 | an empty tree |
| `AvlOps.AvlIndex.Descend` | src/avltree.cc:315-337 | the descent ends at the node with the key or at the place where it belongs |
| `AvlOps.AvlIndex.Search` | src/avltree.cc:315-337 | finds a node with the key exactly when one is in the tree |
| `AvlOps.AvlIndex.Insert` | src/avltree.cc:424-527 | for every valid tree: an equal key is reported and nothing changes, otherwise the node is added at one place of the in-order sequence, which stays sorted; balance, parent pointers and balance factors are all correct afterwards |
| `AvlOps.AvlIndex.First` | src/avltree.cc:215-225 | the first node of the in-order sequence of a subtree, with everything known about its place |
| `AvlOps.AvlIndex.Last` | src/avltree.cc:227-237 | the last node of the in-order sequence of a subtree |
| `AvlOps.AvlIndex.Next` | src/avltree.cc:239-275 | the successor in the in-order sequence, or nothing at the end |
| `AvlOps.AvlIndex.Prev` | src/avltree.cc:277-313 | the predecessor in the in-order sequence, or nothing at the start |
| `AvlOps.AvlIndex.SearchGreater` | src/avltree.cc:339-374 | the node with the least key at or above the given one, or nothing when there is none |
| `AvlOps.AvlIndex.SearchSmaller` | src/avltree.cc:376-411 | the node with the greatest key at or below the given one, or nothing when there is none |
| `AvlStep.MissBounds` | src/avltree.cc:339-411 | where a search falls off, the neighbours of the empty place are the ceiling and the floor of the key |
| `AvlCtx.PlugInorder` | src/avltree.cc:424-657 | the in-order sequence of the whole tree is that of the part before, the subtree and the part after |
| `AvlCtx.PlugAvl` | src/avltree.cc:424-657 | a correct subtree of the height its ancestors expect makes the whole tree correct |
| `AvlOps.AvlIndex.Unlink` | src/avltree.cc:551-562 | taking the successor out of its place leaves a correct subtree one lower |
| `AvlOps.AvlIndex.Point` | src/avltree.cc:563-570 | the parent of the removed node, if any, points to the successor on the same side |
| `AvlOps.AvlIndex.LinkRight` | src/avltree.cc:572-581 | the successor takes the right child unless it is that child; climbing starts at the right node |
| `AvlOps.AvlIndex.LinkLeft` | src/avltree.cc:583-588 | the successor takes the left child, the parent and the balance factor |
| `AvlOps.AvlIndex.Replace` | src/avltree.cc:563-588 | the successor takes over the links and the balance factor of the removed node, and climbing starts at the right node |
| `AvlCut.DirectPending` | src/avltree.cc:572-588 | when the successor is the right child, taking over leaves one node off by one |
| `AvlCut.DeepPending` | src/avltree.cc:563-588 | when the successor is deeper, the place that is off by one is not disturbed by the take-over |
| `AvlCut.DeepWalk` | src/avltree.cc:547-588 | replacing a node by its successor drops exactly that node from the in-order sequence |
| `AvlCut.SuccessorChild` | src/avltree.cc:551-562 | a correct AVL tree in which the successor of the root lies deeper and has a right child |
| `AvlCut.BareDone` | src/avltree.cc:590-606 | a node without right subtree is replaced by its left one, one lower |
| `AvlOps.AvlIndex.RemoveBare` | src/avltree.cc:590-654 | exactly the node leaves the in-order sequence and the tree is correct again, for a node without right subtree |
| `AvlOps.AvlIndex.RemoveDirect` | src/avltree.cc:551-654 | exactly the node leaves the in-order sequence and the tree is correct again, for a node whose successor is its right child |
| `AvlOps.AvlIndex.RemoveDeep` | src/avltree.cc:551-654 | exactly the node leaves the in-order sequence and the tree is correct again, for a node whose successor lies deeper |
| `AvlOps.AvlIndex.Remove` | src/avltree.cc:529-657 | for every valid tree and every node of it, exactly that node leaves the in-order sequence and the tree is a correct AVL tree again; a null node changes nothing |
| `DirtyUpdate.DirtyIndex.constructor` | src/filemgr.cc:3435-3441 | no updates, no latest update |
| `DirtyUpdate.DirtyIndex.Read` | src/filemgr.cc:3769-3804 | the writer's own block if it has one, else the reader's, else the file's |
| `DirtyUpdate.DirtyIndex.WriteDirty` | src/filemgr.cc:3741-3767 | the block is added to or replaced in the update and nowhere else |
| `DirtyUpdate.DirtyIndex.NewUpdate` | src/filemgr.cc:3475-3493 | an empty update with the next number |
| `DirtyUpdate.DirtyIndex.GetLatest` | src/filemgr.cc:3495-3509 | the latest update with one more reference, or nothing |
| `DirtyUpdate.DirtyIndex.IncRef` | src/filemgr.cc:3511-3517 | one more reference |
| `DirtyUpdate.DirtyIndex.CloseUpdate` | src/filemgr.cc:3729-3739 | one reference less, and nothing else; an update nobody holds stays until the next seal or commit purges it |
| `DirtyUpdate.DirtyIndex.FlushBlocks` | src/filemgr.cc:3519-3540 | exactly the blocks of the update that are not committed reach the file |
| `DirtyUpdate.DirtyIndex.Commit` | src/filemgr.cc:3542-3582 | the update is written to the file, no latest update is left, and unreferenced immutable updates go |
| `DirtyUpdate.DirtyIndex.TakeBlocks` | src/filemgr.cc:3602-3664 | the new update takes the blocks it lacks that are still uncommitted, moved when nobody else holds the old update and copied otherwise; committed ones are flagged |
| `DirtyUpdate.DirtyIndex.PurgeBelow` | src/filemgr.cc:3669-3684 | exactly the unreferenced immutable updates with smaller numbers go |
| `DirtyUpdate.DirtyIndex.SetImmutable` | src/filemgr.cc:3584-3694 | sealing an update is taking blocks, becoming latest and purging, in that order |
| `DirtyRuns.SealReads` | src/filemgr.cc:3602-3664 | a block reads the same before and after sealing if and only if the new update has it, or the old one does not, or the old one is not expired and the block is not committed, or the file has the same bytes |
| `DirtyRuns.SealReadsFirst` | src/filemgr.cc:3584-3600 | sealing the first update never changes what a block reads as |
| `DirtyRuns.SealInRuns` | src/filemgr.cc:3602-3664 | in every run the update a writer builds on is not expired, and sealing changes what a block reads as if and only if only the old update has it, it is not writable, and the file has other bytes |
| `DirtyRuns.SealMoves` | src/filemgr.cc:3602-3664 | in every run, what a seal does to the two updates: the new one takes over the writable blocks that only the old one has, the old one is expired, its blocks that are not writable are marked, and it keeps the blocks taken over exactly if it has readers |
| `DirtyRuns.SealChanges` | src/filemgr.cc:3627-3637 | a run in which a block written and sealed stops being writable and is gone after the next seal |
| `DirtyRuns.StepInv` | src/fdb_internal.h:275-347 | every step of readers and of the serialized writer keeps the invariant: reference counts are exact, readers are isolated, the latest update is the highest, nobody uses a freed update, the latest update holds last sealed writes, and a block outside it reads from the file as last sealed if and only if it is not lost |
| `DirtyRuns.RunInv` | src/fdb_internal.h:275-347 | every run, of any length and interleaving, keeps that invariant |
| `DirtyRuns.ReaderIsolation` | src/filemgr.cc:3495-3694 | in every run, what a reader sees through its update never changes after it opened it, and the update is not freed under it |
| `DirtyRuns.LatestInRuns` | src/fdb_internal.h:275-347 | in every run the latest update is null or the highest immutable one, and the writer can always go on and readers can always close |
| `DirtyRuns.WriteGoes` | src/fdb_internal.h:298-305 | in every run, for a writer that starts at rest: without a latest update, and if no dirty flush is asked for, its write goes to the file and no update is made; otherwise the file stays and exactly one update, above all others, is added and holds the write alone |
| `DirtyRuns.NoIdleUpdates` | src/filemgr.cc:3640-3664 | in every run, after a seal the only updates are the new one, the one the writer holds and those with readers, and after a commit only those with readers |
| `DirtyRuns.SealPreserves` | src/filemgr.cc:3584-3694 | in every run, sealing changes nothing the writer saw on writable blocks |
| `DirtyRuns.CommitInRuns` | src/filemgr.cc:3519-3582 | in every run, after a commit the file holds what the update showed for a block if and only if the update does not have the block, the block is writable, or the file had those bytes already |
| `DirtyRuns.FlushExpires` | src/filemgr.cc:3519-3582 | in every run a commit marks the flushed update as expired and changes no other update |
| `DirtyRuns.LastWriteSeen` | src/fdb_internal.h:275-347 | in every run, at every moment: through the latest update, or the file where it does not have the block, a block reads as last sealed if and only if it is not lost; through the writer it reads as last written if and only if it is not lost or the writer has it |
| `DirtyRuns.LostChanges` | src/filemgr.cc:3495-3664 | in every run and for every step: a block gets lost if and only if a seal passes it by (only the old update has it, it is not writable, the file differs) or a commit ends without having written it; it is found again if and only if an update that has it is sealed or it is written directly |
| `DocIo.FillZero` | src/docio.cc:68-98 | sixteen zero bytes follow the position if there is room for them; no other byte changes |
| `DocIo.ListFits` | src/docio.cc:261-294 | the number of blocks computed for a document is enough, in the three cases of starting behind the cursor, at a full block and in a new block; one fewer would do if and only if a document of whole blocks starts at the beginning of the current block and goes on in the next |
| `DocIo.ExtraBlock` | src/docio.cc:261-294 | an instance: sixteen bytes at the start of a block of eight list two more blocks, of which the last stays empty |
| `DocImage.ImageExact` | src/docio.cc:102-473 | what is stored equals the document if and only if every part that starts at or behind byte 2^32 repeats the bytes at its start modulo 2^32 |
| `DocImage.ImageSmall` | src/docio.cc:102-473 | documents of up to 2^32 bytes are stored as they are |
| `DocImage.WideLoses` | src/docio.cc:102-473 | for every length from 2^32 and one block on, at every position and block size, a document that is not stored as it is |
| `DocImage.ImagePart` | src/docio.cc:439-473 | the part of the image in a listed block is the part of the document at the 32-bit offset |
| `DocIo.DocStore.constructor` | src/docio.cc:32-52 | an empty document file, with or without reuse of blocks, for any block size of 32 bits |
| `DocIo.DocStore.Alloc` | src/docio.cc:126-147 | a block that holds no document; without reuse, one never handed out before |
| `DocIo.DocStore.GiveUp` | src/docio.cc:134-139 | the current block is left, its rest goes to the stale list, and an empty block is free again |
| `DocIo.DocStore.Start` | src/docio.cc:126-147 | a current block that can be written: the old one untouched, or a new one, the rest of the old one being given up; it is said which block was handed out and whether it is new |
| `DocIo.DocStore.WriteHere` | src/filemgr.cc:2264-2330 | a write to the current block changes exactly its bytes and not the link; a write of no bytes puts back the block below the cache |
| `DocIo.DocStore.PutHere` | src/docio.cc:150-191 | the current block gets the bytes at the cursor, sixteen zeros behind them where they fit, and no next link; no other block changes |
| `DocIo.DocStore.AppendHere` | src/docio.cc:150-191 | a document that fits is at the cursor, sixteen zeros follow it where they fit, and nothing becomes stale; every earlier document still reads back if and only if the document is not empty or the block below the cache agrees behind the cursor |
| `DocIo.HereExact` | src/docio.cc:150-191 | an append into the current block leaves the bytes behind the cursor alone, and so every earlier document, under exactly that condition |
| `DocLayout.OverwrittenExact` | src/docio.cc:150-191 | when the current block is overwritten every document still reads back if and only if the bytes behind the cursor are the same |
| `DocIo.EmptyLoses` | src/docio.cc:150-191 | an instance: an empty document appended behind one that is not in the file yet loses it |
| `DocIo.DocStore.AllocList` | src/docio.cc:263-294 | distinct free blocks, enough of them, with one more than needed exactly as ListFits says; a gap behind the current block is noticed; it is said whether all are new |
| `DocIo.DocStore.WriteList` | src/docio.cc:408-480 | the parts of the document, each from its own offset modulo 2^32, are laid into the listed blocks in order with the right next links, the last one ending the chain; the cursor is behind the last byte and sixteen zeros follow it where they fit |
| `DocIo.DocStore.WritePart` | src/docio.cc:413-479 | one block gets its part of the image, its next link and the zeros behind it, earlier ones stay |
| `DocIo.DocStore.PutPart` | src/docio.cc:413-479 | the bytes of a part are at the start of its block, sixteen zeros follow them where they fit, the block links on, and no other block changes; a write of no bytes may put older contents back |
| `DocIo.DocStore.WriteFront` | src/docio.cc:296-329 | the first part fills the rest of the current block, which now links on |
| `DocIo.DocStore.AppendFront` | src/docio.cc:296-329 | of a document that starts in the current block the image is stored, and nothing is given up |
| `DocIo.DocStore.AppendNew` | src/docio.cc:330-340 | of a document that starts in a new block the image is stored, and the rest of the old block is given up |
| `DocIo.DocStore.AppendLong` | src/docio.cc:241-480 | of every document that does not fit into the current block the image is stored at the returned offset, every earlier one is kept, and at most the rest of the current block is given up |
| `DocIo.DocStore.AppendAt` | src/docio.cc:150-480 | with a current block that can be written, the image of the document is stored at the returned offset, zeros follow it, the blocks handed out are listed and were free, and earlier documents all read back under exactly the stated condition |
| `DocIo.DocStore.Append` | src/docio.cc:100-486 | for every document: its image is stored at the returned offset, sixteen zero bytes follow it where they fit, and, if it was safe to append, the document itself reads back from there if and only if its parts from byte 2^32 on repeat; the blocks handed out are listed and the no-reuse flag is determined by them; every earlier document still reads back if and only if the document is not empty or the block below the cache agrees behind the cursor; in that case the state is valid again, and if no block was handed out twice, documents, stale list and the rest of the current block tile the used blocks if and only if no length in the list outgrew 32 bits |
| `DocIo.DocStore.StoredExact` | src/docio.cc:408-480 | a document reads back as given if and only if its parts from byte 2^32 on repeat |
| `DocIo.DocStore.StaleTiles` | src/filemgr.cc:3207-3230 | documents, stale list and the rest of the current block cover every used byte exactly once if and only if no length in the list ever needed more than 32 bits; fewer than 2^32 stale bytes always do |
| `DocIo.DocStore.Read` | src/docio.cc:857-926 | the bytes along the chain of next links, or nothing at a broken link |
| `DocIo.DocStore.ReadBack` | src/docio.cc:857-926 | reading at the offset of an appended document gives back what was stored for it |
| `DocIo.DocStore.AppendAll` | src/docio.cc:100-486 | after any number of appends the image of every document reads back from its offset, which is the document itself for up to 2^32 bytes; the blocks are covered if no block was handed out twice, which the list of blocks handed out decides exactly, and always in a file that does not reuse blocks; then the stale list tiles them if and only if no length in it outgrew 32 bits; only an unsafe empty document ends the run; after the last append zeros follow the last document where they fit |
| `DocIo.DocStore.Readable` | src/docio.cc:857-926 | in every valid state what was stored for each document reads back |
| `DocLayout.ReadSplit` | src/docio.cc:857-926 | reading a document component by component gives the same bytes as reading it at once |
| `DocLayout.StoredReads` | src/docio.cc:857-926 | a stored document reads back |
| `DocLayout.StoredKept` | src/docio.cc:100-486 | a stored document survives every change that leaves its blocks behind the cursor alone |
| `DocLayout.ChainStored` | src/docio.cc:408-480 | blocks laid with the parts of a document store it |
| `DocLayout.ChainTiles` | src/filemgr.cc:3254-3326 | the regions of a document along a chain and the rest of its last block cover every byte of the chain exactly once |
| `DocLayout.ListTiles` | src/docio.cc:330-340 | after an append that starts in a new block every byte of every used block still belongs to exactly one document, rest given up or rest of the current block |
| `DocLayout.FrontTiles` | src/docio.cc:296-329 | after an append that starts in the current block every byte of every used block still belongs to exactly one document, rest given up or rest of the current block |
| `DocLayout.SimpleTiles` | src/docio.cc:150-191 | after an append inside the current block every byte of every used block still belongs to exactly one document, rest given up or rest of the current block |
| `DocLayout.StartTiles` | src/docio.cc:133-146 | when a block is given up and a new one started every byte of every used block still belongs to exactly one document, rest given up or rest of the current block |
| `DocStale.AddStaleCount` | src/filemgr.cc:3207-3230 | adding a region to the stale list, merged with the last one or not, counts no byte more than once more, and exactly the bytes of the region if the stored length fits into 32 bits |
| `DocStale.AddStaleExact` | src/filemgr.cc:3207-3230 | an addition counts exactly the bytes of the region once more if and only if the stored length fits into 32 bits |
| `DocStale.AddAllLoses` | src/filemgr.cc:3327-3346 | if a length on the way does not fit, a byte is counted too few times, whatever is added later |
| `DocStale.FewFit` | src/filemgr.cc:3207-3230 | fewer than 2^32 stale bytes in all always fit |
| `DocStale.TiledExact` | src/filemgr.cc:3207-3230 | if the regions given up complete a tiling of the blocks, so does the stale list made from them if and only if every stored length fitted |
| `DocIo.DocStore.StaleRegions` | src/filemgr.cc:3254-3326 | the regions of a document, block by block along the chain, with the block metadata at the ends of full blocks |
| `DocIo.DocStore.MarkStale` | src/filemgr.cc:3327-3346 | the regions of the document are added to the stale list, with its 32-bit lengths; TiledExact and AddStaleExact say what that covers |
| `DocIo.DocStore.MarkTail` | src/docio.cc:134-139 | the rest of the current block, with its metadata, is added to the stale list |
| `StaleMerge.MergedCovers` | src/staleblock.cc:451-518 | after inserting and merging a region the tree covers exactly the old bytes and those of the region, for every sorted tree, as long as the merged lengths fit in 32 bits |
| `StaleMerge.MergedNarrow` | src/staleblock.cc:451-518 | the 32-bit length arithmetic equals the unbounded one whenever the lengths of the unbounded result fit in 32 bits |
| `StaleMerge.ShortFits` | src/staleblock.cc:451-518 | for every sorted tree the merged lengths fit in 32 bits if and only if the span from the left neighbour, if it reaches the region, to the farthest end among the region, the neighbours reached and an item with the same start is below 2^32 |
| `StaleMerge.MergedExact` | src/staleblock.cc:451-518 | on disjoint regions with gaps an insertion covers exactly the old bytes and the new ones if and only if that span of the region and its neighbours is below 2^32 |
| `StaleMerge.MergedWraps` | src/staleblock.cc:451-518 | a concrete merge whose length wraps to zero and loses every byte |
| `StaleMerge.MergedNormal` | src/staleblock.cc:451-518 | regions stay sorted with gaps between them if and only if the new region reaches at most one region that starts behind its first byte |
| `StaleMerge.DisjointNormal` | src/staleblock.cc:451-518 | inserting a region disjoint from the others keeps them sorted with gaps |
| `StaleBlocks.MergeTree.InsertMerge` | src/staleblock.cc:451-518 | the items after the search, placement and neighbour merges in place are those of the merge function |
| `StaleBlocks.MergeTree.Place` | src/staleblock.cc:458-475 | the region is placed at its start position, or the longer one kept when the start is taken |
| `StaleBlocks.MergeTree.JoinAround` | src/staleblock.cc:477-517 | the region is joined with the left and then the right neighbour |
| `StaleBlocks.CarveBytes` | src/staleblock.cc:891-958 | carving a region splits its bytes into whole blocks and rests, without loss or overlap |
| `StaleBlocks.CarveWhole` | src/staleblock.cc:907-929 | the blocks taken out of a region are exactly the blocks wholly inside it |
| `StaleBlocks.CarveRest` | src/staleblock.cc:937-958 | the rests are inside the region, sorted with a gap, and hold no whole block |
| `StaleBlocks.ExtractBytes` | src/staleblock.cc:876-959 | extraction conserves bytes: each stale byte is afterwards in exactly one reusable run or one remaining region, and no other byte is |
| `StaleBlocks.ExtractRests` | src/staleblock.cc:937-958 | the remaining regions stay sorted with gaps and hold no whole block |
| `StaleBlocks.ExtractRuns` | src/staleblock.cc:927-935 | the reusable runs are sorted, non-empty, disjoint and not even adjacent |
| `StaleBlocks.ExtractWhole` | src/staleblock.cc:865-959 | a block is handed out if and only if all its bytes are stale |
| `StaleBlocks.MergeTree.Extract` | src/staleblock.cc:865-959 | the loop computes exactly the runs and the rests |
| `StaleDoc.DecEnc` | src/staleblock.cc:297-304 | a number that fits reads back from its bytes |
| `StaleDoc.EncByte` | src/staleblock.cc:297-304 | byte i of a number is its i-th base-256 digit, the most significant first |
| `StaleDoc.Gather` | src/staleblock.cc:255-373 | the system document is the header followed by every region in order; previous offset, previous header, KV info offset, sequence number and count read back from their places, and so does every region; the buffer always has room |
| `StaleDoc.ItemBytes` | src/staleblock.cc:554-563 | the i-th position and length read back from the document |
| `StaleDoc.Fetch` | src/staleblock.cc:524-566 | reading back a written document merges exactly its regions into the tree and returns the links of the header |
| `StaleDoc.MergeAllCovers` | src/staleblock.cc:524-566 | merging all the regions of a document covers exactly the old bytes and theirs |
| `StaleDoc.MergedSorted` | src/staleblock.cc:451-518 | merging keeps the regions sorted by position, overlapping or not |
| `CacheBlock.Stamp` | src/blockcache.cc:557-569 | stamping a checksum changes only the checksum field, and only of index nodes |
| `CacheBlock.StampPasses` | src/filemgr.cc:1897-1912 | every block a flush writes passes the checksum test of a later read |
| `CacheBlock.Patch` | src/blockcache.cc:1284-1288 | a partial write changes exactly the bytes it covers |
| `CacheState.OnePlace` | src/blockcache.cc:80-139 | every cached block is in exactly one place: the free list, or the hash table together with exactly one of the clean list, the data tree and the index tree of its shard |
| `CacheStep.TakeOk` | src/blockcache.cc:1106-1189 | taking a free block for a new one keeps the invariant and the last-written bytes |
| `CacheStep.StoreOk` | src/blockcache.cc:1131-1189 | overwriting a cached block keeps the invariant |
| `CacheStep.EnterTree` | src/blockcache.cc:1156-1175 | a block that becomes dirty enters the index tree if it is an index node then and the data tree if not, and every dirty block is in the tree of the marker it became dirty with |
| `CacheStep.FlushOk` | src/blockcache.cc:548-637 | flushing one block keeps the invariant |
| `CacheStep.FlushDropOk` | src/blockcache.cc:617-626 | flushing and freeing a document block keeps the invariant |
| `CacheStep.DropOk` | src/blockcache.cc:769-774 | evicting a clean block keeps the invariant |
| `CacheStep.StampQuiet` | src/blockcache.cc:557-569 | a flush changes no byte a reader sees outside the checksum field |
| `Cache.BlockCache.constructor` | src/blockcache.cc:1417-1460 | all blocks are free |
| `Cache.BlockCache.Take` | src/blockcache.cc:1106-1189 | the first free block holds the new bytes; a dirty one is in the index tree exactly if it is an index node and else in the data tree, a clean one at the head of its list |
| `Cache.BlockCache.Store` | src/blockcache.cc:1131-1189 | the whole new state: the item holds the new bytes and stays or becomes dirty; a clean one that becomes dirty enters the index tree exactly if the new bytes are an index node and else the data tree, one that stays clean goes to the head of its list; a clean request overwrites a dirty block too |
| `Cache.BlockCache.FlushOne` | src/blockcache.cc:548-643 | the whole new state: the block is on disk, stamped, and at the head of its clean list, or at the head of the free list exactly if documents are not cached and it is no index node |
| `Cache.BlockCache.Flush` | src/blockcache.cc:392-679 | the blocks written, in order: in full, the data blocks of the file and then its index blocks, each in ascending order; in part, the run of consecutive blocks from the first data block on, or from the first index block if there are no data blocks, up to a gap or a full batch; the state is that of flushing exactly these one by one; no block reads differently and the disk changes exactly by their stamped bytes |
| `Cache.BlockCache.FlushLoop` | src/blockcache.cc:431-663 | the loop over the trees stops exactly at a gap, at a full batch, after the data blocks or with nothing left, as Flush says |
| `Cache.BlockCache.FlushLeast` | src/blockcache.cc:476-650 | one more block: the least of its tree is written, and a batch that is full ends a partial flush |
| `CacheOrder.SweptStep` | src/blockcache.cc:476-549 | taking the least block keeps the blocks taken in ascending order and below all that are left |
| `CacheOrder.RunEnd` | src/blockcache.cc:506-516 | stopping at a gap or a full batch has taken the first run of consecutive blocks, and no longer one |
| `Cache.BlockCache.DropLast` | src/blockcache.cc:769-776 | the last item of the clean list, and only that, becomes free, at the head of the free list |
| `Cache.BlockCache.Spare` | src/blockcache.cc:740-754 | the last item of the clean list moves to the front with one point less, and nothing else changes |
| `Cache.BlockCache.Visit` | src/blockcache.cc:719-757 | one shard of a round: an empty one stays; one without clean blocks leads to one batch of the file being written; else the last clean item is freed if its score is zero or documents are not cached, and spared if not |
| `Cache.BlockCache.Evict` | src/blockcache.cc:707-785 | eviction loses nothing: no block reads differently; it visits the shards in turn from the one after the random one, does at each what Visit says, ends at the first item freed, and fails exactly after a whole round without one, having made progress |
| `Cache.BlockCache.MakeRoom` | src/blockcache.cc:682-707 | retrying eviction terminates with a free block, from every valid state with at least one block, and does nothing if there is one already |
| `Cache.Victim` | src/blockcache.cc:693-706 | when nothing is free some file has a cached block |
| `Cache.SomeShard` | src/blockcache.cc:719-737 | a file with cached blocks has a shard that is not empty, whatever shard the round robin starts from |
| `Cache.LastKnown` | src/blockcache.cc:937-1001 | in every valid state a block is known exactly when it is cached or on disk, and reads as last written up to the stamped checksum |
| `Cache.BlockCache.Write` | src/blockcache.cc:1068-1194 | the block reads as written and every other block as before; a cached block is left alone when the caller asks for that; a clean request counts as a write of the disk bytes if and only if the block is cached dirty, and otherwise changes no read; the disk under the block is untouched; a block that becomes dirty is in the index tree exactly if the bytes are an index node and else in the data tree, one that is dirty already keeps its tree, and no other block enters a tree; a clean block is first in its list |
| `Cache.BlockCache.WritePartial` | src/blockcache.cc:1196-1293 | a cached block is patched and reported; a clean one enters the index tree exactly if its old bytes are an index node and else the data tree; it becomes immutable if the write is final, unless it was a clean index node; a miss changes nothing and reports zero |
| `Cache.BlockCache.Read` | src/blockcache.cc:937-1001 | a hit exactly when the block is cached, with its bytes; a clean block moves to the head of its list, its score is renewed, and nothing else changes |
| `Cache.BlockCache.Invalidate` | src/blockcache.cc:1003-1066 | succeeds exactly for clean cached blocks, which are then free at the head of the free list; a dirty block is only marked immutable |
| `Cache.BlockCache.ReadBlock` | src/filemgr.cc:2028-2218 | a read through the cache gives the bytes last written, up to the stamped checksum, for every block ever written, however much was evicted and flushed before; a missed block is cached exactly if documents are cached or it is an index node |
| `Cache.BlockCache.WriteBlock` | src/filemgr.cc:2220-2342 | a write at an offset changes exactly its bytes of exactly that block, cached or not; a block written in full counts as unstamped, and no block becomes stamped but those last written as index nodes; a zero-byte write to a cached block puts the bytes of the disk back, or any bytes when the block is not on disk yet; the marker a block becomes dirty with is that of its old bytes if a cached block is written in part and else that of the new ones |
| `Cache.LostWrite` | src/filemgr.cc:2287-2316 | an instance: a full block written and then written with no bytes reads as the old block on disk |
| `CacheFlush.Push` | src/blockcache.cc:571-588 | batching delays but never drops, reorders or changes a block, and ends a batch only when it is full or at a gap |
| `CacheFlush.Load` | src/blockcache.cc:433-459 | the cross-shard tree holds the first dirty block of every shard |
| `CacheFlush.LeastHead` | src/blockcache.cc:476-497 | the least of those is the least dirty block of all shards and is the first of the shard its number selects |
| `CacheFlush.TakeMerging` | src/blockcache.cc:536-549 | taking it keeps the merge in order |
| `CacheFlush.OneMore` | src/blockcache.cc:587-588 | the batch buffer always has room for one more block |
| `CacheFlush.Pass` | src/blockcache.cc:431-663 | one pass writes every dirty block of the trees once, in ascending order |
| `CacheFlush.FlushAll` | src/blockcache.cc:392-679 | a direct-I/O flush writes every dirty data block in ascending order and then every dirty index block in ascending order, each once, stamped, in the longest runs of consecutive blocks that the flush unit allows |
| `CacheDirect.WriteAllIs` | src/blockcache.cc:571-602 | writing a stream of blocks leaves the wanted bytes in the blocks it names and all others as they were |
| `CacheDirect.StreamIs` | src/blockcache.cc:431-663 | the merged streams of the data and index trees leave the disk with exactly the stamped dirty blocks of the file written |
| `CacheDirect.StreamKinds` | src/blockcache.cc:431-663 | no block that became dirty as an index node is in the first stream, and only such blocks are in the second |
| `CacheDirect.FlushBoth` | src/blockcache.cc:392-679 | writing the batches of the direct-I/O flush leaves the same disk as flushing the blocks one by one; first come, ascending, the blocks that did not become dirty as index nodes, then, ascending, those that did |
| `Slots.SlotNode.Shift` | src/btree_fast_str_kv.cc:129-134 | a range of offsets moves by the same distance and no other byte changes |
| `Slots.SlotNode.Get` | src/btree_fast_str_kv.cc:46-86 | the bytes between the offsets are exactly the i-th key and value of the sequence the node represents |
| `Slots.SlotNode.Set` | src/btree_fast_str_kv.cc:88-167 | exactly the i-th pair is replaced, whatever the lengths, or the pair is appended; the layout stays without gaps |
| `Slots.SlotNode.Replace` | src/btree_fast_str_kv.cc:111-135 | exactly pair idx is replaced by one of any other length, and the layout stays without gaps |
| `Slots.SlotNode.Append` | src/btree_fast_str_kv.cc:136-162 | the pair is last and all others keep their bytes, also when the node was empty |
| `Slots.SlotNode.Insert` | src/btree_fast_str_kv.cc:191-228 | the pair is inserted at idx, all others keep their bytes, the layout stays without gaps, and the node grows by exactly its key, its value and two bytes |
| `Slots.SlotNode.Remove` | src/btree_fast_str_kv.cc:229-260 | exactly pair idx goes and the layout stays without gaps |
| `Slots.SlotNode.CopyFrom` | src/btree_fast_str_kv.cc:263-321 | a range of pairs is copied, also from the node to itself |
| `Slots.SlotNode.DataSize` | src/btree_fast_str_kv.cc:339-384 | the size is exactly the bytes the node takes after the changes when it has pairs, and two bytes too few when it is empty |
| `Slots.SpliceRep` | src/btree_fast_str_kv.cc:169-261 | whatever is spliced in or out, offsets and bytes that agree with the new sequence represent it |
| `Slots.InsertTotal` | src/btree_fast_str_kv.cc:339-384 | a pair costs its key, its value and two bytes of offset |
| `Slots.MinTotal` | src/btree_fast_str_kv.cc:359-371 | replacing the first key costs the difference of the key lengths |

## Left out

- BTreeOps.BTree.Insert: requires that the tree is not an index root without entries, because the code then follows an uninitialised slot.
- BTreeNode.InitNode: does not model the metadata bytes; metadata only lowers the capacity of the root.
- BTreeLoad.Height: does not model overflow of the 64-bit product of capacities.
- BTreeIter.Iterator.Next: does not model calls of next and prev mixed on one iterator, because the direction flag is not cleared when the code climbs to another leaf and such runs keep no simple order.
- BTreeIter.Iterator.Prev: does not model mixed runs either, for the same reason.
- BTreeStore.BlockStore.Alloc: does not model sub-blocks, several nodes in one block, and the stale regions of moved and removed nodes.
- Keys and values of the B+tree are integers under the integer order; key and value widths, byte order, the 16-bit entry count and the not-found index 0xffff (an option here) are not modelled, and the variable-length slots are verified on their own and not inside the tree operations.
- AvlOps.AvlIndex.Insert: does not state the node returned after a successful insertion, and keys are integers; the variant with next and prev pointers is not modelled.
- DirtyUpdate.DirtyIndex.FlushBlocks: does not model the bulk-load mode, write errors and the roots stored in an update.
- DirtyRuns.StepInv: writers are serialized by the file mutex, and each method of the overlay is one step, as its lock makes it.
- DocIo.DocStore.Append: requires that the document has fewer than 2^32 whole blocks, because the number of blocks is a 32-bit word and the list of blocks would be cut short; it models the format with linked blocks; the older consecutive format, the block-aligned build option, bitmap revision numbers and write errors are left out.
- DocIo.DocStore.AppendLong: requires that number of blocks as well, for the same reason.
- DocIo.DocStore.AllocList: requires it too; the list lives on the stack in the code, and its size is not limited here.
- DocIo.DocStore.Read: the length of one component is a 32-bit word in the code and unbounded here; ReadSplit joins components.
- DocIo.DocStore.AppendAll: requires fewer than 2^32 whole blocks of every document, as Append does; ends at an empty document that would lose earlier ones; the state after it is described by Append alone.
- DocIo.DocStore.WriteHere: of the block metadata only the next link is modelled, so the loss of the block marker is not.
- DocIo.DocStore.Alloc: which free block the file manager picks is left open; that it does not pick a block with a document is assumed.
- The fields, checksums and compression of a document are left out; a document is its bytes.
- StaleDoc.Gather: models one document; gathering again for the blocks made stale by updating the stale tree, the in-memory copies and the scan of the stale tree are left out.
- StaleBlocks.MergeTree.Extract: file positions are unbounded.
- Cache.BlockCache.Flush: does not model flushing of immutable blocks only, failed writes, time stamps, reference counts and closing of files.
- Cache.BlockCache.ReadBlock: does not model that a failed checksum test fails the read, nor that the test leaves 0xff in the checksum field of the buffer; the checksum itself is left open as any function of the block, and StampPasses shows that flushed blocks pass.
- Cache.BlockCache.Evict: operations of the cache are atomic here; interleaving between its locks is not modelled, and the victim file is any file with cached blocks.
- Slots.SlotNode.Set: keys are byte sequences; the allocation of key buffers behind the key pointers is not modelled.
- The write-ahead log, the HB+trie, the superblock, transactions, snapshots, compaction, encryption and the public interface are left out.
