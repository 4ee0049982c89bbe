/** The kernel's own way of freeing a block. */
module S5Kernel {
  import opened Common
  import opened S5Words
  import opened S5Free

  type Table = s: seq<u32> | |s| == SLOTS + 1 witness seq(SLOTS + 1, _ => 0)

  /** The kernel keeps the link in the last entry of the table. */
  class Super {
    var disk: seq<Block>
    var nfree: nat
    var freeBlocks: Table
    ghost var nodes: seq<u32>

    ghost function FreeStack(): seq<u32>
      requires nfree <= SLOTS && Chain(disk, nodes)
      reads this
    {
      Stack(disk, nodes) + freeBlocks[..nfree]
    }

    ghost predicate Valid()
      reads this
    {
      && |disk| <= NONE && nfree <= SLOTS && Chain(disk, nodes) && freeBlocks[SLOTS] == Top(nodes)
      && StackOk(|disk|, FreeStack())
    }

    /** A disk without a free block. */
    constructor (disk: seq<Block>)
      requires |disk| <= NONE
      ensures Valid() && this.disk == disk && FreeStack() == []
    {
      this.disk, nfree, nodes := disk, 0, [];
      freeBlocks := seq(SLOTS + 1, _ => NONE);
    }

    /** Copy the whole table into a block. */
    method CopyTable(b: u32)
      requires b < |disk|
      modifies this`disk
      ensures |disk| == |old(disk)| && forall c | 0 <= c < |disk| && c != b :: disk[c] == old(disk)[c]
      ensures Entries(disk[b]) == freeBlocks[..SLOTS] && Link(disk[b]) == freeBlocks[SLOTS]
    {
      var blk := Patch(disk[b], 0, PackAll(freeBlocks));
      forall i | 0 <= i <= SLOTS
        ensures Word(blk, i) == freeBlocks[i]
      {
        WordsCopied(disk[b], freeBlocks, i);
      }
      disk := disk[b := blk];
    }

    /** `s5_free_block`: the same push as `Block.free`. */
    method FreeBlock(b: u32)
      requires Valid() && 0 < b < |disk| && b !in FreeStack()
      modifies this
      ensures Valid() && FreeStack() == old(FreeStack()) + [b]
      ensures |disk| == |old(disk)| && forall c | 0 <= c < |disk| && c != b :: disk[c] == old(disk)[c]
    {
      ghost var stack, disk0 := FreeStack(), disk;
      if nfree == SLOTS {
        CopyTable(b);
        PushNode(disk0, disk, nodes, freeBlocks[..SLOTS], b);
        nfree, nodes := 0, nodes + [b];
        freeBlocks := freeBlocks[SLOTS := b];
      } else {
        freeBlocks := freeBlocks[nfree := b];
        nfree := nfree + 1;
        assert freeBlocks[..nfree] == old(freeBlocks[..nfree]) + [b];
      }
      PushOk(|disk|, stack, b, FreeStack());
    }
  }
}
