/** A new disk: `Simdisk.format`, and where inodes lie. */
module S5Format {
  import opened Common
  import opened S5Words
  import opened S5Free
  import opened S5Disk

  /** Inodes of 128 bytes in a block. */
  const PER_BLOCK := 32

  /** Blocks that hold `n` inodes. */
  function InodeBlocks(n: nat): nat
    requires n > 0
  {
    (n - 1) / PER_BLOCK + 1
  }

  /** The block that `get_inode` finds an inode in; block 0 is the superblock. */
  function InodeBlock(x: nat): nat { 1 + x / PER_BLOCK }

  /**
   * `format`, up to the entries of the root directory: the disk is refused for want of inodes or
   * of room, or for a size that is no multiple of the block size. Otherwise the blocks from the
   * number of inode blocks on are free, and nothing is owned. The first of those blocks is the
   * one that the last inode lies in.
   */
  method Format(ninodes: int, size: nat) returns (r: Option<Simdisk>)
    requires size / BLOCK_SIZE <= NONE
    ensures r.None? <==> ninodes < 1 || size % BLOCK_SIZE != 0 || InodeBlocks(ninodes) + 1 >= size / BLOCK_SIZE
    ensures r.Some? ==> fresh(r.value) && r.value.Valid() && |r.value.inodes| == ninodes
    ensures r.Some? ==> r.value.FreeStack() == From(InodeBlocks(ninodes), size / BLOCK_SIZE)
    ensures r.Some? ==> InodeBlock(ninodes - 1) in r.value.FreeStack()
  {
    if ninodes < 1 || size % BLOCK_SIZE != 0 || InodeBlocks(ninodes) + 1 >= size / BLOCK_SIZE {
      return None;
    }
    var d := new Simdisk(ninodes, InodeBlocks(ninodes), size / BLOCK_SIZE);
    r := Some(d);
  }

  /**
   * On every new disk the block at the bottom of the free list holds inodes: those of the last
   * inode block, and no others, lie in a block that is also free.
   */
  lemma LastInodeBlockIsFree(n: nat, blocks: nat, x: nat)
    requires 0 < n && InodeBlocks(n) + 1 < blocks <= NONE && x < n
    ensures InodeBlock(x) in From(InodeBlocks(n), blocks) <==> x / PER_BLOCK == (n - 1) / PER_BLOCK
    ensures InodeBlock(n - 1) == InodeBlocks(n) && InodeBlock(n - 1) in From(InodeBlocks(n), blocks)
  {
  }
}
