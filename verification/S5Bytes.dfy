/** What changes on the disk do to the contents of files. */
module S5Bytes {
  import opened Common
  import opened S5Words
  import opened S5Files

  /** Every byte of every file is as before. */
  ghost predicate SameBytes(disk: seq<Block>, inodes: seq<Inode>, disk': seq<Block>, inodes': seq<Inode>) {
    && |inodes'| == |inodes|
    && forall i, k, o | 0 <= i < |inodes| && 0 <= k < FILE_BLOCKS && 0 <= o < BLOCK_SIZE ::
         ByteAt(disk', inodes'[i], k, o) == ByteAt(disk, inodes[i], k, o)
  }

  lemma SameBytesTwice(disk: seq<Block>, inodes: seq<Inode>, disk1: seq<Block>, inodes1: seq<Inode>,
                       disk2: seq<Block>, inodes2: seq<Inode>)
    requires SameBytes(disk, inodes, disk1, inodes1) && SameBytes(disk1, inodes1, disk2, inodes2)
    ensures SameBytes(disk, inodes, disk2, inodes2)
  {
    forall i, k, o | 0 <= i < |inodes| && 0 <= k < FILE_BLOCKS && 0 <= o < BLOCK_SIZE
      ensures ByteAt(disk2, inodes2[i], k, o) == ByteAt(disk, inodes[i], k, o)
    {
      assert ByteAt(disk1, inodes1[i], k, o) == ByteAt(disk, inodes[i], k, o);
    }
  }

  /** Types and sizes are as before. */
  ghost predicate SameMeta(inodes: seq<Inode>, inodes': seq<Inode>) {
    && |inodes'| == |inodes|
    && forall i | 0 <= i < |inodes| :: inodes'[i].kind == inodes[i].kind && inodes'[i].size == inodes[i].size
  }

  /** Bytes `o` to `o + |chunk|` of one part of one file are new, the rest is as before. */
  ghost predicate Patched(disk: seq<Block>, inodes: seq<Inode>, disk': seq<Block>, inodes': seq<Inode>,
                          at: Place, o: nat, chunk: seq<byte>) {
    && |inodes'| == |inodes|
    && forall i, k, x | 0 <= i < |inodes| && 0 <= k < FILE_BLOCKS && 0 <= x < BLOCK_SIZE ::
         ByteAt(disk', inodes'[i], k, x) ==
         if Place(i, k) == at && o <= x < o + |chunk| then chunk[x - o] else ByteAt(disk, inodes[i], k, x)
  }

  lemma SameThenPatched(disk: seq<Block>, inodes: seq<Inode>, disk1: seq<Block>, inodes1: seq<Inode>,
                        disk2: seq<Block>, at: Place, o: nat, chunk: seq<byte>)
    requires SameBytes(disk, inodes, disk1, inodes1) && Patched(disk1, inodes1, disk2, inodes1, at, o, chunk)
    ensures Patched(disk, inodes, disk2, inodes1, at, o, chunk)
  {
    forall i, k, x | 0 <= i < |inodes| && 0 <= k < FILE_BLOCKS && 0 <= x < BLOCK_SIZE
      ensures ByteAt(disk2, inodes1[i], k, x) ==
              if Place(i, k) == at && o <= x < o + |chunk| then chunk[x - o] else ByteAt(disk, inodes[i], k, x)
    {
      assert ByteAt(disk1, inodes1[i], k, x) == ByteAt(disk, inodes[i], k, x);
    }
  }

  /** Changing a block that nobody owns. */
  lemma FreeBlockChanges(disk: seq<Block>, inodes: seq<Inode>, own: map<u32, Place>, b: u32, blk: Block)
    requires Owned(disk, inodes, own) && OnDisk(disk, b) && b !in own
    ensures Owned(disk[b := blk], inodes, own) && SameBytes(disk, inodes, disk[b := blk], inodes)
      && SameRefs(disk, disk[b := blk], inodes)
  {
    var disk' := disk[b := blk];
    forall i, p | 0 <= i < |inodes| && 0 <= p <= FILE_BLOCKS
      ensures Ref(disk', inodes[i], p) == Ref(disk, inodes[i], p) && Claims(disk', inodes, own, i, p)
    {
      RefFrame(disk, inodes, own, b, blk, i, p);
      assert Claims(disk, inodes, own, i, p);
    }
    forall i, k, o | 0 <= i < |inodes| && 0 <= k < FILE_BLOCKS && 0 <= o < BLOCK_SIZE
      ensures ByteAt(disk', inodes[i], k, o) == ByteAt(disk, inodes[i], k, o)
    {
      assert Claims(disk, inodes, own, i, k);
      assert Ref(disk', inodes[i], k) == Ref(disk, inodes[i], k);
    }
  }

  /** A zeroed block in place of a hole, with no other data block changed. */
  lemma FillHole(disk: seq<Block>, inodes: seq<Inode>, own: map<u32, Place>,
                 disk': seq<Block>, inodes': seq<Inode>, at: Place, b: u32)
    requires Owned(disk, inodes, own) && OnePlace(disk, inodes, disk', inodes', at, b)
    requires OnDisk(disk, b) && disk'[b] == ZEROS && Ref(disk, inodes[at.ino], at.slot) == 0
    requires forall c | c in own && own[c].slot != FILE_BLOCKS :: disk'[c] == disk[c]
    ensures SameBytes(disk, inodes, disk', inodes')
  {
    forall i, k, o | 0 <= i < |inodes| && 0 <= k < FILE_BLOCKS && 0 <= o < BLOCK_SIZE
      ensures ByteAt(disk', inodes'[i], k, o) == ByteAt(disk, inodes[i], k, o)
    {
      assert Claims(disk, inodes, own, i, k);
      assert Ref(disk', inodes'[i], k) == if Place(i, k) == at then b else Ref(disk, inodes[i], k);
    }
  }

  /** Writing into the block of one part of one file. */
  lemma PatchData(disk: seq<Block>, inodes: seq<Inode>, own: map<u32, Place>, at: Place, b: u32, o: nat,
    chunk: seq<byte>)
    requires Owned(disk, inodes, own) && at.ino < |inodes| && at.slot < FILE_BLOCKS
    requires b == Slot(disk, inodes[at.ino], at.slot) && OnDisk(disk, b) && o + |chunk| <= BLOCK_SIZE
    ensures var disk' := disk[b := Patch(disk[b], o, chunk)];
      Owned(disk', inodes, own) && SameRefs(disk, disk', inodes) && Patched(disk, inodes, disk', inodes, at, o, chunk)
  {
    var disk' := disk[b := Patch(disk[b], o, chunk)];
    assert Claims(disk, inodes, own, at.ino, at.slot);
    forall i, p | 0 <= i < |inodes| && 0 <= p <= FILE_BLOCKS
      ensures Ref(disk', inodes[i], p) == Ref(disk, inodes[i], p) && Claims(disk', inodes, own, i, p)
    {
      RefFrame(disk, inodes, own, b, disk'[b], i, p);
      assert Claims(disk, inodes, own, i, p);
    }
    forall i, k, x | 0 <= i < |inodes| && 0 <= k < FILE_BLOCKS && 0 <= x < BLOCK_SIZE
      ensures ByteAt(disk', inodes[i], k, x) ==
              if Place(i, k) == at && o <= x < o + |chunk| then chunk[x - o] else ByteAt(disk, inodes[i], k, x)
    {
      assert Claims(disk, inodes, own, i, k);
      assert Ref(disk', inodes[i], k) == Ref(disk, inodes[i], k);
      PatchIndex(disk[b], o, chunk, x);
    }
  }

  /** The size field has no part in the layout. */
  lemma SizeIsNoContent(disk: seq<Block>, inodes: seq<Inode>, own: map<u32, Place>, i: nat, size: u32)
    requires Owned(disk, inodes, own) && i < |inodes|
    ensures var inodes' := inodes[i := inodes[i].(size := size)];
      Owned(disk, inodes', own) && SameBytes(disk, inodes, disk, inodes')
  {
    var inodes' := inodes[i := inodes[i].(size := size)];
    forall j, p | 0 <= j < |inodes| && 0 <= p <= FILE_BLOCKS
      ensures Ref(disk, inodes'[j], p) == Ref(disk, inodes[j], p) && Claims(disk, inodes', own, j, p)
    {
      assert Claims(disk, inodes, own, j, p);
    }
    forall b | b in own
      ensures Keeps(disk, inodes', own[b], b)
    {
      assert Keeps(disk, inodes, own[b], b);
    }
  }

  // ---------------------------------------------------------------------
  // The flat view
  // ---------------------------------------------------------------------

  /** The first `n` bytes of `data` have been written at `offset` of file `f`, and nothing else has changed. */
  ghost predicate WrittenTo(disk: seq<Block>, inodes: seq<Inode>, disk': seq<Block>, inodes': seq<Inode>,
                            f: nat, offset: nat, data: seq<byte>, n: nat) {
    && |inodes'| == |inodes| && n <= |data|
    && forall i, x | 0 <= i < |inodes| && 0 <= x < MAX_FILE_SIZE ::
         Flat(disk', inodes'[i], x) ==
         if i == f && offset <= x < offset + n then data[x - offset] else Flat(disk, inodes[i], x)
  }

  /** Filling holes with zeroed blocks does not show. */
  lemma WrittenSame(disk: seq<Block>, inodes: seq<Inode>, disk1: seq<Block>, inodes1: seq<Inode>,
                    disk2: seq<Block>, inodes2: seq<Inode>, f: nat, offset: nat, data: seq<byte>, n: nat)
    requires WrittenTo(disk, inodes, disk1, inodes1, f, offset, data, n) && SameBytes(disk1, inodes1, disk2, inodes2)
    ensures WrittenTo(disk, inodes, disk2, inodes2, f, offset, data, n)
  {
    forall i, x | 0 <= i < |inodes| && 0 <= x < MAX_FILE_SIZE
      ensures Flat(disk2, inodes2[i], x) == Flat(disk1, inodes1[i], x)
    {
      assert ByteAt(disk2, inodes2[i], x / BLOCK_SIZE, x % BLOCK_SIZE) ==
        ByteAt(disk1, inodes1[i], x / BLOCK_SIZE, x % BLOCK_SIZE);
    }
  }

  /** Bytes of one block are consecutive bytes of the file. */
  lemma SameChunk(x: nat, at: nat, len: nat)
    requires at % BLOCK_SIZE + len <= BLOCK_SIZE
    ensures at <= x < at + len <==>
            x / BLOCK_SIZE == at / BLOCK_SIZE && at % BLOCK_SIZE <= x % BLOCK_SIZE < at % BLOCK_SIZE + len
    ensures at <= x < at + len ==> x % BLOCK_SIZE - at % BLOCK_SIZE == x - at
  {
  }

  /** One more chunk written. */
  lemma WrittenMore(disk: seq<Block>, inodes: seq<Inode>, disk1: seq<Block>, inodes1: seq<Inode>,
                    disk2: seq<Block>, inodes2: seq<Inode>,
                    f: nat, start: nat, data: seq<byte>, n: nat, offset: nat, chunk: seq<byte>)
    requires WrittenTo(disk, inodes, disk1, inodes1, f, start, data, n) && offset == start + n
    requires n + |chunk| <= |data| && chunk == data[n..n + |chunk|]
    requires start + |data| <= MAX_FILE_SIZE && offset % BLOCK_SIZE + |chunk| <= BLOCK_SIZE
    requires Patched(disk1, inodes1, disk2, inodes2, Place(f, offset / BLOCK_SIZE), offset % BLOCK_SIZE, chunk)
    ensures WrittenTo(disk, inodes, disk2, inodes2, f, start, data, n + |chunk|)
  {
    forall i, x | 0 <= i < |inodes| && 0 <= x < MAX_FILE_SIZE
      ensures Flat(disk2, inodes2[i], x) ==
              if i == f && start <= x < start + n + |chunk| then data[x - start] else Flat(disk, inodes[i], x)
    {
      SameChunk(x, offset, |chunk|);
      assert Flat(disk1, inodes1[i], x) == if i == f && start <= x < start + n then data[x - start]
        else Flat(disk, inodes[i], x);
    }
  }
}
