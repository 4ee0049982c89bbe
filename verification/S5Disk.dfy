/** The simulated disk: allocation of blocks, and reading and writing of files. */
module S5Disk {
  import opened Common
  import opened Lists
  import opened S5Words
  import opened S5Free
  import opened S5Files
  import opened S5Bytes
  import opened S5Trunc

  type Slots = s: seq<u32> | |s| == SLOTS witness seq(SLOTS, _ => 0)

  datatype Written = Done | BadType | TooBig | NoSpace

  /** An inode that is free and refers to nothing. */
  const BLANK := Inode(Free, 0, seq(DIRECT, _ => 0), 0)

  /** The block numbers from `a` up to `b`. */
  ghost function From(a: nat, b: nat): (s: seq<u32>)
    requires a <= b <= NONE
    ensures |s| == b - a && forall x: u32 :: x in s <==> a <= x < b
  {
    if a == b then [] else From(a, b - 1) + [b - 1]
  }

  lemma NothingOwned(disk: seq<Block>, inodes: seq<Inode>)
    requires forall i | 0 <= i < |inodes| :: inodes[i] == BLANK
    ensures Owned(disk, inodes, map[])
  {
  }

  class Simdisk {
    var disk: seq<Block>
    var inodes: seq<Inode>
    var nfree: nat
    var free: Slots
    var last: u32
    /** The blocks that the chain of free blocks runs through, deepest first. */
    ghost var nodes: seq<u32>
    /** Where each used block is referred to. */
    ghost var own: map<u32, Place>

    /** The free list is well formed. */
    ghost predicate FreeOk()
      reads this
    {
      && |disk| <= NONE && nfree <= SLOTS && Chain(disk, nodes) && last == Top(nodes)
      && StackOk(|disk|, FreeStack())
    }

    /** The free block numbers, the next one to be allocated on top. */
    ghost function FreeStack(): seq<u32>
      requires nfree <= SLOTS && Chain(disk, nodes)
      reads this
    {
      Stack(disk, nodes) + free[..nfree]
    }

    /** Every block is free, or referred to from one place, or neither. */
    ghost predicate Valid()
      reads this
    {
      FreeOk() && Owned(disk, inodes, own) && forall b | b in FreeStack() :: b !in own
    }

    /** The part of `format` that sets up inodes and frees the blocks from `first` on. */
    constructor (ninodes: nat, first: nat, blocks: nat)
      requires 0 < first <= blocks <= NONE
      ensures Valid() && |disk| == blocks && FreeStack() == From(first, blocks)
      ensures |inodes| == ninodes && forall i | 0 <= i < ninodes :: inodes[i] == BLANK
    {
      disk := seq(blocks, _ => ZEROS);
      inodes := seq(ninodes, _ => BLANK);
      nfree, free, last := 0, seq(SLOTS, _ => 0), NONE;
      nodes, own := [], map[];
      new;
      NothingOwned(disk, inodes);
      FreeFrom(first, blocks);
      NothingOwned(disk, inodes);
    }

    /** The loop of `format` over the blocks behind the inodes: each one is pushed on the stack. */
    method FreeFrom(first: nat, blocks: nat)
      requires FreeOk() && FreeStack() == [] && 0 < first <= blocks == |disk|
      modifies this`disk, this`nfree, this`free, this`last, this`nodes
      ensures FreeOk() && |disk| == blocks && FreeStack() == From(first, blocks)
    {
      var num := first;
      while num < blocks
        invariant first <= num <= blocks == |disk| && FreeOk() && FreeStack() == From(first, num)
      {
        FreeBlock(num);
        num := num + 1;
      }
    }

    /** The blocks that are accounted for. */
    ghost function Blocks(): set<u32>
      requires FreeOk()
      reads this
    {
      own.Keys + Elems(FreeStack())
    }

    /** `alloc_block`: pop the stack. */
    method AllocBlock() returns (r: Option<u32>)
      requires FreeOk()
      modifies this`nfree, this`free, this`last, this`nodes
      ensures FreeOk()
      ensures r.None? ==> old(FreeStack()) == [] && FreeStack() == []
      ensures r.Some? ==> old(FreeStack()) == FreeStack() + [r.value]
    {
      ghost var stack := FreeStack();
      EmptyChain(disk, nodes);
      if nfree == 0 {
        if last == NONE {
          return None;
        }
        var block := disk[last];
        ghost var n := |nodes| - 1;
        LoadSlots(block);
        r := Some(last);
        last, nfree := Link(block), SLOTS;
        nodes := nodes[..n];
      } else {
        nfree := nfree - 1;
        r := Some(free[nfree]);
      }
      assert FreeStack() == stack[..|stack| - 1];
      PopOk(|disk|, stack, FreeStack());
      assert stack == FreeStack() + [r.value];
    }

    /** Copy the entries of a chain block into the superblock. */
    method LoadSlots(block: Block)
      modifies this`free
      ensures free == Entries(block)
    {
      var i := 0;
      while i < SLOTS
        invariant 0 <= i <= SLOTS && forall j :: 0 <= j < i ==> free[j] == Word(block, j)
      {
        free := free[i := Word(block, i)];
        i := i + 1;
      }
    }

    /** Copy the entries and the link of the superblock into a block. */
    method StoreSlots(b: u32)
      requires OnDisk(disk, b)
      modifies this`disk
      ensures |disk| == |old(disk)| && forall c | 0 <= c < |disk| && c != b :: disk[c] == old(disk)[c]
      ensures Entries(disk[b]) == free && Link(disk[b]) == last
    {
      var i := 0;
      while i < SLOTS
        invariant 0 <= i <= SLOTS && |disk| == |old(disk)| && forall c | 0 <= c < |disk| && c != b ::
          disk[c] == old(disk)[c]
        invariant forall j :: 0 <= j < i ==> Word(disk[b], j) == free[j]
      {
        ghost var blk := disk[b];
        disk := disk[b := PutWord(disk[b], i, free[i])];
        forall j | 0 <= j <= i
          ensures Word(disk[b], j) == free[j]
        {
          WordPut(blk, i, free[i], j);
        }
        i := i + 1;
      }
      ghost var blk := disk[b];
      disk := disk[b := PutWord(disk[b], SLOTS, last)];
      forall j | 0 <= j <= SLOTS
        ensures Word(disk[b], j) == if j == SLOTS then last else Word(blk, j)
      {
        WordPut(blk, SLOTS, last, j);
      }
    }

    /** Move a full superblock into the block being freed. */
    method Spill(b: u32)
      requires FreeOk() && OnDisk(disk, b) && b !in FreeStack() && nfree == SLOTS
      modifies this`disk, this`nfree, this`last, this`nodes
      ensures |disk| == |old(disk)| && forall c | 0 <= c < |disk| && c != b :: disk[c] == old(disk)[c]
      ensures nfree <= SLOTS && Chain(disk, nodes) && last == Top(nodes)
      ensures FreeStack() == old(FreeStack()) + [b]
    {
      ghost var disk0 := disk;
      assert free[..nfree] == free;
      StoreSlots(b);
      PushNode(disk0, disk, nodes, free, b);
      last, nfree, nodes := b, 0, nodes + [b];
    }

    /** `Block.free`: push a block on the stack. */
    method FreeBlock(b: u32)
      requires FreeOk() && OnDisk(disk, b) && b !in FreeStack()
      modifies this`disk, this`nfree, this`free, this`last, this`nodes
      ensures FreeOk() && FreeStack() == old(FreeStack()) + [b]
      ensures |disk| == |old(disk)| && forall c | 0 <= c < |disk| && c != b :: disk[c] == old(disk)[c]
    {
      ghost var stack := FreeStack();
      if nfree < SLOTS {
        free := free[nfree := b];
        nfree := nfree + 1;
        assert free[..nfree] == old(free[..nfree]) + [b];
      } else {
        Spill(b);
      }
      PushOk(|disk|, stack, b, FreeStack());
    }

    /** `Block.zero` */
    method ZeroBlock(b: u32)
      requires OnDisk(disk, b)
      modifies this`disk
      ensures disk == old(disk)[b := ZEROS]
    {
      var i := 0;
      while i < BLOCK_SIZE
        invariant 0 <= i <= BLOCK_SIZE && |disk| == |old(disk)|
        invariant disk == old(disk)[b := disk[b]]
        invariant forall j :: 0 <= j < i ==> disk[b][j] == 0
      {
        disk := disk[b := disk[b][i := 0]];
        i := i + 1;
      }
      assert disk[b] == ZEROS;
    }

    // -------------------------------------------------------------------
    // Giving blocks to files
    // -------------------------------------------------------------------

    /** Zero a block that is neither free nor owned. */
    method ZeroFresh(b: u32)
      requires Valid() && OnDisk(disk, b) && b !in own && b !in FreeStack()
      modifies this`disk
      ensures Valid() && FreeStack() == old(FreeStack()) && |disk| == |old(disk)| && disk[b] == ZEROS
      ensures SameBytes(old(disk), inodes, disk, inodes) && SameRefs(old(disk), disk, inodes)
    {
      StackKept(disk, nodes, b, ZEROS);
      FreeBlockChanges(disk, inodes, own, b, ZEROS);
      ZeroBlock(b);
    }

    /** Take a block off the free list. */
    method Pop() returns (r: Option<u32>)
      requires Valid()
      modifies this`nfree, this`free, this`last, this`nodes
      ensures Valid()
      ensures r.None? ==> FreeStack() == old(FreeStack()) == []
      ensures r.Some? ==> OnDisk(disk, r.value) && r.value !in own && r.value !in FreeStack()
      ensures r.Some? ==> old(FreeStack()) == FreeStack() + [r.value]
    {
      ghost var stack := FreeStack();
      r := AllocBlock();
      if r.None? {
        return;
      }
      Popped(stack, FreeStack(), r.value);
    }

    /** A zeroed block that is neither free nor owned any more. */
    method AllocZeroed() returns (r: Option<u32>)
      requires Valid()
      modifies this`disk, this`nfree, this`free, this`last, this`nodes
      ensures Valid() && |disk| == |old(disk)| && SameBytes(old(disk), inodes, disk, inodes)
        && SameRefs(old(disk), disk, inodes)
      ensures r.None? ==> FreeStack() == old(FreeStack()) == []
      ensures r.Some? ==> Fresh(r.value) && old(FreeStack()) == FreeStack() + [r.value]
    {
      r := Pop();
      if r.Some? {
        ZeroFresh(r.value);
      }
    }

    /** A zeroed block that nobody refers to. */
    ghost predicate Fresh(b: u32)
      reads this
      requires FreeOk()
    {
      OnDisk(disk, b) && b !in own && b !in FreeStack() && disk[b] == ZEROS
    }

    /** Store a block number in a slot of a file, directly or in its indirect block. */
    method SetSlot(i: nat, k: nat, b: u32)
      requires FreeOk() && Owned(disk, inodes, own) && i < |inodes| && k < FILE_BLOCKS
      requires k >= DIRECT ==> inodes[i].indirect != 0 && inodes[i].indirect !in FreeStack()
      modifies this`disk, this`inodes
      ensures OnePlace(old(disk), old(inodes), disk, inodes, Place(i, k), b)
      ensures forall c | c in own && own[c].slot != FILE_BLOCKS :: disk[c] == old(disk)[c]
      ensures forall c | 0 <= c < |disk| && c !in own :: disk[c] == old(disk)[c]
      ensures FreeOk() && FreeStack() == old(FreeStack()) && SameMeta(old(inodes), inodes)
      ensures inodes[i].indirect == old(inodes)[i].indirect
    {
      if k < DIRECT {
        PutDirect(disk, inodes, Place(i, k), b);
        inodes := inodes[i := inodes[i].(direct := inodes[i].direct[k := b])];
      } else {
        var ind := inodes[i].indirect;
        IndirectIsOwn(disk, inodes, own, i);
        PutIndirect(disk, inodes, own, Place(i, k), b);
        StackKept(disk, nodes, ind, PutWord(disk[ind], k - DIRECT, b));
        disk := disk[ind := PutWord(disk[ind], k - DIRECT, b)];
      }
    }

    /** Give a file an indirect block. */
    method AttachIndirect(i: nat) returns (ok: bool)
      requires Valid() && i < |inodes| && inodes[i].indirect == 0
      modifies this
      ensures Valid() && |disk| == |old(disk)| && Blocks() == old(Blocks())
      ensures SameBytes(old(disk), old(inodes), disk, inodes) && SameMeta(old(inodes), inodes)
      ensures if ok then inodes[i].indirect != 0 else FreeStack() == []
      ensures |old(FreeStack())| == |FreeStack()| + if ok then 1 else 0
      ensures forall k | 0 <= k < FILE_BLOCKS :: Slot(disk, inodes[i], k) == Slot(old(disk), old(inodes)[i], k)
    {
      var r := AllocZeroed();
      if r.None? {
        return false;
      }
      var b, at := r.value, Place(i, FILE_BLOCKS);
      PutPointer(disk, inodes, i, b);
      ghost var inodes' := inodes[i := inodes[i].(indirect := b)];
      OwnAlso(disk, inodes, own, disk, inodes', at, b);
      FillHole(disk, inodes, own, disk, inodes', at, b);
      SameBytesTwice(old(disk), inodes, disk, inodes, disk, inodes');
      forall k | 0 <= k < FILE_BLOCKS
        ensures Slot(disk, inodes'[i], k) == Slot(old(disk), inodes[i], k)
      {
        assert Ref(disk, inodes'[i], k) == Ref(disk, inodes[i], k) == Ref(old(disk), inodes[i], k);
      }
      inodes := inodes[i := inodes[i].(indirect := b)];
      Moved(own, at, b, FreeStack());
      own := own[b := at];
      ok := true;
    }

    /** Give a file a block for a hole. */
    method AttachBlock(i: nat, k: nat) returns (r: Option<u32>)
      requires Valid() && i < |inodes| && k < FILE_BLOCKS && (k >= DIRECT ==> inodes[i].indirect != 0)
      requires Slot(disk, inodes[i], k) == 0
      modifies this
      ensures Valid() && |disk| == |old(disk)| && Blocks() == old(Blocks())
      ensures SameBytes(old(disk), old(inodes), disk, inodes) && SameMeta(old(inodes), inodes)
      ensures r.None? ==> FreeStack() == old(FreeStack()) == []
      ensures r.Some? ==>
        OnDisk(disk, r.value) && Slot(disk, inodes[i], k) == r.value
        && |old(FreeStack())| == |FreeStack()| + 1
      ensures inodes[i].indirect == old(inodes)[i].indirect
      ensures r.Some? ==> forall m | 0 <= m < FILE_BLOCKS && m != k ::
        Slot(disk, inodes[i], m) == Slot(old(disk), old(inodes)[i], m)
    {
      r := AllocZeroed();
      if r.None? {
        return;
      }
      var b, at := r.value, Place(i, k);
      ghost var disk1 := disk;
      assert Ref(old(disk), inodes[i], k) == 0;
      if k >= DIRECT {
        IndirectIsOwn(disk, inodes, own, i);
      }
      SetSlot(i, k, b);
      OwnAlso(disk1, old(inodes), own, disk, inodes, at, b);
      FillHole(disk1, old(inodes), own, disk, inodes, at, b);
      SameBytesTwice(old(disk), old(inodes), disk1, old(inodes), disk, inodes);
      Moved(own, at, b, FreeStack());
      own := own[b := at];
      assert Ref(disk, inodes[i], k) == b;
      forall m | 0 <= m < FILE_BLOCKS && m != k
        ensures Slot(disk, inodes[i], m) == Slot(old(disk), old(inodes)[i], m)
      {
        assert Ref(disk, inodes[i], m) == Ref(disk1, old(inodes)[i], m) == Ref(old(disk), old(inodes)[i], m);
      }
    }

    // -------------------------------------------------------------------
    // Reading
    // -------------------------------------------------------------------

    /** Bytes of one part of a file. */
    method ReadPart(i: nat, k: nat, o: nat, amount: nat) returns (r: seq<byte>)
      requires Valid() && i < |inodes| && k < FILE_BLOCKS && o + amount <= BLOCK_SIZE
      ensures |r| == amount && forall x | 0 <= x < amount :: r[x] == ByteAt(disk, inodes[i], k, o + x)
    {
      assert Claims(disk, inodes, own, i, k);
      var b := Slot(disk, inodes[i], k);
      r := if b == 0 then seq(amount, _ => 0) else disk[b][o..o + amount];
    }

    /** `Inode.read`: the bytes of the flat file, up to its size. */
    method Read(i: nat, start: nat, want: Option<nat>) returns (r: Option<seq<byte>>)
      requires Valid() && i < |inodes|
      ensures r.None? <==> !inodes[i].kind.Data? && !inodes[i].kind.Dir?
      ensures r.Some? ==> |r.value| == ReadLength(inodes[i].size, start, want)
      ensures r.Some? ==> start + |r.value| <= MAX_FILE_SIZE || r.value == []
      ensures r.Some? ==> forall x | 0 <= x < |r.value| :: r.value[x] == Flat(disk, inodes[i], start + x)
    {
      if !inodes[i].kind.Data? && !inodes[i].kind.Dir? {
        return None;
      }
      var size: nat, offset := ReadLength(inodes[i].size, start, want), start;
      var res := [];
      while size > 0
        invariant offset == start + |res| && |res| + size == ReadLength(inodes[i].size, start, want)
        invariant |res| + size > 0 ==> offset + size <= MAX_FILE_SIZE
        invariant forall x | 0 <= x < |res| :: res[x] == Flat(disk, inodes[i], start + x)
      {
        var loc, off := offset / BLOCK_SIZE, offset % BLOCK_SIZE;
        var amount := if BLOCK_SIZE - off < size then BLOCK_SIZE - off else size;
        var part := ReadPart(i, loc, off, amount);
        forall x | 0 <= x < amount
          ensures part[x] == Flat(disk, inodes[i], offset + x)
        {
          SameChunk(offset + x, offset, amount);
        }
        res := res + part;
        offset, size := offset + amount, size - amount;
      }
      r := Some(res);
    }

    // -------------------------------------------------------------------
    // Writing
    // -------------------------------------------------------------------

    /** Find the block of a part of a file, filling a hole if need be. */
    method MapBlock(i: nat, k: nat) returns (r: Option<u32>)
      requires Valid() && i < |inodes| && k < FILE_BLOCKS
      modifies this
      ensures Valid() && |disk| == |old(disk)| && Blocks() == old(Blocks())
      ensures SameBytes(old(disk), old(inodes), disk, inodes) && SameMeta(old(inodes), inodes)
      ensures r.None? ==> FreeStack() == [] && |old(FreeStack())| < Cost(old(disk), old(inodes)[i], k)
      ensures r.Some? ==> OnDisk(disk, r.value) && Slot(disk, inodes[i], k) == r.value
      ensures r.Some? ==> |old(FreeStack())| == |FreeStack()| + Cost(old(disk), old(inodes)[i], k)
      ensures r.Some? ==> Provided(old(disk), old(inodes)[i], disk, inodes[i], k)
    {
      if k >= DIRECT && inodes[i].indirect == 0 {
        ghost var disk0, inodes0 := disk, inodes;
        var ok := AttachIndirect(i);
        if !ok {
          return None;
        }
        ghost var disk1, inodes1 := disk, inodes;
        r := AttachBlock(i, k);
        SameBytesTwice(disk0, inodes0, disk1, inodes1, disk, inodes);
        return;
      }
      var b := Slot(disk, inodes[i], k);
      if b == 0 {
        r := AttachBlock(i, k);
      } else {
        assert Claims(disk, inodes, own, i, k);
        r := Some(b);
      }
    }

    /** Write into the block of one part of a file. */
    method WriteChunk(b: u32, o: nat, chunk: seq<byte>, ghost at: Place)
      requires Valid() && at.ino < |inodes| && at.slot < FILE_BLOCKS && o + |chunk| <= BLOCK_SIZE
      requires OnDisk(disk, b) && b == Slot(disk, inodes[at.ino], at.slot)
      modifies this`disk
      ensures Valid() && |disk| == |old(disk)| && FreeStack() == old(FreeStack())
      ensures SameRefs(old(disk), disk, inodes)
      ensures Patched(old(disk), inodes, disk, inodes, at, o, chunk)
    {
      assert Claims(disk, inodes, own, at.ino, at.slot);
      PatchData(disk, inodes, own, at, b, o, chunk);
      StackKept(disk, nodes, b, Patch(disk[b], o, chunk));
      disk := disk[b := Patch(disk[b], o, chunk)];
    }

    /** One turn of the loop of `Inode.write`: find or make the block, and write into it. */
    method WritePart(i: nat, k: nat, o: nat, chunk: seq<byte>) returns (ok: bool)
      requires Valid() && i < |inodes| && k < FILE_BLOCKS && o + |chunk| <= BLOCK_SIZE
      modifies this
      ensures Valid() && |disk| == |old(disk)| && Blocks() == old(Blocks()) && SameMeta(old(inodes), inodes)
      ensures if ok then Patched(old(disk), old(inodes), disk, inodes, Place(i, k), o, chunk)
              else FreeStack() == [] && SameBytes(old(disk), old(inodes), disk, inodes)
      ensures ok <==> |old(FreeStack())| >= Cost(old(disk), old(inodes)[i], k)
      ensures ok ==> |old(FreeStack())| == |FreeStack()| + Cost(old(disk), old(inodes)[i], k)
      ensures ok ==> Provided(old(disk), old(inodes)[i], disk, inodes[i], k)
    {
      var r := MapBlock(i, k);
      if r.None? {
        return false;
      }
      ghost var disk1 := disk;
      WriteChunk(r.value, o, chunk, Place(i, k));
      ProvidedStill(old(disk), old(inodes)[i], disk1, inodes[i], disk, k);
      SameThenPatched(old(disk), old(inodes), disk1, inodes, disk, Place(i, k), o, chunk);
      ok := true;
    }

    /** One turn of the loop of `Inode.write`, in terms of the whole write. */
    method WriteTurn(i: nat, start: nat, data: seq<byte>, offset: nat, remaining: nat,
                     ghost disk0: seq<Block>, ghost inodes0: seq<Inode>)
      returns (ok: bool, amount: nat)
      requires Valid() && i < |inodes| && start + |data| <= MAX_FILE_SIZE
      requires 0 < remaining <= |data| && offset + remaining == start + |data|
      requires WrittenTo(disk0, inodes0, disk, inodes, i, start, data, |data| - remaining)
      modifies this
      ensures Valid() && |disk| == |old(disk)| && Blocks() == old(Blocks()) && SameMeta(old(inodes), inodes)
      ensures 0 < amount <= remaining
      ensures WrittenTo(disk0, inodes0, disk, inodes, i, start, data, |data| - remaining + if ok then amount else 0)
      ensures !ok ==> FreeStack() == [] && !Enough(old(disk), old(inodes)[i], offset, remaining, |old(FreeStack())|)
      ensures ok ==> (Enough(old(disk), old(inodes)[i], offset, remaining, |old(FreeStack())|)
                      <==> Enough(disk, inodes[i], offset + amount, remaining - amount, |FreeStack()|))
    {
      var loc, off := offset / BLOCK_SIZE, offset % BLOCK_SIZE;
      amount := if BLOCK_SIZE - off < remaining then BLOCK_SIZE - off else remaining;
      var at := |data| - remaining;
      var chunk := data[at..at + amount];
      PartInRange(offset, remaining);
      ok := WritePart(i, loc, off, chunk);
      if ok {
        EnoughStep(old(disk), old(inodes)[i], disk, inodes[i], offset, remaining, amount, |old(FreeStack())|,
          |FreeStack()|);
        WrittenMore(disk0, inodes0, old(disk), old(inodes), disk, inodes, i, start, data, at, offset, chunk);
      } else {
        TooFew(old(disk), old(inodes)[i], offset, remaining, |old(FreeStack())|);
        WrittenSame(disk0, inodes0, old(disk), old(inodes), disk, inodes, i, start, data, at);
      }
    }

    /** The loop of `Inode.write`: it stops early just when there are fewer free blocks than it needs. */
    method WriteLoop(i: nat, start: nat, data: seq<byte>) returns (ok: bool, ghost n: nat)
      requires Valid() && i < |inodes| && start + |data| <= MAX_FILE_SIZE
      modifies this
      ensures Valid() && |disk| == |old(disk)| && Blocks() == old(Blocks()) && SameMeta(old(inodes), inodes)
      ensures WrittenTo(old(disk), old(inodes), disk, inodes, i, start, data, n)
      ensures if ok then n == |data| else n < |data| && FreeStack() == []
      ensures ok <==> Enough(old(disk), old(inodes)[i], start, |data|, |old(FreeStack())|)
    {
      var offset, remaining: nat := start, |data|;
      ghost var enough := Enough(disk, inodes[i], start, |data|, |FreeStack()|);
      while remaining > 0
        invariant remaining <= |data| && offset + remaining == start + |data|
        invariant Valid() && |disk| == |old(disk)| && Blocks() == old(Blocks()) && SameMeta(old(inodes), inodes)
        invariant WrittenTo(old(disk), old(inodes), disk, inodes, i, start, data, |data| - remaining)
        invariant enough <==> Enough(disk, inodes[i], offset, remaining, |FreeStack()|)
      {
        var amount;
        ok, amount := WriteTurn(i, start, data, offset, remaining, old(disk), old(inodes));
        if !ok {
          n := |data| - remaining;
          return;
        }
        offset, remaining := offset + amount, remaining - amount;
      }
      ok, n := true, |data|;
    }

    /** `Inode.write`: all of the data is written, or as much as there was room for. */
    method Write(i: nat, start: nat, data: seq<byte>) returns (r: Written, ghost n: nat)
      requires Valid() && i < |inodes|
      modifies this
      ensures Valid() && |disk| == |old(disk)| && Blocks() == old(Blocks())
      ensures WrittenTo(old(disk), old(inodes), disk, inodes, i, start, data, n)
      ensures r.BadType? <==> !old(inodes)[i].kind.Data? && !old(inodes)[i].kind.Dir?
      ensures r.TooBig? <==> !r.BadType? && start + |data| > MAX_FILE_SIZE
      ensures !r.BadType? && !r.TooBig? ==> (r.Done? <==> Enough(old(disk), old(inodes)[i], start, |data|,
        |old(FreeStack())|))
      ensures r.BadType? || r.TooBig? ==> disk == old(disk) && inodes == old(inodes)
      ensures r.NoSpace? ==> n < |data| && FreeStack() == [] && SameMeta(old(inodes), inodes)
      ensures r.Done? ==>
        n == |data| && SameMeta(old(inodes)[i := old(inodes)[i].(size := Longer(old(inodes)[i].size,
        start + |data|))], inodes)
    {
      n := 0;
      if !inodes[i].kind.Data? && !inodes[i].kind.Dir? {
        return BadType, 0;
      }
      if start + |data| > MAX_FILE_SIZE {
        return TooBig, 0;
      }
      var ok;
      ok, n := WriteLoop(i, start, data);
      if !ok {
        return NoSpace, n;
      }
      var offset := start + |data|;
      if offset > inodes[i].size {
        ghost var inodes0 := inodes;
        SizeIsNoContent(disk, inodes, own, i, offset);
        inodes := inodes[i := inodes[i].(size := offset)];
        WrittenSame(old(disk), old(inodes), disk, inodes0, disk, inodes, i, start, data, n);
      }
      r := Done;
    }

    /** What has been written is read back. */
    method ReadBack(i: nat, start: nat, data: seq<byte>) returns (r: Written, back: Option<seq<byte>>)
      requires Valid() && i < |inodes|
      modifies this
      ensures r.Done? ==> back == Some(data)
    {
      ghost var n;
      r, n := Write(i, start, data);
      back := Read(i, start, Some(|data|));
      if r.Done? {
        assert back.value == data;
      }
    }

    // -------------------------------------------------------------------
    // Truncating
    // -------------------------------------------------------------------

    /** Give back the block of one part of a file. */
    method ReleaseSlot(i: nat, k: nat)
      requires Valid() && i < |inodes| && k < FILE_BLOCKS && Slot(disk, inodes[i], k) != 0
      modifies this
      ensures Valid() && own == Left(iset{Place(i, k)}, old(own))
      ensures FreeStack() == old(FreeStack()) + [Slot(old(disk), old(inodes)[i], k)]
      ensures Cleared(iset{Place(i, k)}, old(disk), old(inodes), disk, inodes)
      ensures inodes[i].indirect == old(inodes)[i].indirect
    {
      var b := Slot(disk, inodes[i], k);
      assert Claims(disk, inodes, own, i, k);
      if k >= DIRECT {
        IndirectIsOwn(disk, inodes, own, i);
      }
      FreeBlock(b);
      DataBlockChanges(old(disk), inodes, own, disk, b);
      ghost var disk1 := disk;
      SetSlot(i, k, 0);
      SlotReleased(old(disk), old(inodes), own, disk1, disk, inodes, Place(i, k), b);
      ClearedOwned(iset{Place(i, k)}, old(disk), old(inodes), own, disk, inodes);
      own := Left(iset{Place(i, k)}, own);
    }

    /** Give back the indirect block of a file. */
    method ReleaseIndirect(i: nat)
      requires Valid() && i < |inodes| && inodes[i].indirect != 0
      modifies this
      ensures Valid() && own == Left(Behind(i), old(own))
      ensures FreeStack() == old(FreeStack()) + [old(inodes)[i].indirect]
      ensures Cleared(Behind(i), old(disk), old(inodes), disk, inodes)
    {
      IndirectIsOwn(disk, inodes, own, i);
      FreeBlock(inodes[i].indirect);
      inodes := inodes[i := inodes[i].(indirect := 0)];
      DropPointer(old(disk), old(inodes), own, i, disk, inodes);
      ClearedOwned(Behind(i), old(disk), old(inodes), own, disk, inodes);
      own := Left(Behind(i), own);
    }

    /** One turn of the loop of `Inode.truncate`. */
    method CutPart(i: nat, k: nat)
      requires Valid() && i < |inodes| && (k >= FILE_BLOCKS ==> inodes[i].indirect == 0)
      modifies this
      ensures Valid() && own == Left(TurnPlaces(i, old(disk), old(inodes)[i], k), old(own))
      ensures FreeStack() == old(FreeStack()) + FreedAt(old(disk), old(inodes)[i], k)
      ensures Cleared(TurnPlaces(i, old(disk), old(inodes)[i], k), old(disk), old(inodes), disk, inodes)
    {
      ghost var gone := TurnPlaces(i, disk, inodes[i], k);
      var b := if k < FILE_BLOCKS then Slot(disk, inodes[i], k) else 0;
      if b > 0 {
        ReleaseSlot(i, k);
        if k == DIRECT {
          ghost var disk1, inodes1 := disk, inodes;
          ReleaseIndirect(i);
          ClearedTwice(iset{Place(i, k)}, Behind(i), old(disk), old(inodes), disk1, inodes1, disk, inodes);
          LeftTwice(iset{Place(i, k)}, Behind(i), old(own));
          assert iset{Place(i, k)} + Behind(i) == gone;
        }
      }
    }

    /** Parts `lo` to `hi` of file `i` have been cut since the given state. */
    ghost predicate HasCut(i: nat, lo: int, hi: int, disk0: seq<Block>, inodes0: seq<Inode>, own0: map<u32, Place>,
      free0: seq<u32>)
      requires FreeOk() && i < |inodes0| && 0 <= lo
      reads this
    {
      && Cleared(CutPlaces(i, disk0, inodes0[i], lo, hi), disk0, inodes0, disk, inodes)
      && own == Left(CutPlaces(i, disk0, inodes0[i], lo, hi), own0)
      && FreeStack() == free0 + Freed(disk0, inodes0[i], lo, hi)
    }

    method CutOneMore(i: nat, k: nat, ghost lo: int, ghost hi: int,
                      ghost disk0: seq<Block>, ghost inodes0: seq<Inode>, ghost own0: map<u32, Place>,
                        ghost free0: seq<u32>)
      requires Valid() && i < |inodes0| == |inodes| && k <= hi && (k >= FILE_BLOCKS ==> inodes[i].indirect == 0)
      requires lo == k + 1 && Owned(disk0, inodes0, own0) && HasCut(i, lo, hi, disk0, inodes0, own0, free0)
      modifies this
      ensures Valid() && HasCut(i, k, hi, disk0, inodes0, own0, free0)
      ensures old(inodes)[i].indirect == 0 ==> inodes[i].indirect == 0
    {
      ghost var disk1, inodes1 := disk, inodes;
      CutPart(i, k);
      assert Ref(disk, inodes[i], FILE_BLOCKS) == inodes[i].indirect;
      CutStep(i, disk0, inodes0, own0, k, hi, disk1, inodes1, disk, inodes);
    }

    /** The loop of `Inode.truncate`: it fails only in its first turn. */
    method CutDown(i: nat, target: int) returns (ok: bool, ghost lo: int)
      requires Valid() && i < |inodes| && -1 <= target <= inodes[i].size / BLOCK_SIZE
      modifies this
      ensures Valid()
      ensures var hi := old(inodes)[i].size / BLOCK_SIZE;
        ok <==> target == hi || hi < FILE_BLOCKS || old(inodes)[i].indirect == 0
      ensures !ok ==> disk == old(disk) && inodes == old(inodes) && own == old(own) && FreeStack() == old(FreeStack())
      ensures lo >= 0 && (ok ==> lo == target + 1)
      ensures ok ==> HasCut(i, lo, old(inodes)[i].size / BLOCK_SIZE, old(disk), old(inodes), old(own), old(FreeStack()))
    {
      var curr := inodes[i].size / BLOCK_SIZE;
      ghost var hi, n, disk0, inodes0, own0, free0 := curr, inodes[i], disk, inodes, own, FreeStack();
      CutNothing(i, disk, inodes, own, hi);
      lo := hi + 1;
      while curr > target
        invariant target <= curr <= hi && lo == curr + 1 && Valid() && HasCut(i, lo, hi, disk0, inodes0, own0, free0)
        invariant curr == hi ==> disk == disk0 && inodes == inodes0 && own == own0 && FreeStack() == free0
        invariant curr < hi ==> hi < FILE_BLOCKS || n.indirect == 0
        invariant n.indirect == 0 ==> inodes[i].indirect == 0
      {
        if curr >= FILE_BLOCKS && inodes[i].indirect != 0 {
          return false, lo;
        }
        CutOneMore(i, curr, lo, hi, disk0, inodes0, own0, free0);
        lo, curr := curr, curr - 1;
      }
      ok := true;
    }

    /**
     * `Inode.truncate` to at most the parts the file has (the loop for longer sizes in the source
     * does not end). It fails only on a file of the largest size with an indirect block, and then
     * changes nothing.
     */
    method Truncate(i: nat, size: u32) returns (ok: bool)
      requires Valid() && i < |inodes| && (size - 1) / BLOCK_SIZE <= inodes[i].size / BLOCK_SIZE
      modifies this
      ensures Valid()
      ensures var hi := old(inodes)[i].size / BLOCK_SIZE;
        ok <==> (size - 1) / BLOCK_SIZE == hi || hi < FILE_BLOCKS || old(inodes)[i].indirect == 0
      ensures !ok ==> disk == old(disk) && inodes == old(inodes) && own == old(own) && FreeStack() == old(FreeStack())
      ensures ok ==> var lo, hi, n := (size - 1) / BLOCK_SIZE + 1, old(inodes)[i].size / BLOCK_SIZE, old(inodes)[i];
        && |inodes| == |old(inodes)| && inodes[i].size == size
        && Cleared(CutPlaces(i, old(disk), n, lo, hi), old(disk), old(inodes), disk,
          inodes[i := inodes[i].(size := n.size)])
        && own == Left(CutPlaces(i, old(disk), n, lo, hi), old(own))
        && FreeStack() == old(FreeStack()) + Freed(old(disk), n, lo, hi)
    {
      var target := (size - 1) / BLOCK_SIZE;
      ghost var lo;
      ok, lo := CutDown(i, target);
      if ok {
        ghost var inodes1 := inodes;
        SizeIsNoContent(disk, inodes, own, i, size);
        inodes := inodes[i := inodes[i].(size := size)];
        assert inodes[i := inodes[i].(size := inodes1[i].size)] == inodes1;
      }
    }

    /**
     * `Inode.free`, but for the list of free inodes. The blocks cut off are pushed on the free
     * list, and nothing else changes: no other inode, and no byte of another file. All blocks of
     * a file that is not empty go on the free list if and only if none lies behind the size and
     * the indirect block, if there is one, goes with a block in part 28.
     */
    method FreeInode(i: nat) returns (ok: bool)
      requires Valid() && i < |inodes|
      modifies this
      ensures Valid() && (ok <==> CanEmpty(old(inodes)[i]))
      ensures !ok ==> disk == old(disk) && inodes == old(inodes) && FreeStack() == old(FreeStack())
      ensures ok ==> OthersKept(old(disk), old(inodes), disk, inodes, i) && inodes[i].kind.Free? && inodes[i].size == 0
      ensures ok ==> FreeStack() == old(FreeStack()) + CutFrom(old(disk), old(inodes)[i])
      ensures ok && old(inodes)[i].size != 0 ==> (AllIn(old(disk), old(inodes)[i], FreeStack()) <==>
        GivenBack(old(disk), old(inodes)[i], old(inodes)[i].size / BLOCK_SIZE))
    {
      if inodes[i].size == 0 {
        SetFree(i);
        return true;
      }
      ok := TruncateToNothing(i);
      if ok {
        SetFree(i);
      }
    }

    method TruncateToNothing(i: nat) returns (ok: bool)
      requires Valid() && i < |inodes| && inodes[i].size != 0
      modifies this
      ensures Valid() && (ok <==> CanEmpty(old(inodes)[i]))
      ensures !ok ==> disk == old(disk) && inodes == old(inodes) && FreeStack() == old(FreeStack())
      ensures ok ==> OthersKept(old(disk), old(inodes), disk, inodes, i) && inodes[i].size == 0
      ensures ok ==> FreeStack() == old(FreeStack()) + CutFrom(old(disk), old(inodes)[i])
      ensures ok ==> (AllIn(old(disk), old(inodes)[i], FreeStack()) <==>
        GivenBack(old(disk), old(inodes)[i], old(inodes)[i].size / BLOCK_SIZE))
    {
      ghost var disk0, inodes0 := disk, inodes;
      WhenGivenBack(disk, inodes, own, i, FreeStack(), inodes[i].size / BLOCK_SIZE);
      ok := Truncate(i, 0);
      if ok {
        CutKeepsOthers(disk0, inodes0, disk, inodes, i);
      }
    }

    method SetFree(i: nat)
      requires Valid() && i < |inodes|
      modifies this`inodes
      ensures Valid() && FreeStack() == old(FreeStack())
      ensures inodes == old(inodes)[i := old(inodes)[i].(kind := Kind.Free)]
    {
      SameOwners(disk, inodes, own, inodes[i := inodes[i].(kind := Kind.Free)]);
      inodes := inodes[i := inodes[i].(kind := Kind.Free)];
    }
  }

  /** How much a read returns: no more than is asked for, and nothing behind the end of the file. */
  function ReadLength(size: u32, start: nat, want: Option<nat>): (n: nat)
    ensures n > 0 ==> start + n <= size && start + n <= MAX_FILE_SIZE
    ensures want.Some? ==> n <= want.value
    ensures start + n < size && start + n < MAX_FILE_SIZE ==> want.Some? && n == want.value
  {
    var limit := (if size < MAX_FILE_SIZE then size else MAX_FILE_SIZE) - start;
    var asked := if want.Some? then want.value else size;
    var n := if asked < limit then asked else limit;
    if n < 0 then 0 else n
  }

  function Longer(size: u32, end: nat): u32
    requires end <= MAX_FILE_SIZE
  {
    if end > size then end else size
  }

  /** The part of the file that holds the last of `n` bytes. */
  function LastPart(start: nat, n: nat): nat
    requires n > 0
  {
    (start + n - 1) / BLOCK_SIZE
  }

  /** There are free blocks for all holes among the parts that `n` bytes from `start` on fall into. */
  ghost predicate Enough(disk: seq<Block>, n: Inode, start: nat, len: nat, free: nat)
    requires start + len <= MAX_FILE_SIZE
  {
    len > 0 ==> (PartInRange(start, len); Needed(disk, n, start / BLOCK_SIZE, LastPart(start, len) + 1) <= free)
  }

  lemma PartInRange(start: nat, len: nat)
    requires start + len <= MAX_FILE_SIZE && len > 0
    ensures start / BLOCK_SIZE <= LastPart(start, len) < FILE_BLOCKS
  {
  }

  lemma NextPart(offset: nat, remaining: nat, amount: nat)
    requires remaining > 0
    requires amount == if BLOCK_SIZE - offset % BLOCK_SIZE < remaining then BLOCK_SIZE - offset % BLOCK_SIZE
      else remaining
    ensures remaining == amount ==> LastPart(offset, remaining) == offset / BLOCK_SIZE
    ensures remaining > amount ==>
      && (offset + amount) / BLOCK_SIZE == offset / BLOCK_SIZE + 1
      && LastPart(offset + amount, remaining - amount) == LastPart(offset, remaining)
  {
  }

  lemma EnoughStep(disk: seq<Block>, n: Inode, disk': seq<Block>, n': Inode, offset: nat, remaining: nat, amount: nat,
                   free: nat, free': nat)
    requires offset + remaining <= MAX_FILE_SIZE && remaining > 0 && offset / BLOCK_SIZE < FILE_BLOCKS
    requires amount == if BLOCK_SIZE - offset % BLOCK_SIZE < remaining then BLOCK_SIZE - offset % BLOCK_SIZE
      else remaining
    requires Provided(disk, n, disk', n', offset / BLOCK_SIZE) && free == free' + Cost(disk, n, offset / BLOCK_SIZE)
    ensures Enough(disk, n, offset, remaining, free) <==> Enough(disk', n', offset + amount, remaining - amount, free')
  {
    PartInRange(offset, remaining);
    NextPart(offset, remaining, amount);
    NeededStep(disk, n, disk', n', offset / BLOCK_SIZE, LastPart(offset, remaining) + 1);
  }

  lemma TooFew(disk: seq<Block>, n: Inode, offset: nat, remaining: nat, free: nat)
    requires offset + remaining <= MAX_FILE_SIZE && remaining > 0 && offset / BLOCK_SIZE < FILE_BLOCKS
    requires free < Cost(disk, n, offset / BLOCK_SIZE)
    ensures !Enough(disk, n, offset, remaining, free)
  {
    PartInRange(offset, remaining);
  }

  /** A part is there, and the other parts are where they were. */
  ghost predicate Provided(disk: seq<Block>, n: Inode, disk': seq<Block>, n': Inode, k: nat)
    requires k < FILE_BLOCKS
  {
    && (if k < DIRECT then n'.indirect == n.indirect else n'.indirect != 0)
    && forall m | 0 <= m < FILE_BLOCKS && m != k :: Slot(disk', n', m) == Slot(disk, n, m)
  }

  lemma ProvidedStill(disk: seq<Block>, n: Inode, disk1: seq<Block>, n': Inode, disk2: seq<Block>, k: nat)
    requires k < FILE_BLOCKS && Provided(disk, n, disk1, n', k)
    requires forall p | 0 <= p <= FILE_BLOCKS :: Ref(disk2, n', p) == Ref(disk1, n', p)
    ensures Provided(disk, n, disk2, n', k)
  {
    forall m | 0 <= m < FILE_BLOCKS && m != k
      ensures Slot(disk2, n', m) == Slot(disk, n, m)
    {
      assert Ref(disk2, n', m) == Ref(disk1, n', m);
    }
  }

  lemma Popped(s: seq<u32>, t: seq<u32>, b: u32)
    requires Distinct(s) && s == t + [b]
    ensures b in s && b !in t && forall c | c in t :: c in s
  {
    assert s[|t|] == b;
    assert forall i | 0 <= i < |t| :: t[i] == s[i] != s[|t|];
  }

  /** Giving a free block to a file keeps it accounted for. */
  lemma Moved(own: map<u32, Place>, at: Place, b: u32, t: seq<u32>)
    ensures own[b := at].Keys + Elems(t) == own.Keys + Elems(t + [b])
  {
  }

  /** No other inode has changed, and no byte of any other file. */
  ghost predicate OthersKept(disk: seq<Block>, inodes: seq<Inode>, disk': seq<Block>, inodes': seq<Inode>, i: nat) {
    && |inodes'| == |inodes| && i < |inodes|
    && (forall j | 0 <= j < |inodes| && j != i :: inodes'[j] == inodes[j])
    && forall j, x | 0 <= j < |inodes| && j != i && 0 <= x < MAX_FILE_SIZE ::
         Flat(disk', inodes'[j], x) == Flat(disk, inodes[j], x)
  }

  /** The blocks that truncation to nothing gives back, in order. */
  ghost function CutFrom(disk: seq<Block>, n: Inode): seq<u32> {
    if n.size == 0 then [] else Freed(disk, n, 0, n.size / BLOCK_SIZE)
  }

  lemma CutKeepsOthers(disk: seq<Block>, inodes: seq<Inode>, disk': seq<Block>, inodes': seq<Inode>, i: nat)
    requires i < |inodes| == |inodes'|
    requires var hi, n := inodes[i].size / BLOCK_SIZE, inodes[i];
      Cleared(CutPlaces(i, disk, n, 0, hi), disk, inodes, disk', inodes'[i := inodes'[i].(size := n.size)])
    ensures OthersKept(disk, inodes, disk', inodes', i)
  {
    var gone := CutPlaces(i, disk, inodes[i], 0, inodes[i].size / BLOCK_SIZE);
    var inodes1 := inodes'[i := inodes'[i].(size := inodes[i].size)];
    forall j | 0 <= j < |inodes| && j != i
      ensures inodes'[j] == inodes[j]
      ensures forall x | 0 <= x < MAX_FILE_SIZE :: Flat(disk', inodes'[j], x) == Flat(disk, inodes[j], x)
    {
      forall p | 0 <= p <= FILE_BLOCKS
        ensures Ref(disk', inodes'[j], p) == Ref(disk, inodes[j], p)
      {
        assert inodes1[j] == inodes'[j] && Place(j, p) !in gone;
      }
      SameInode(disk, inodes[j], disk', inodes'[j]);
      forall x | 0 <= x < MAX_FILE_SIZE
        ensures Flat(disk', inodes'[j], x) == Flat(disk, inodes[j], x)
      {
        assert Place(j, x / BLOCK_SIZE) !in gone && inodes1[j] == inodes'[j];
      }
    }
  }

  /** An inode is made up of its type, its size and the block numbers it keeps. */
  lemma SameInode(disk: seq<Block>, n: Inode, disk': seq<Block>, n': Inode)
    requires n'.kind == n.kind && n'.size == n.size
    requires forall p | 0 <= p <= FILE_BLOCKS :: Ref(disk', n', p) == Ref(disk, n, p)
    ensures n' == n
  {
    forall p | 0 <= p < DIRECT
      ensures n'.direct[p] == n.direct[p]
    {
      assert Ref(disk', n', p) == Ref(disk, n, p);
    }
    assert n'.direct == n.direct;
    assert Ref(disk', n', FILE_BLOCKS) == Ref(disk, n, FILE_BLOCKS);
  }

  /** The file is not of the largest size with an indirect block, at which truncation fails. */
  predicate CanEmpty(n: Inode) { n.size / BLOCK_SIZE < FILE_BLOCKS || n.indirect == 0 }

  /** Every block that the inode refers to is in the list. */
  ghost predicate AllIn(disk: seq<Block>, n: Inode, list: seq<u32>) {
    forall p | 0 <= p <= FILE_BLOCKS && Ref(disk, n, p) != 0 :: Ref(disk, n, p) in list
  }

  /** No block lies behind part `hi`, and the indirect block goes with one in part 28. */
  ghost predicate GivenBack(disk: seq<Block>, n: Inode, hi: nat) {
    NothingBehind(disk, n, hi) && (n.indirect != 0 ==> hi >= DIRECT && Slot(disk, n, DIRECT) != 0)
  }

  lemma WhenGivenBack(disk: seq<Block>, inodes: seq<Inode>, own: map<u32, Place>, i: nat, free: seq<u32>, hi: nat)
    requires Owned(disk, inodes, own) && i < |inodes| && forall b | b in free :: b !in own
    ensures AllIn(disk, inodes[i], free + Freed(disk, inodes[i], 0, hi)) <==> GivenBack(disk, inodes[i], hi)
  {
    TruncateGivesAllBack(disk, inodes, own, i, hi);
    forall p | 0 <= p <= FILE_BLOCKS && Ref(disk, inodes[i], p) != 0
      ensures Ref(disk, inodes[i], p) !in free
    {
      assert Claims(disk, inodes, own, i, p);
    }
  }

  lemma SameOwners(disk: seq<Block>, inodes: seq<Inode>, own: map<u32, Place>, inodes': seq<Inode>)
    requires Owned(disk, inodes, own) && |inodes'| == |inodes|
    requires forall i | 0 <= i < |inodes| ::
      inodes'[i].direct == inodes[i].direct && inodes'[i].indirect == inodes[i].indirect
    ensures Owned(disk, inodes', own)
  {
    forall i, p | 0 <= i < |inodes| && 0 <= p <= FILE_BLOCKS
      ensures Claims(disk, inodes', own, i, p)
    {
      assert Claims(disk, inodes, own, i, p);
    }
    forall b | b in own
      ensures Keeps(disk, inodes', own[b], b)
    {
      assert Keeps(disk, inodes, own[b], b);
    }
  }
}
