/** Disk blocks as bytes, with 32-bit words in them. */
module S5Words {
  import opened Common
  import opened Words

  const BLOCK_SIZE := 4096
  const WORDS := 1024

  type Block = b: seq<byte> | |b| == BLOCK_SIZE witness seq(BLOCK_SIZE, _ => 0)

  /** `read(4 * i, 4)`, as a number. */
  function Word(b: Block, i: nat): (w: u32)
    requires i < WORDS
  {
    Unpack(b[4 * i..4 * i + 4])
  }

  /** `write(at, data)` on one block. */
  function Patch(b: Block, at: nat, data: seq<byte>): (r: Block)
    requires at + |data| <= BLOCK_SIZE
  {
    b[..at] + data + b[at + |data|..]
  }

  function PutWord(b: Block, i: nat, w: u32): (r: Block)
    requires i < WORDS
  {
    Patch(b, 4 * i, Pack(w))
  }

  lemma PatchIndex(b: Block, at: nat, data: seq<byte>, x: nat)
    requires at + |data| <= BLOCK_SIZE && x < BLOCK_SIZE
    ensures Patch(b, at, data)[x] == if at <= x < at + |data| then data[x - at] else b[x]
  {
  }

  /** A word that is written is read back, and no other word changes. */
  lemma WordPut(b: Block, i: nat, w: u32, j: nat)
    requires i < WORDS && j < WORDS
    ensures Word(PutWord(b, i, w), j) == if i == j then w else Word(b, j)
  {
    var r := PutWord(b, i, w);
    UnpackPack(w);
    if i == j {
      assert r[4 * j..4 * j + 4] == Pack(w);
    } else {
      PatchElsewhere(b, 4 * i, Pack(w), 4 * j, 4 * j + 4);
    }
  }

  lemma PatchElsewhere(b: Block, at: nat, data: seq<byte>, x: nat, y: nat)
    requires at + |data| <= BLOCK_SIZE && x <= y <= BLOCK_SIZE && (y <= at || at + |data| <= x)
    ensures Patch(b, at, data)[x..y] == b[x..y]
  {
    forall o | x <= o < y
      ensures Patch(b, at, data)[o] == b[o]
    {
      PatchIndex(b, at, data, o);
    }
  }

  const ZEROS: Block := seq(BLOCK_SIZE, _ => 0)

  lemma ZeroWord(i: nat)
    requires i < WORDS
    ensures Word(ZEROS, i) == 0
  {
  }

  /** Words one after the other, as `memcpy` of an array of them lays them out. */
  function PackAll(ws: seq<u32>): (r: seq<byte>)
    ensures |r| == 4 * |ws|
  {
    if ws == [] then [] else PackAll(ws[..|ws| - 1]) + Pack(ws[|ws| - 1])
  }

  lemma {:induction false} PackAllAt(ws: seq<u32>, i: nat)
    requires i < |ws|
    ensures PackAll(ws)[4 * i..4 * i + 4] == Pack(ws[i])
  {
    var n := |ws| - 1;
    if i < n {
      PackAllAt(ws[..n], i);
      assert PackAll(ws)[4 * i..4 * i + 4] == PackAll(ws[..n])[4 * i..4 * i + 4];
    }
  }

  lemma WordsCopied(b: Block, ws: seq<u32>, i: nat)
    requires i < |ws| <= WORDS
    ensures Word(Patch(b, 0, PackAll(ws)), i) == ws[i]
  {
    PackAllAt(ws, i);
    UnpackPack(ws[i]);
    PatchSlice(b, PackAll(ws), 4 * i, 4 * i + 4);
  }

  lemma PatchSlice(b: Block, data: seq<byte>, x: nat, y: nat)
    requires x <= y <= |data| <= BLOCK_SIZE
    ensures Patch(b, 0, data)[x..y] == data[x..y]
  {
  }
}
