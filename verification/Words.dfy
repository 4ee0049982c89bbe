/** 32-bit little-endian words as bytes. */
module Words {
  import opened Common

  function Pack(w: u32): (r: seq<byte>)
    ensures |r| == 4
  {
    [w % 256, w / 256 % 256, w / 256 / 256 % 256, w / 256 / 256 / 256]
  }

  function Unpack(r: seq<byte>): (w: u32)
    requires |r| == 4
  {
    r[0] as int + 256 * (r[1] as int + 256 * (r[2] as int + 256 * (r[3] as int)))
  }

  lemma UnpackPack(w: u32)
    ensures Unpack(Pack(w)) == w
  {
    var w1: int := w / 256;
    var w2: int := w1 / 256;
    assert w == w % 256 + 256 * w1 && w1 == w1 % 256 + 256 * w2;
  }
}
