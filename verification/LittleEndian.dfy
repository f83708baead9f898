/** Little-endian numbers in bytes. */
module LittleEndian {
  import opened Bytes

  function LoadU16(data: seq<Byte>, at: nat): (r: nat)
    requires at + 2 <= |data|
    ensures r < 0x1_0000
  {
    data[at] as nat + 0x100 * (data[at + 1] as nat)
  }

  function LoadU32(data: seq<Byte>, at: nat): (r: nat)
    requires at + 4 <= |data|
    ensures r < 0x1_0000_0000
  {
    data[at] as nat + 0x100 * (data[at + 1] as nat) + 0x1_0000 * (data[at + 2] as nat)
      + 0x100_0000 * (data[at + 3] as nat)
  }

  function LoadU64(data: seq<Byte>, at: nat): nat
    requires at + 8 <= |data|
  {
    LoadU32(data, at) + 0x1_0000_0000 * LoadU32(data, at + 4)
  }

  function U32(value: nat): (r: seq<Byte>)
    requires value < 0x1_0000_0000
    ensures |r| == 4
  {
    [value % 256, value / 0x100 % 256, value / 0x1_0000 % 256, value / 0x100_0000]
  }

  function U64(value: nat): (r: seq<Byte>)
    requires value < 0x1_0000_0000_0000_0000
    ensures |r| == 8
  {
    U32(value % 0x1_0000_0000) + U32(value / 0x1_0000_0000)
  }

  /** Loading what was stored gives it back, wherever it was stored. */
  lemma LoadStoreU32(value: nat, data: seq<Byte>, at: nat)
    requires value < 0x1_0000_0000 && at + 4 <= |data| && data[at..at + 4] == U32(value)
    ensures LoadU32(data, at) == value
  {
    SliceAt(data, at);
    Digits(value);
  }

  lemma SliceAt(data: seq<Byte>, at: nat)
    requires at + 4 <= |data|
    ensures
      var b := data[at..at + 4];
      b[0] == data[at] && b[1] == data[at + 1] && b[2] == data[at + 2] && b[3] == data[at + 3]
  {
  }

  lemma Digits(value: nat)
    ensures value == value % 256 + 0x100 * (value / 0x100 % 256) + 0x1_0000 * (value / 0x1_0000 % 256)
      + 0x100_0000 * (value / 0x100_0000)
  {
    assert value / 0x1_0000 == value / 0x100 / 256 && value / 0x100_0000 == value / 0x1_0000 / 256;
  }

  lemma LoadStoreU64(value: nat, data: seq<Byte>, at: nat)
    requires value < 0x1_0000_0000_0000_0000 && at + 8 <= |data| && data[at..at + 8] == U64(value)
    ensures LoadU64(data, at) == value
  {
    var low, high := value % 0x1_0000_0000, value / 0x1_0000_0000;
    assert data[at..at + 4] == data[at..at + 8][..4] == U32(low);
    assert data[at + 4..at + 8] == data[at..at + 8][4..] == U32(high);
    LoadStoreU32(low, data, at);
    LoadStoreU32(high, data, at + 4);
  }
}
