/**
 SHA-256 as FIPS 180-4 defines it, on messages of whole bytes.
 */
module Fips180 {
  type Octet = bv8
  type Word = bv32

  function RotR(x: Word, n: nat): Word
    requires 0 < n < 32
  {
    (x >> n) | (x << (32 - n))
  }

  /** Addition modulo 2^32 (section 3.2). */
  function Add(x: Word, y: Word): Word {
    x + y
  }

  function Add4(x: Word, y: Word, z: Word, w: Word): Word {
    Add(Add(Add(x, y), z), w)
  }

  // Section 4.1.2.
  function Ch(x: Word, y: Word, z: Word): Word { (x & y) ^ (!x & z) }
  function Maj(x: Word, y: Word, z: Word): Word { (x & y) ^ (x & z) ^ (y & z) }
  function BigSigma0(x: Word): Word { RotR(x, 2) ^ RotR(x, 13) ^ RotR(x, 22) }
  function BigSigma1(x: Word): Word { RotR(x, 6) ^ RotR(x, 11) ^ RotR(x, 25) }
  function SmallSigma0(x: Word): Word { RotR(x, 7) ^ RotR(x, 18) ^ (x >> 3) }
  function SmallSigma1(x: Word): Word { RotR(x, 17) ^ RotR(x, 19) ^ (x >> 10) }

  // Section 4.2.2.
  const CONSTANTS: seq<seq<Word>> := [
    [0x428a2f98, 0x71374491, 0xb5c0fbcf, 0xe9b5dba5, 0x3956c25b, 0x59f111f1, 0x923f82a4, 0xab1c5ed5],
    [0xd807aa98, 0x12835b01, 0x243185be, 0x550c7dc3, 0x72be5d74, 0x80deb1fe, 0x9bdc06a7, 0xc19bf174],
    [0xe49b69c1, 0xefbe4786, 0x0fc19dc6, 0x240ca1cc, 0x2de92c6f, 0x4a7484aa, 0x5cb0a9dc, 0x76f988da],
    [0x983e5152, 0xa831c66d, 0xb00327c8, 0xbf597fc7, 0xc6e00bf3, 0xd5a79147, 0x06ca6351, 0x14292967],
    [0x27b70a85, 0x2e1b2138, 0x4d2c6dfc, 0x53380d13, 0x650a7354, 0x766a0abb, 0x81c2c92e, 0x92722c85],
    [0xa2bfe8a1, 0xa81a664b, 0xc24b8b70, 0xc76c51a3, 0xd192e819, 0xd6990624, 0xf40e3585, 0x106aa070],
    [0x19a4c116, 0x1e376c08, 0x2748774c, 0x34b0bcb5, 0x391c0cb3, 0x4ed8aa4a, 0x5b9cca4f, 0x682e6ff3],
    [0x748f82ee, 0x78a5636f, 0x84c87814, 0x8cc70208, 0x90befffa, 0xa4506ceb, 0xbef9a3f7, 0xc67178f2]]

  function K(t: nat): Word
    requires t < 64
  {
    CONSTANTS[t / 8][t % 8]
  }

  // Section 5.3.3.
  function H0(): (h: seq<Word>)
    ensures |h| == 8
  {
    [0x6a09e667, 0xbb67ae85, 0x3c6ef372, 0xa54ff53a, 0x510e527f, 0x9b05688c, 0x1f83d9ab, 0x5be0cd19]
  }

  // Section 5.2.1: a block is sixteen big-endian words.
  function WordAt(block: seq<Octet>, i: nat): Word
    requires 4 * i + 4 <= |block|
  {
    (block[4 * i] as Word << 24) | (block[4 * i + 1] as Word << 16) | (block[4 * i + 2] as Word << 8)
    | block[4 * i + 3] as Word
  }

  // Section 6.2.2, step 1.
  function Schedule(block: seq<Octet>, t: nat): Word
    requires |block| == 64 && t < 64
  {
    if t < 16 then WordAt(block, t)
    else Add4(Schedule(block, t - 16), SmallSigma0(Schedule(block, t - 15)),
              Schedule(block, t - 7), SmallSigma1(Schedule(block, t - 2)))
  }

  datatype Working = Working(a: Word, b: Word, c: Word, d: Word, e: Word, f: Word, g: Word, h: Word)

  // Section 6.2.2, step 3.
  function Round(v: Working, k: Word, w: Word): Working {
    var t1 := Add(Add4(v.h, BigSigma1(v.e), Ch(v.e, v.f, v.g), k), w);
    var t2 := Add(BigSigma0(v.a), Maj(v.a, v.b, v.c));
    Working(Add(t1, t2), v.a, v.b, v.c, Add(v.d, t1), v.e, v.f, v.g)
  }

  // Section 6.2.2, step 2.
  function Initial(h: seq<Word>): Working
    requires |h| == 8
  {
    Working(h[0], h[1], h[2], h[3], h[4], h[5], h[6], h[7])
  }

  function Rounds(h: seq<Word>, block: seq<Octet>, t: nat): Working
    requires |h| == 8 && |block| == 64 && t <= 64
  {
    if t == 0 then Initial(h) else Round(Rounds(h, block, t - 1), K(t - 1), Schedule(block, t - 1))
  }

  // Section 6.2.2, step 4.
  function Compress(h: seq<Word>, block: seq<Octet>): (r: seq<Word>)
    requires |h| == 8 && |block| == 64
    ensures |r| == 8
  {
    AddAll(h, Rounds(h, block, 64))
  }

  function AddAll(h: seq<Word>, v: Working): (r: seq<Word>)
    requires |h| == 8
    ensures |r| == 8
  {
    [Add(h[0], v.a), Add(h[1], v.b), Add(h[2], v.c), Add(h[3], v.d),
     Add(h[4], v.e), Add(h[5], v.f), Add(h[6], v.g), Add(h[7], v.h)]
  }

  /** The hash value after all the blocks of `data`. */
  function HashBlocks(data: seq<Octet>): (r: seq<Word>)
    requires |data| % 64 == 0
    ensures |r| == 8
  {
    if data == [] then H0() else Compress(HashBlocks(data[..|data| - 64]), data[|data| - 64..])
  }

  function Zeros(n: nat): seq<Octet> {
    seq(n, _ => 0)
  }

  /** Octet `i` of a 64-bit number, counted from the least significant. */
  function ByteOf(value: bv64, i: nat): Octet
    requires i < 8
  {
    var shifted :=
      if i == 0 then value else if i == 1 then value >> 8 else if i == 2 then value >> 16 else if i == 3 then
        value >> 24
      else if i == 4 then value >> 32 else if i == 5 then value >> 40 else if i == 6 then value >> 48 else value >> 56;
    (shifted & 0xff) as Octet
  }

  function BigEndian64(value: bv64): (r: seq<Octet>)
    ensures |r| == 8
  {
    seq(8, i requires 0 <= i < 8 => ByteOf(value, 7 - i))
  }

  // Section 5.1.1, for messages of whole bytes: a one bit, zero bits, and the length in bits.
  function ZeroBytes(length: nat): nat {
    (119 - length % 64) % 64
  }

  /** The standard defines the hash of messages whose length in bits fits 64 bits. */
  predicate Hashable(message: seq<Octet>) {
    |message| < 0x2000_0000_0000_0000
  }

  function Pad(message: seq<Octet>): seq<Octet>
    requires Hashable(message)
  {
    message + [0x80] + Zeros(ZeroBytes(|message|)) + LengthField(message)
  }

  function LengthField(message: seq<Octet>): (r: seq<Octet>)
    requires Hashable(message)
    ensures |r| == 8
  {
    BigEndian64(BitLength(message))
  }

  function BitLength(message: seq<Octet>): bv64
    requires Hashable(message)
  {
    (8 * |message|) as bv64
  }

  function BytesOf(w: Word): seq<Octet> {
    [(w >> 24) as Octet, ((w >> 16) & 0xff) as Octet, ((w >> 8) & 0xff) as Octet, (w & 0xff) as Octet]
  }

  function Serialize(h: seq<Word>): seq<Octet> {
    if h == [] then [] else Serialize(h[..|h| - 1]) + BytesOf(h[|h| - 1])
  }

  function Digest(message: seq<Octet>): seq<Octet>
    requires Hashable(message)
  {
    PadIsWhole(message);
    Serialize(HashBlocks(Pad(message)))
  }

  lemma PadIsWhole(message: seq<Octet>)
    requires Hashable(message)
    ensures |Pad(message)| % 64 == 0
  {
    hide LengthField;
    assert (|message| % 64 + (119 - |message| % 64) % 64) % 64 == 55;
  }

  // ---------------------------------------------------------------------------------------------
  // The padding at the level of bits, as section 5.1.1 words it.

  function Bit(b: Octet, i: nat): bool
    requires i < 8
  {
    (b >> (7 - i)) & 1 == 1
  }

  function Bits(bytes: seq<Octet>): seq<bool> {
    seq(8 * |bytes|, i requires 0 <= i < 8 * |bytes| => Bit(bytes[i / 8], i % 8))
  }

  function ZeroBits(n: nat): seq<bool> {
    seq(n, _ => false)
  }

  lemma BitsConcat(a: seq<Octet>, b: seq<Octet>)
    ensures Bits(a + b) == Bits(a) + Bits(b)
  {
  }

  lemma BitsOfZeros(n: nat)
    ensures Bits(Zeros(n)) == ZeroBits(8 * n)
  {
  }

  lemma BitsOfOne()
    ensures Bits([0x80]) == [true] + ZeroBits(7)
  {
  }

  /** The length, the one bit and `k` zero bits leave room for exactly the last 64 bits of a block. */
  predicate Aligned(l: nat, k: nat) {
    (l + 1 + k) % 512 == 448
  }

  lemma LeastZeros(length: nat, j: nat)
    ensures Aligned(8 * length, 8 * ZeroBytes(length) + 7)
    ensures Aligned(8 * length, j) ==> 8 * ZeroBytes(length) + 7 <= j
  {
    ZerosAlign(length / 64, length % 64);
    if Aligned(8 * length, j) {
      SameResidue(8 * length, 8 * ZeroBytes(length) + 7, j);
    }
  }

  lemma ZerosAlign(blocks: nat, rest: nat)
    requires rest < 64
    ensures ZeroBytes(64 * blocks + rest) < 64
    ensures Aligned(8 * (64 * blocks + rest), 8 * ZeroBytes(64 * blocks + rest) + 7)
  {
    var zeros := if rest < 56 then 55 - rest else 119 - rest;
    assert (64 * blocks + rest) % 64 == rest;
    assert ZeroBytes(64 * blocks + rest) == zeros;
    assert 8 * (64 * blocks + rest) + 1 + (8 * zeros + 7) == 512 * blocks + (if rest < 56 then 448 else 960);
  }

  lemma SameResidue(l: nat, k: nat, j: nat)
    requires Aligned(l, k) && Aligned(l, j) && k < 512
    ensures k <= j
  {
  }

  /**
   The padded message is the message, a one bit, the least number of zero bits that leaves a multiple of
   512 less 64, and 64 bits whose value is the message length in bits.
   */
  lemma PaddingMeansFips(message: seq<Octet>)
    requires Hashable(message)
    ensures
      var l := 8 * |message|;
      var k := 8 * ZeroBytes(|message|) + 7;
      && Bits(Pad(message)) == Bits(message) + [true] + ZeroBits(k) + Bits(LengthField(message))
      && Aligned(l, k) && (forall j: nat :: Aligned(l, j) ==> k <= j)
      && Joined(LengthField(message)) == BitLength(message)
  {
    var l, z := 8 * |message|, ZeroBytes(|message|);
    hide BitLength, Joined, Bits, Pad, BigEndian64;
    BigEndianJoins(BitLength(message));
    PaddingBits(message);
    forall j: nat ensures Aligned(l, 8 * z + 7) && (Aligned(l, j) ==> 8 * z + 7 <= j) {
      hide *;
      LeastZeros(|message|, j);
    }
    assert Aligned(l, 8 * z + 7) by { hide *; LeastZeros(|message|, 0); }
    hide *;
  }

  lemma PaddingBits(message: seq<Octet>)
    requires Hashable(message)
    ensures Bits(Pad(message))
         == Bits(message) + [true] + ZeroBits(8 * ZeroBytes(|message|) + 7) + Bits(LengthField(message))
  {
    hide Bits, LengthField, ZeroBytes;
    var z, front := ZeroBytes(|message|), message + [0x80];
    BitsConcat(front + Zeros(z), LengthField(message));
    BitsConcat(front, Zeros(z));
    BitsConcat(message, [0x80]);
    BitsOfZeros(z);
    BitsOfOne();
    assert ZeroBits(8 * z + 7) == ZeroBits(7) + ZeroBits(8 * z);
  }

  /** Eight bytes read as one big-endian number. */
  function Joined(b: seq<Octet>): bv64
    requires |b| == 8
  {
    (b[0] as bv64 << 56) | (b[1] as bv64 << 48) | (b[2] as bv64 << 40) | (b[3] as bv64 << 32)
    | (b[4] as bv64 << 24) | (b[5] as bv64 << 16) | (b[6] as bv64 << 8) | b[7] as bv64
  }

  lemma BigEndianJoins(value: bv64)
    ensures Joined(BigEndian64(value)) == value
  {
  }

  lemma BytesAreBigEndian(w: Word)
    ensures
      var b := BytesOf(w);
      && |b| == 4
      && w == (b[0] as Word) * 0x100_0000 + (b[1] as Word) * 0x1_0000 + (b[2] as Word) * 0x100 + b[3] as Word
  {
  }

  lemma WordsAreBigEndian(block: seq<Octet>, i: nat)
    requires 4 * i + 4 <= |block|
    ensures
      WordAt(block, i) == (block[4 * i] as Word) * 0x100_0000 + (block[4 * i + 1] as Word) * 0x1_0000
        + (block[4 * i + 2] as Word) * 0x100 + block[4 * i + 3] as Word
  {
  }

  /** Ch picks y where x has ones and z where it has zeros; Maj has a one where at least two of the three do. */
  lemma ChooseAndMajority(x: Word, y: Word, z: Word)
    ensures Ch(x, y, z) & x == y & x && Ch(x, y, z) & !x == z & !x
    ensures Maj(x, y, z) == (x & y) | (x & z) | (y & z)
  {
    Choose(x, y, z);
    Majority(x, y, z);
    hide *;
  }

  lemma Choose(x: Word, y: Word, z: Word)
    ensures Ch(x, y, z) & x == y & x && Ch(x, y, z) & !x == z & !x
  {
  }

  lemma Majority(x: Word, y: Word, z: Word)
    ensures Maj(x, y, z) == (x & y) | (x & z) | (y & z)
  {
  }

  /** The digest is the words of the hash value in order, each read back big-endian from its four bytes. */
  lemma {:induction false} SerializedWords(h: seq<Word>)
    ensures |Serialize(h)| == 4 * |h|
    ensures forall i :: 0 <= i < |h| ==> WordAt(Serialize(h), i) == h[i]
  {
    if h != [] {
      var front, last := h[..|h| - 1], h[|h| - 1];
      SerializedWords(front);
      WordAfter(Serialize(front), last);
      forall i | 0 <= i < |front| ensures WordAt(Serialize(h), i) == h[i] {
        WordBefore(Serialize(front), BytesOf(last), i);
      }
    }
  }

  lemma WordBefore(front: seq<Octet>, more: seq<Octet>, i: nat)
    requires 4 * i + 4 <= |front|
    ensures WordAt(front + more, i) == WordAt(front, i)
  {
  }

  lemma WordAfter(front: seq<Octet>, w: Word)
    requires |front| % 4 == 0
    ensures WordAt(front + BytesOf(w), |front| / 4) == w
  {
    var all, b, i := front + BytesOf(w), BytesOf(w), |front| / 4;
    assert all[4 * i] == b[0] && all[4 * i + 1] == b[1] && all[4 * i + 2] == b[2] && all[4 * i + 3] == b[3];
    Rejoined(w);
  }

  lemma Rejoined(w: Word)
    ensures
      var b := BytesOf(w);
      (b[0] as Word << 24) | (b[1] as Word << 16) | (b[2] as Word << 8) | b[3] as Word == w
  {
  }
}

/** The streaming implementation: one context updated in place. */
module Sha256 {
  import opened Fips180

  const WRAP: nat := 0x1_0000_0000_0000_0000

  /** The whole blocks of a message, and what is left over. */
  function Whole(message: seq<Octet>): (r: seq<Octet>)
    ensures |r| % 64 == 0
  {
    message[..|message| / 64 * 64]
  }

  function Rest(message: seq<Octet>): (r: seq<Octet>)
    ensures |r| == |message| % 64 && Whole(message) + r == message
  {
    message[|message| / 64 * 64..]
  }

  class Context {
    const state: array<Word>
    const block: array<Octet>
    var blockSize: nat
    var bitCount: nat

    ghost predicate Valid()
      reads this
    {
      state.Length == 8 && block.Length == 64 && blockSize < 64
    }

    /** The context has absorbed exactly `message`, in whatever pieces it came. */
    ghost predicate Absorbed(message: seq<Octet>)
      reads this, state, block
    {
      && Valid() && blockSize == |message| % 64
      && state[..] == HashBlocks(Whole(message)) && block[..blockSize] == Rest(message)
      && bitCount == 8 * |Whole(message)| % WRAP
    }

    constructor ()
      ensures Absorbed([]) && fresh(state) && fresh(block)
    {
      hide HashBlocks, Whole, Rest, H0;
      state := new Word[8](i requires 0 <= i < 8 => H0()[i]);
      block := new Octet[64](_ => 0);
      blockSize, bitCount := 0, 0;
      new;
      EmptyMessage();
      assert state[..] == H0();
    }

    /** One block: the message schedule, 64 rounds, and the addition into the state. */
    method Transform()
      requires state.Length == 8 && block.Length == 64
      modifies state
      ensures state[..] == Compress(old(state[..]), block[..])
    {
      hide Round, K, Schedule, AddAll;
      ghost var h, m := state[..], block[..];
      var expanded := ExpandSchedule();
      var schedule := expanded[..];
      assert forall t :: 0 <= t < 64 ==> schedule[t] == Schedule(m, t);
      var v := Initial(state[..]);
      for t := 0 to 64
        invariant v == Rounds(h, m, t) && state[..] == h
      {
        v := OneRound(v, K(t), schedule[t]);
      }
      AddInto(v);
    }

    /** The eight additions into the state. */
    method AddInto(v: Working)
      requires state.Length == 8
      modifies state
      ensures state[..] == AddAll(old(state[..]), v)
    {
      hide Add;
      var sums := AddAll(state[..], v);
      forall i | 0 <= i < 8 {
        state[i] := sums[i];
      }
    }

    method ExpandSchedule() returns (schedule: array<Word>)
      requires block.Length == 64
      ensures fresh(schedule) && schedule.Length == 64
      ensures forall t :: 0 <= t < 64 ==> schedule[t] == Schedule(block[..], t)
    {
      hide SmallSigma0, SmallSigma1, WordAt, Add4, Schedule;
      ghost var m := block[..];
      schedule := new Word[64](_ => 0);
      for index := 0 to 16
        invariant block[..] == m && forall t :: 0 <= t < index ==> schedule[t] == Schedule(m, t)
      {
        FirstWords(m, index);
        schedule[index] := WordAt(block[..], index);
      }
      for index := 16 to 64
        invariant block[..] == m && forall t :: 0 <= t < index ==> schedule[t] == Schedule(m, t)
      {
        var s0 := SmallSigma0(schedule[index - 15]);
        var s1 := SmallSigma1(schedule[index - 2]);
        schedule[index] := Add4(schedule[index - 16], s0, schedule[index - 7], s1);
        LaterWords(m, index);
      }
    }

    /** The eight working variables shift by one, as the loop body assigns them. */
    method OneRound(v: Working, k: Word, w: Word) returns (r: Working)
      ensures r == Round(v, k, w)
    {
      hide BigSigma0, BigSigma1, Ch, Maj, Add, Add4;
      var a, b, c, d, e, f, g, h := v.a, v.b, v.c, v.d, v.e, v.f, v.g, v.h;
      var s1 := BigSigma1(e);
      var choose := Ch(e, f, g);
      var temporary1 := Add(Add4(h, s1, choose, k), w);
      var s0 := BigSigma0(a);
      var majority := Maj(a, b, c);
      var temporary2 := Add(s0, majority);
      h := g;
      g := f;
      f := e;
      e := Add(d, temporary1);
      d := c;
      c := b;
      b := a;
      a := Add(temporary1, temporary2);
      r := Working(a, b, c, d, e, f, g, h);
    }

    /** Absorbing more data is the same however the message is cut into pieces. */
    method Update(data: seq<Octet>, ghost message: seq<Octet>)
      requires Absorbed(message)
      modifies this, state, block
      ensures Absorbed(message + data)
    {
      assert blockSize < 64;
      hide *;
      var done := 0;
      FedEnds(message, data);
      while done < |data|
        invariant done <= |data| && blockSize < 64 && Absorbed(Fed(message, data, done))
      {
        done := AbsorbSome(data, done, message);
      }
    }

    /** Takes in what still fits into the block. */
    method AbsorbSome(data: seq<Octet>, done: nat, ghost message: seq<Octet>) returns (next: nat)
      requires done < |data| && blockSize < 64 && Absorbed(Fed(message, data, done))
      modifies this, state, block
      ensures done < next <= |data| && blockSize < 64 && Absorbed(Fed(message, data, next))
    {
      hide *;
      var available := 64 - blockSize;
      var copied := if |data| - done < available then |data| - done else available;
      next := done + copied;
      FedMore(message, data, done, copied);
      AbsorbPiece(data, done, copied, Fed(message, data, done));
    }

    method AbsorbPiece(data: seq<Octet>, from: nat, count: nat, ghost before: seq<Octet>)
      requires Absorbed(before) && from + count <= |data| && blockSize + count <= 64
      modifies this, state, block
      ensures blockSize < 64 && Absorbed(before + data[from..from + count])
    {
      hide HashBlocks, Compress, Whole, Rest;
      ghost var piece := data[from..from + count];
      Copy(data, from, count);
      if blockSize + count == 64 {
        assert block[..] == block[..64] == Rest(before) + piece;
        FillsBlock(before, piece, block[..]);
        Transform();
        BitsOfBlock(|Whole(before)|);
        bitCount := (bitCount + 512) % WRAP;
        blockSize := 0;
      } else {
        StaysInBlock(before, piece);
        blockSize := blockSize + count;
      }
    }

    /** Zeroes part of the block. */
    method Clear(from: nat, to: nat)
      requires block.Length == 64 && from <= to <= 64
      modifies block
      ensures block[..from] == old(block[..from]) && block[from..to] == Zeros(to - from)
    {
      forall i | from <= i < to {
        block[i] := 0;
      }
    }

    /** The last eight bytes of the block, least significant byte last. */
    method StoreLength(total: bv64)
      requires block.Length == 64
      modifies block
      ensures block[..56] == old(block[..56]) && block[56..] == BigEndian64(total)
    {
      hide ByteOf;
      for index := 0 to 8
        invariant forall i :: 0 <= i < 56 ==> block[i] == old(block[i])
        invariant forall i :: 0 <= i < index ==> block[63 - i] == ByteOf(total, i)
      {
        block[63 - index] := ByteOf(total, index);
      }
      forall i | 0 <= i < 8 ensures block[56..][i] == BigEndian64(total)[i] {
        assert block[63 - (7 - i)] == ByteOf(total, 7 - i);
      }
    }

    /** Appends the one bit, the zeros and the length, in one or two further blocks. */
    method Finish(ghost message: seq<Octet>)
      requires Absorbed(message) && Hashable(message)
      modifies this, state, block
      ensures state.Length == 8 && |Pad(message)| % 64 == 0 && state[..] == HashBlocks(Pad(message))
    {
      hide HashBlocks, Compress, Whole, Rest, BigEndian64, ZeroBytes, BitLength;
      PadIsWhole(message);
      var total := (bitCount + blockSize * 8) % WRAP;
      assert total == 8 * |message| by { TotalBits(message); }
      var length := total as bv64;
      assert length == BitLength(message) by { LengthAsWord(message, total); }
      ghost var rest := Rest(message);
      block[blockSize] := 0x80;
      blockSize := blockSize + 1;
      assert block[..blockSize] == rest + [0x80];
      if blockSize > 56 {
        CloseTwo(message, length);
      } else {
        CloseOne(message, length);
      }
    }

    /** The zeros and the length fit into the block at hand. */
    method CloseOne(ghost message: seq<Octet>, length: bv64)
      requires Closing(message, length) && blockSize <= 56
      modifies state, block
      ensures state[..] == HashBlocks(Pad(message))
    {
      hide HashBlocks, Compress, Whole, Rest, BigEndian64, ZeroBytes, BitLength;
      ghost var rest := Rest(message);
      Clear(blockSize, 56);
      assert block[..56] == rest + [0x80] + Zeros(56 - blockSize);
      StoreLength(length);
      assert block[..] == rest + [0x80] + Zeros(55 - |rest|) + LengthField(message);
      PadOneBlock(message);
      HashAppend(Whole(message), block[..]);
      Transform();
    }

    /** The block at hand is filled with zeros, and the length goes into one more. */
    method CloseTwo(ghost message: seq<Octet>, length: bv64)
      requires Closing(message, length) && blockSize > 56
      modifies this, state, block
      ensures state[..] == HashBlocks(Pad(message))
    {
      hide HashBlocks, Compress, Whole, Rest, BigEndian64, ZeroBytes, BitLength;
      ghost var rest := Rest(message);
      Clear(blockSize, 64);
      assert block[..] == rest + [0x80] + Zeros(64 - blockSize);
      PadTwoBlocks(message);
      HashAppend(Whole(message), block[..]);
      Transform();
      blockSize := 0;
      Clear(blockSize, 56);
      StoreLength(length);
      assert block[..] == Zeros(56) + LengthField(message);
      HashAppend(Whole(message) + (rest + [0x80] + Zeros(63 - |rest|)), block[..]);
      Transform();
    }

    /** The one bit is in place after the message's last bytes. */
    ghost predicate Closing(message: seq<Octet>, length: bv64)
      reads this, state, block
    {
      && state.Length == 8 && block.Length == 64 && Hashable(message) && length == BitLength(message)
      && |Pad(message)| % 64 == 0
      && blockSize == |Rest(message)| + 1 <= 64 && block[..blockSize] == Rest(message) + [0x80]
      && state[..] == HashBlocks(Whole(message))
    }

    method Copy(data: seq<Octet>, from: nat, count: nat)
      requires Valid() && from + count <= |data| && blockSize + count <= 64
      modifies block
      ensures block[..blockSize + count] == old(block[..blockSize]) + data[from..from + count]
    {
      forall i | 0 <= i < count {
        block[blockSize + i] := data[from + i];
      }
    }
  }

  lemma FirstWords(m: seq<Octet>, t: nat)
    requires |m| == 64 && t < 16
    ensures Schedule(m, t) == WordAt(m, t)
  {
  }

  lemma LaterWords(m: seq<Octet>, t: nat)
    requires |m| == 64 && 16 <= t < 64
    ensures Schedule(m, t) ==
      Add4(Schedule(m, t - 16), SmallSigma0(Schedule(m, t - 15)), Schedule(m, t - 7), SmallSigma1(Schedule(m, t - 2)))
  {
  }

  /** The message once `done` bytes of the data have been taken in. */
  ghost function Fed(message: seq<Octet>, data: seq<Octet>, done: nat): seq<Octet>
    requires done <= |data|
  {
    message + data[..done]
  }

  lemma FedEnds(message: seq<Octet>, data: seq<Octet>)
    ensures Fed(message, data, 0) == message && Fed(message, data, |data|) == message + data
  {
  }

  lemma FedMore(message: seq<Octet>, data: seq<Octet>, done: nat, count: nat)
    requires done + count <= |data|
    ensures Fed(message, data, done + count) == Fed(message, data, done) + data[done..done + count]
  {
  }

  lemma TotalBits(message: seq<Octet>)
    requires Hashable(message)
    ensures (8 * |Whole(message)| % WRAP + |message| % 64 * 8) % WRAP == 8 * |message|
  {
    assert |Whole(message)| + |message| % 64 == |message|;
  }

  lemma LengthAsWord(message: seq<Octet>, total: nat)
    requires Hashable(message) && total == 8 * |message|
    ensures total as bv64 == BitLength(message)
  {
  }

  lemma HashAppend(data: seq<Octet>, block: seq<Octet>)
    requires |data| % 64 == 0 && |block| == 64
    ensures |data + block| % 64 == 0 && HashBlocks(data + block) == Compress(HashBlocks(data), block)
  {
  }

  lemma PadOneBlock(message: seq<Octet>)
    requires Hashable(message) && |message| % 64 < 56
    ensures Pad(message)
         == Whole(message) + (Rest(message) + [0x80] + Zeros(55 - |Rest(message)|) + LengthField(message))
  {
    hide LengthField, Whole, Rest;
    assert ZeroBytes(|message|) == 55 - |Rest(message)|;
    assert message == Whole(message) + Rest(message);
  }

  lemma PadTwoBlocks(message: seq<Octet>)
    requires Hashable(message) && |message| % 64 >= 56
    ensures Pad(message)
         == Whole(message) + (Rest(message) + [0x80] + Zeros(63 - |Rest(message)|)) + (Zeros(56) + LengthField(message))
  {
    hide LengthField, Whole, Rest;
    assert ZeroBytes(|message|) == 63 - |Rest(message)| + 56;
    assert Zeros(63 - |Rest(message)| + 56) == Zeros(63 - |Rest(message)|) + Zeros(56);
    assert message == Whole(message) + Rest(message);
  }

  lemma EmptyMessage()
    ensures Whole([]) == [] && Rest([]) == [] && HashBlocks([]) == H0()
  {
  }

  /** The running bit count wraps as the whole count does. */
  lemma BitsOfBlock(length: nat)
    ensures (8 * length % WRAP + 512) % WRAP == 8 * (length + 64) % WRAP
  {
  }

  /** A piece that completes the block adds one block to the whole part and leaves nothing over. */
  lemma FillsBlock(message: seq<Octet>, piece: seq<Octet>, block: seq<Octet>)
    requires |block| == 64 && block == Rest(message) + piece
    ensures |message + piece| % 64 == 0
    ensures Whole(message + piece) == Whole(message) + block && Rest(message + piece) == []
    ensures HashBlocks(Whole(message + piece)) == Compress(HashBlocks(Whole(message)), block)
    ensures |Whole(message + piece)| == |Whole(message)| + 64
  {
  }

  lemma StaysInBlock(message: seq<Octet>, piece: seq<Octet>)
    requires |message| % 64 + |piece| < 64
    ensures Whole(message + piece) == Whole(message) && Rest(message + piece) == Rest(message) + piece
    ensures |message + piece| % 64 == |message| % 64 + |piece|
  {
  }

  /** The digest of every message the standard defines one for. */
  method Hash(source: seq<Octet>) returns (digest: seq<Octet>)
    requires Hashable(source)
    ensures digest == Digest(source)
  {
    assert source == Concat([source]) by {
      assert [source][..0] == [] && Concat([]) == [];
    }
    digest := HashPieces([source]);
  }

  function Concat(pieces: seq<seq<Octet>>): seq<Octet> {
    if pieces == [] then [] else Concat(pieces[..|pieces| - 1]) + pieces[|pieces| - 1]
  }

  /** The digest does not depend on how the message is cut into updates. */
  method HashPieces(pieces: seq<seq<Octet>>) returns (digest: seq<Octet>)
    requires Hashable(Concat(pieces))
    ensures digest == Digest(Concat(pieces))
  {
    hide HashBlocks, Pad, BytesOf, Hashable, Digest;
    var context := new Context();
    for i := 0 to |pieces|
      invariant context.Absorbed(Concat(pieces[..i]))
      invariant fresh(context) && fresh(context.state) && fresh(context.block)
    {
      assert pieces[..i + 1][..i] == pieces[..i];
      context.Update(pieces[i], Concat(pieces[..i]));
    }
    assert pieces[..|pieces|] == pieces;
    context.Finish(Concat(pieces));
    digest := Emit(context, Concat(pieces));
  }

  /** The state as bytes, big-endian. */
  method Emit(context: Context, ghost message: seq<Octet>) returns (digest: seq<Octet>)
    requires Hashable(message) && context.state.Length == 8
    requires |Pad(message)| % 64 == 0 && context.state[..] == HashBlocks(Pad(message))
    ensures digest == Digest(message)
  {
    hide HashBlocks, Pad, BytesOf;
    digest := [];
    for index := 0 to 8
      invariant digest == Serialize(context.state[..index])
    {
      assert context.state[..index + 1][..index] == context.state[..index];
      digest := digest + BytesOf(context.state[index]);
    }
    assert context.state[..8] == context.state[..];
  }
}
