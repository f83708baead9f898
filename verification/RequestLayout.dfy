/**
 Which byte of a worker request says what: the layout of the protocol, byte position by byte position.
 */
module RequestLayout {
  import opened Bytes
  import opened Sequences
  import opened LittleEndian
  import opened WorkerRequest

  /** The number that bytes spell, least significant first. */
  function Number(bytes: seq<Byte>): nat {
    if bytes == [] then 0 else bytes[0] + 256 * Number(bytes[1..])
  }

  lemma NumberOfFour(b: seq<Byte>)
    requires |b| == 4
    ensures Number(b) == b[0] as nat + 0x100 * (b[1] as nat) + 0x1_0000 * (b[2] as nat) + 0x100_0000 * (b[3] as nat)
  {
    assert b[1..][1..] == b[2..] && b[2..][1..] == b[3..] && b[3..][1..] == [];
    assert Number(b[3..]) == b[3];
    assert Number(b[2..]) == b[2] as nat + 256 * (b[3] as nat);
  }

  lemma {:induction false} NumberConcat(a: seq<Byte>, b: seq<Byte>)
    requires |a| == 4
    ensures Number(a + b) == Number(a) + 0x1_0000_0000 * Number(b)
  {
    var s := a + b;
    assert s[1..][1..] == s[2..] && s[2..][1..] == s[3..] && s[3..][1..] == b;
    assert Number(s[3..]) == a[3] as nat + 256 * Number(b);
    assert Number(s[2..]) == a[2] as nat + 256 * Number(s[3..]);
    NumberOfFour(a);
  }

  /** What is stored is the number. */
  lemma StoredNumber(value: nat)
    ensures value < 0x1_0000_0000 ==> Number(U32(value)) == value
    ensures value < 0x1_0000_0000_0000_0000 ==> Number(U64(value)) == value
  {
    if value < 0x1_0000_0000_0000_0000 {
      var low, high := value % 0x1_0000_0000, value / 0x1_0000_0000;
      FourDigits(low);
      FourDigits(high);
      NumberConcat(U32(low), U32(high));
      hide Number, U32;
    }
  }

  lemma FourDigits(value: nat)
    requires value < 0x1_0000_0000
    ensures Number(U32(value)) == value
  {
    NumberOfFour(U32(value));
    Digits(value);
  }

  /** Payloads one after the other, each behind its size in `width` bytes. */
  ghost predicate Framed(bytes: seq<Byte>, items: seq<seq<Byte>>, width: nat)
    decreases |items|
  {
    if items == [] then bytes == []
    else
      && |bytes| >= width + |items[0]| && Number(bytes[..width]) == |items[0]|
      && bytes[width..width + |items[0]|] == items[0]
      && Framed(bytes[width + |items[0]|..], items[1..], width)
  }

  lemma FramedFirst(item: seq<Byte>, width: nat, rest: seq<Byte>)
    requires (width == 4 || width == 8) && |item| <= U32_MAX
    ensures
      var bytes := Item(item, width) + rest;
      && |bytes| >= width + |item| && Number(bytes[..width]) == |item|
      && bytes[width..width + |item|] == item && bytes[width + |item|..] == rest
  {
    FirstItem(item, width, rest);
    hide Item, Number, LoadU32, LoadU64;
    var bytes := Item(item, width) + rest;
    if width == 4 {
      LoadIsNumber(bytes, 0);
    } else {
      LoadIsNumber64(bytes, 0);
    }
    assert bytes[..width] == bytes[0..width];
  }

  lemma {:induction false} ItemsAreFramed(items: seq<seq<Byte>>, width: nat)
    requires (width == 4 || width == 8) && forall x :: x in items ==> |x| <= U32_MAX
    ensures Framed(Items(items, width), items, width)
    decreases |items|
  {
    if items != [] {
      hide Items, Item, Number;
      ItemsFront(items, width);
      FramedFirst(items[0], width, Items(items[1..], width));
      ItemsAreFramed(items[1..], width);
    } else {
      NoItems(items, width);
    }
  }

  lemma LoadIsNumber(b: seq<Byte>, at: nat)
    requires at + 4 <= |b|
    ensures Number(b[at..at + 4]) == LoadU32(b, at)
  {
    NumberOfFour(b[at..at + 4]);
  }

  lemma LoadIsNumber64(b: seq<Byte>, at: nat)
    requires at + 8 <= |b|
    ensures Number(b[at..at + 8]) == LoadU64(b, at)
  {
    hide LoadU32, Number;
    LoadIsNumber(b, at);
    LoadIsNumber(b, at + 4);
    NumberConcat(b[at..at + 4], b[at + 4..at + 8]);
    assert b[at..at + 4] + b[at + 4..at + 8] == b[at..at + 8];
  }

  /** Two runs of framed payloads, and nothing else. */
  ghost predicate FramedBoth(bytes: seq<Byte>, first: seq<seq<Byte>>, second: seq<seq<Byte>>) {
    exists a, b :: bytes == a + b && Framed(a, first, 4) && Framed(b, second, 8)
  }

  /**
   The compiler worker's request: its magic number, version 1, the stage, the number of arguments, the number of
   inputs, the length of the path, eight zero bytes; the path; the arguments behind 32-bit sizes, the inputs behind
   64-bit ones.
   */
  lemma MoviLayout(r: Movi)
    requires MoviAccepted(r)
    ensures
      var b := MoviBytes(r);
      && |b| >= 32 + |r.path| && Number(b[0..4]) == 0x4b57504e && Number(b[4..8]) == 1
      && Number(b[8..12]) == r.stage && Number(b[12..16]) == |r.arguments| && Number(b[16..20]) == |r.inputs|
      && Number(b[20..24]) == |r.path| && b[24..32] == [0, 0, 0, 0, 0, 0, 0, 0]
      && b[32..32 + |r.path|] == r.path && FramedBoth(b[32 + |r.path|..], r.arguments, r.inputs)
  {
    hide Items, Framed, Number, MoviBytes, LoadU32;
    MoviParts(r);
    var b := MoviBytes(r);
    LoadIsNumber(b, 0);
    LoadIsNumber(b, 4);
    LoadIsNumber(b, 8);
    LoadIsNumber(b, 12);
    LoadIsNumber(b, 16);
    LoadIsNumber(b, 20);
    MoviReserved(r);
    ItemsAreFramed(r.arguments, 4);
    ItemsAreFramed(r.inputs, 8);
  }

  lemma MoviReserved(r: Movi)
    requires MoviAccepted(r)
    ensures |MoviBytes(r)| >= 32 && MoviBytes(r)[24..32] == [0, 0, 0, 0, 0, 0, 0, 0]
  {
    hide U32, Items;
    MoviSizes(r);
    var h := MoviHeader(r);
    assert h[24..32] == RESERVED;
    FrontOf(h, r.path, Items(r.arguments, 4) + Items(r.inputs, 8), 24, 32);
    assert MoviBytes(r) == h + r.path + (Items(r.arguments, 4) + Items(r.inputs, 8));
  }

  lemma FrontOf(h: seq<Byte>, a: seq<Byte>, b: seq<Byte>, i: nat, j: nat)
    requires i <= j <= |h|
    ensures (h + a + b)[i..j] == h[i..j]
  {
  }

  function FrameSizes(items: seq<seq<Byte>>, width: nat): seq<nat> {
    seq(|items|, k requires 0 <= k < |items| => width + |items[k]|)
  }

  /** Which requests are built: a path, arguments and inputs, no zero byte in a text, and 64 mebibytes at most. */
  lemma MoviAcceptedMeans(r: Movi)
    ensures MoviAccepted(r) <==>
      && |r.path| > 0 && |r.arguments| > 0 && |r.inputs| > 0 && r.stage < 0x1_0000_0000
      && 0 !in r.path
      && (forall k :: 0 <= k < |r.arguments| ==> |r.arguments[k]| > 0 && 0 !in r.arguments[k])
      && 32 + |r.path| + Sum(FrameSizes(r.arguments, 4)) + Sum(FrameSizes(r.inputs, 8)) <= 67108864
  {
    LengthIsSum(r.arguments, 4);
    LengthIsSum(r.inputs, 8);
    hide Length;
    TextsByIndex(r.arguments);
  }

  lemma TextsByIndex(items: seq<seq<Byte>>)
    ensures (forall a :: a in items ==> a != [] && 0 !in a)
       <==> forall k :: 0 <= k < |items| ==> |items[k]| > 0 && 0 !in items[k]
  {
    if forall a :: a in items ==> a != [] && 0 !in a {
      forall k | 0 <= k < |items| ensures |items[k]| > 0 && 0 !in items[k] {
        assert items[k] in items;
      }
    }
  }

  lemma {:induction false} LengthIsSum(items: seq<seq<Byte>>, width: nat)
    ensures Length(items, width) == Sum(FrameSizes(items, width))
  {
    if items != [] {
      var n := |items| - 1;
      LengthIsSum(items[..n], width);
      SumLast(FrameSizes(items, width));
      assert FrameSizes(items, width)[..n] == FrameSizes(items[..n], width);
    }
  }

  /**
   The IR worker's request: its magic number, version 1, driver, device, the sizes of text and weights in 64 bits,
   the size of the flags, the mode, eight zero bytes; then the text, the weights and the flags.
   */
  lemma IrLayout(r: Ir)
    requires IrAccepted(r)
    ensures
      var b := IrBytes(r);
      && |b| == 48 + |r.xml| + |r.weights| + |r.flags| && Number(b[0..4]) == 0x4957504e && Number(b[4..8]) == 1
      && Number(b[8..12]) == r.driver && Number(b[12..16]) == r.device && Number(b[16..24]) == |r.xml|
      && Number(b[24..32]) == |r.weights| && Number(b[32..36]) == |r.flags| && Number(b[36..40]) == r.mode
      && b[40..48] == [0, 0, 0, 0, 0, 0, 0, 0] && b[48..] == r.xml + r.weights + r.flags
  {
    hide Number, IrBytes, LoadU32, LoadU64;
    IrParts(r);
    var b := IrBytes(r);
    LoadIsNumber(b, 0);
    LoadIsNumber(b, 4);
    LoadIsNumber(b, 8);
    LoadIsNumber(b, 12);
    LoadIsNumber64(b, 16);
    LoadIsNumber64(b, 24);
    LoadIsNumber(b, 32);
    LoadIsNumber(b, 36);
    IrReserved(r);
  }

  lemma IrReserved(r: Ir)
    requires IrAccepted(r)
    ensures |IrBytes(r)| >= 48 && IrBytes(r)[40..48] == [0, 0, 0, 0, 0, 0, 0, 0]
    ensures IrBytes(r)[48..] == r.xml + r.weights + r.flags
  {
    hide U32, U64;
    var h := IrHeader(r);
    assert |h| == 48 && h[40..48] == RESERVED;
    hide IrHeader;
    FrontOf(h, r.xml, r.weights + r.flags, 40, 48);
    assert (h + r.xml + (r.weights + r.flags))[48..] == r.xml + (r.weights + r.flags);
    Regroup(r.xml, r.weights, r.flags);
  }
}
