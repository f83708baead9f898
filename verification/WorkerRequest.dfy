/**
 The requests sent to the compiler worker and the IR worker: a fixed header and length-prefixed payloads,
 written into one buffer of precomputed size.
 */
module WorkerRequest {
  import opened Wrappers
  import opened Bytes
  import opened Checked
  import opened LittleEndian

  const U32_MAX: nat := 0xffff_ffff

  /** The reserved end of both headers. */
  const RESERVED: seq<Byte> := [0, 0, 0, 0, 0, 0, 0, 0]

  // ---------------------------------------------------------------------------------------------
  // Writing with a moving offset.

  /** Copies bytes to the cursor; what is before it and what is behind the copy stays. */
  method Put(data: array<Byte>, offset: nat, bytes: seq<Byte>) returns (next: nat)
    requires offset + |bytes| <= data.Length
    modifies data
    ensures next == offset + |bytes| && data[..next] == old(data[..offset]) + bytes
    ensures forall i :: next <= i < data.Length ==> data[i] == old(data[i])
  {
    forall i | 0 <= i < |bytes| {
      data[offset + i] := bytes[i];
    }
    next := offset + |bytes|;
  }

  // ---------------------------------------------------------------------------------------------
  // The compiler worker.

  const MOVI_MAGIC: nat := 0x4b57504e
  const MOVI_VERSION: nat := 1
  const MOVI_HEADER: nat := 32
  const MOVI_MAX: nat := 64 * 1024 * 1024

  datatype Movi = Movi(path: seq<Byte>, stage: nat, arguments: seq<seq<Byte>>, inputs: seq<seq<Byte>>)

  /** Payloads with a length prefix of `width` bytes each. */
  function Items(items: seq<seq<Byte>>, width: nat): seq<Byte> {
    if items == [] then []
    else Items(items[..|items| - 1], width) + Item(items[|items| - 1], width)
  }

  /** The prefix is the size truncated to its width, as the cast in the source does. */
  function Item(item: seq<Byte>, width: nat): seq<Byte> {
    Prefix(|item|, width) + item
  }

  function Prefix(size: nat, width: nat): seq<Byte> {
    if width == 4 then U32(size % 0x1_0000_0000) else U64(size % 0x1_0000_0000_0000_0000)
  }

  function Length(items: seq<seq<Byte>>, width: nat): nat {
    if items == [] then 0 else Length(items[..|items| - 1], width) + width + |items[|items| - 1]|
  }

  function MoviLength(r: Movi): nat {
    MOVI_HEADER + |r.path| + Length(r.arguments, 4) + Length(r.inputs, 8)
  }

  /** What the builder accepts. */
  ghost predicate MoviAccepted(r: Movi) {
    && r.path != [] && 0 !in r.path && r.stage <= U32_MAX && r.arguments != [] && r.inputs != []
    && (forall a :: a in r.arguments ==> a != [] && 0 !in a)
    && MoviLength(r) <= MOVI_MAX
  }

  lemma {:induction false} LengthCounts(items: seq<seq<Byte>>, width: nat)
    ensures |items| * width <= Length(items, width)
  {
    if items != [] {
      LengthCounts(items[..|items| - 1], width);
      assert |items| * width == (|items| - 1) * width + width;
    }
  }

  lemma LengthBounds(items: seq<seq<Byte>>, width: nat)
    ensures |items| * width <= Length(items, width)
    ensures forall x :: x in items ==> |x| <= Length(items, width)
  {
    LengthCounts(items, width);
    forall k | 0 <= k < |items| ensures |items[k]| <= Length(items, width) {
      hide Length;
      LengthSnoc(items, width, k);
    }
  }

  /** One item more, and what the whole length then is at least. */
  lemma LengthSnoc(items: seq<seq<Byte>>, width: nat, k: nat)
    requires k < |items|
    ensures Length(items[..k + 1], width) == Length(items[..k], width) + width + |items[k]|
    ensures Length(items[..k + 1], width) <= Length(items, width)
  {
    assert items[..k + 1][..k] == items[..k];
    LengthPrefix(items, width, k + 1);
  }

  lemma {:induction false} LengthPrefix(items: seq<seq<Byte>>, width: nat, k: nat)
    requires k <= |items|
    ensures Length(items[..k], width) <= Length(items, width)
  {
    if k == |items| {
      assert items[..k] == items;
    } else {
      LengthPrefix(items[..|items| - 1], width, k);
      assert items[..|items| - 1][..k] == items[..k];
    }
  }

  lemma {:induction false} ItemsLength(items: seq<seq<Byte>>, width: nat)
    requires width == 4 || width == 8
    ensures |Items(items, width)| == Length(items, width)
  {
    if items != [] {
      ItemsLength(items[..|items| - 1], width);
    }
  }

  function MoviHeader(r: Movi): seq<Byte>
    requires r.stage <= U32_MAX && |r.arguments| <= U32_MAX && |r.inputs| <= U32_MAX && |r.path| <= U32_MAX
  {
    U32(MOVI_MAGIC) + U32(MOVI_VERSION) + U32(r.stage) + U32(|r.arguments|) + U32(|r.inputs|) + U32(|r.path|) + RESERVED
  }

  ghost function MoviBytes(r: Movi): seq<Byte>
    requires MoviAccepted(r)
  {
    MoviSizes(r);
    MoviHeader(r) + r.path + Items(r.arguments, 4) + Items(r.inputs, 8)
  }

  lemma MoviSizes(r: Movi)
    requires MoviAccepted(r)
    ensures |r.arguments| <= U32_MAX && |r.inputs| <= U32_MAX && |r.path| <= U32_MAX
    ensures forall x :: x in r.arguments || x in r.inputs ==> |x| <= U32_MAX
  {
    LengthBounds(r.arguments, 4);
    LengthBounds(r.inputs, 8);
  }

  /** The encoding is as long as the first pass computes. */
  lemma MoviBytesLength(r: Movi)
    requires MoviAccepted(r)
    ensures |MoviBytes(r)| == MoviLength(r)
  {
    MoviSizes(r);
    ItemsLength(r.arguments, 4);
    ItemsLength(r.inputs, 8);
    hide Items, Length, U32;
  }

  /** The running total, which must neither overflow nor pass the message limit. */
  method AddSize(total: nat, prefix: nat, payload: nat) returns (sum: Option<nat>)
    requires total <= SIZE_MAX && prefix <= SIZE_MAX && payload <= SIZE_MAX
    ensures sum == if total + prefix + payload <= MOVI_MAX then Some(total + prefix + payload) else None
  {
    var next := CheckedAdd(total, prefix);
    if next == None {
      return None;
    }
    sum := CheckedAdd(next.value, payload);
    if sum.Some? && sum.value > MOVI_MAX {
      sum := None;
    }
  }

  /** The lengths a view can have. */
  ghost predicate InMemory(r: Movi) {
    && |r.path| <= SIZE_MAX && |r.arguments| <= SIZE_MAX && |r.inputs| <= SIZE_MAX
    && forall x :: x in r.arguments || x in r.inputs ==> |x| <= SIZE_MAX
  }

  /** Adds the sizes of all payloads; arguments (`text`) must also be non-empty and free of NUL. */
  method AddItems(start: nat, items: seq<seq<Byte>>, width: nat, text: bool) returns (total: Option<nat>)
    requires start <= MOVI_MAX && width <= 8 && forall x :: x in items ==> |x| <= SIZE_MAX
    ensures total ==
      if start + Length(items, width) <= MOVI_MAX && (text ==> forall x :: x in items ==> x != [] && 0 !in x)
      then Some(start + Length(items, width)) else None
  {
    hide Length;
    total := Some(start);
    NoItems(items, width);
    for k := 0 to |items|
      invariant total == Some(start + Length(items[..k], width)) && total.value <= MOVI_MAX
      invariant text ==> forall x :: x in items[..k] ==> x != [] && 0 !in x
    {
      LengthSnoc(items, width, k);
      var item := items[k];
      assert items[..k + 1] == items[..k] + [item] && item in items;
      if text && (item == [] || |item| > U32_MAX || 0 in item) {
        return None;
      }
      total := AddSize(total.value, width, |item|);
      if total == None {
        return None;
      }
    }
    assert items[..|items|] == items;
  }

  /** The first pass: validates every part and computes the buffer size. */
  method MoviTotal(r: Movi) returns (total: Option<nat>)
    requires InMemory(r) && r.stage <= U32_MAX
    ensures total == if MoviAccepted(r) then Some(MoviLength(r)) else None
  {
    LengthBounds(r.arguments, 4);
    LengthBounds(r.inputs, 8);
    hide Length;
    if r.path == [] || |r.path| > U32_MAX || 0 in r.path || r.arguments == [] || |r.arguments| > U32_MAX
      || r.inputs == [] || |r.inputs| > U32_MAX {
      return None;
    }
    total := AddSize(MOVI_HEADER, 0, |r.path|);
    if total.Some? {
      total := AddItems(total.value, r.arguments, 4, true);
    }
    if total.Some? {
      total := AddItems(total.value, r.inputs, 8, false);
    }
  }

  method PutItem(data: array<Byte>, offset: nat, item: seq<Byte>, width: nat) returns (next: nat)
    requires (width == 4 || width == 8) && offset + width + |item| <= data.Length
    modifies data
    ensures next == offset + width + |item| && data[..next] == old(data[..offset]) + Item(item, width)
  {
    hide U32, U64;
    next := Put(data, offset, Prefix(|item|, width));
    next := Put(data, next, item);
  }

  lemma ItemsSnoc(items: seq<seq<Byte>>, width: nat, k: nat)
    requires k < |items|
    ensures Items(items[..k + 1], width) == Items(items[..k], width) + Item(items[k], width)
  {
    hide Item;
    assert items[..k + 1][..k] == items[..k] && items[..k + 1][k] == items[k];
  }

  lemma NoItems(items: seq<seq<Byte>>, width: nat)
    ensures items[..0] == [] && Items([], width) == [] && Length([], width) == 0
  {
  }

  /** The payload loops: each length prefix, then the payload. */
  method PutItems(data: array<Byte>, offset: nat, items: seq<seq<Byte>>, width: nat) returns (next: nat)
    requires width == 4 || width == 8
    requires offset + Length(items, width) <= data.Length
    modifies data
    ensures next == offset + Length(items, width)
    ensures data[..next] == old(data[..offset]) + Items(items, width)
  {
    hide Item, Items, Length;
    next := offset;
    NoItems(items, width);
    for k := 0 to |items|
      invariant next == offset + Length(items[..k], width) <= data.Length
      invariant data[..next] == old(data[..offset]) + Items(items[..k], width)
    {
      LengthSnoc(items, width, k);
      ItemsSnoc(items, width, k);
      next := PutItem(data, next, items[k], width);
    }
    assert items[..|items|] == items;
  }

  /** Bytes never written are still zero. */
  lemma HeaderEnds(data: seq<Byte>, end: nat)
    requires end + 8 <= |data| && forall i :: end <= i < end + 8 ==> data[i] == 0
    ensures data[..end + 8] == data[..end] + RESERVED
  {
  }

  /** Six fields; the rest of the header stays zero. */
  method PutHeader(data: array<Byte>, r: Movi)
    requires r.stage <= U32_MAX && |r.arguments| <= U32_MAX && |r.inputs| <= U32_MAX && |r.path| <= U32_MAX
    requires data.Length >= MOVI_HEADER && forall i :: 0 <= i < MOVI_HEADER ==> data[i] == 0
    modifies data
    ensures data[..MOVI_HEADER] == MoviHeader(r)
  {
    hide U32;
    var offset := Put(data, 0, U32(MOVI_MAGIC));
    offset := Put(data, offset, U32(MOVI_VERSION));
    offset := Put(data, offset, U32(r.stage));
    offset := Put(data, offset, U32(|r.arguments|));
    offset := Put(data, offset, U32(|r.inputs|));
    offset := Put(data, offset, U32(|r.path|));
    HeaderEnds(data[..], 24);
  }

  /** The request, or nothing if it is not acceptable; the cursor ends exactly at the computed size. */
  method BuildMovi(r: Movi) returns (request: seq<Byte>, ok: bool)
    requires InMemory(r) && r.stage <= U32_MAX
    ensures ok <==> MoviAccepted(r)
    ensures ok ==> |request| == MoviLength(r)
    ensures ok ==> request == MoviBytes(r)
  {
    var total := MoviTotal(r);
    if total == None {
      return [], false;
    }
    MoviSizes(r);
    var data := new Byte[total.value](_ => 0);
    PutHeader(data, r);
    hide MoviHeader, Items;
    var offset := MOVI_HEADER;
    offset := Put(data, offset, r.path);
    offset := PutItems(data, offset, r.arguments, 4);
    offset := PutItems(data, offset, r.inputs, 8);
    assert offset == total.value == data.Length && data[..offset] == data[..];
    request, ok := data[..], true;
  }

  // ---------------------------------------------------------------------------------------------
  // Reading a request back.

  /** Takes `count` length-prefixed payloads off the front. */
  function TakeItems(bytes: seq<Byte>, count: nat, width: nat): Option<(seq<seq<Byte>>, seq<Byte>)>
    requires width == 4 || width == 8
    decreases count
  {
    if count == 0 then Some(([], bytes))
    else if |bytes| < width then None
    else
      var size := if width == 4 then LoadU32(bytes, 0) else LoadU64(bytes, 0);
      if width + size > |bytes| then None
      else
        var rest := TakeItems(bytes[width + size..], count - 1, width);
        if rest == None then None
        else Some(([bytes[width..width + size]] + rest.value.0, rest.value.1))
  }

  function DecodeMovi(bytes: seq<Byte>): Option<Movi> {
    if |bytes| < MOVI_HEADER || LoadU32(bytes, 0) != MOVI_MAGIC || LoadU32(bytes, 4) != MOVI_VERSION then None
    else if MOVI_HEADER + LoadU32(bytes, 20) > |bytes| then None
    else
      var path := bytes[MOVI_HEADER..MOVI_HEADER + LoadU32(bytes, 20)];
      var arguments := TakeItems(bytes[MOVI_HEADER + |path|..], LoadU32(bytes, 12), 4);
      if arguments == None then None
      else
        var inputs := TakeItems(arguments.value.1, LoadU32(bytes, 16), 8);
        if inputs == None || inputs.value.1 != [] then None
        else Some(Movi(path, LoadU32(bytes, 8), arguments.value.0, inputs.value.0))
  }

  /** The encoding read from the front instead of the back. */
  lemma {:induction false} ItemsFront(items: seq<seq<Byte>>, width: nat)
    requires items != []
    ensures Items(items, width) == Item(items[0], width) + Items(items[1..], width)
  {
    var last := |items| - 1;
    if last == 0 {
      assert items == [items[0]] && items[1..] == [];
      OneItem(items[0], width);
    } else {
      hide *;
      var front, tail := items[..last], items[1..];
      assert front[1..] == tail[..last - 1] && tail[last - 1] == items[last] && front[0] == items[0];
      assert items[..last + 1] == items && tail[..last] == tail;
      ItemsFront(front, width);
      ItemsSnoc(items, width, last);
      ItemsSnoc(tail, width, last - 1);
      Regroup(Item(items[0], width), Items(front[1..], width), Item(items[last], width));
    }
  }

  lemma OneItem(item: seq<Byte>, width: nat)
    ensures Items([item], width) == Item(item, width) && Items([], width) == []
  {
    assert [item][..0] == [];
  }

  lemma Regroup(a: seq<Byte>, b: seq<Byte>, c: seq<Byte>)
    ensures a + b + c == a + (b + c)
  {
  }

  lemma ItemsThen(items: seq<seq<Byte>>, width: nat, rest: seq<Byte>)
    requires items != []
    ensures Items(items, width) + rest == Item(items[0], width) + (Items(items[1..], width) + rest)
  {
    hide *;
    ItemsFront(items, width);
  }

  lemma {:induction false} TakeWhatWasPut(items: seq<seq<Byte>>, width: nat, rest: seq<Byte>)
    requires (width == 4 || width == 8) && forall x :: x in items ==> |x| <= U32_MAX
    ensures TakeItems(Items(items, width) + rest, |items|, width) == Some((items, rest))
    decreases |items|
  {
    hide *;
    if items == [] {
      TakeNothing(width, rest);
    } else {
      TakeWhatWasPut(items[1..], width, rest);
      TakeStep(items, width, rest);
    }
  }

  lemma TakeNothing(width: nat, rest: seq<Byte>)
    requires width == 4 || width == 8
    ensures TakeItems(Items([], width) + rest, 0, width) == Some(([], rest))
  {
    assert Items([], width) + rest == rest;
  }

  lemma TakeStep(items: seq<seq<Byte>>, width: nat, rest: seq<Byte>)
    requires (width == 4 || width == 8) && items != [] && |items[0]| <= U32_MAX
    requires TakeItems(Items(items[1..], width) + rest, |items| - 1, width) == Some((items[1..], rest))
    ensures TakeItems(Items(items, width) + rest, |items|, width) == Some((items, rest))
  {
    hide *;
    ItemsThen(items, width, rest);
    TakeFirst(items[0], width, Items(items[1..], width) + rest, |items|);
    assert [items[0]] + items[1..] == items;
  }

  lemma TakeFirst(item: seq<Byte>, width: nat, tail: seq<Byte>, count: nat)
    requires (width == 4 || width == 8) && |item| <= U32_MAX && count > 0
    ensures
      var rest := TakeItems(tail, count - 1, width);
      TakeItems(Item(item, width) + tail, count, width)
      == if rest == None then None else Some(([item] + rest.value.0, rest.value.1))
  {
    FirstItem(item, width, tail);
    hide Item, LoadU32, LoadU64;
  }

  lemma FirstItem(item: seq<Byte>, width: nat, tail: seq<Byte>)
    requires (width == 4 || width == 8) && |item| <= U32_MAX
    ensures
      var bytes := Item(item, width) + tail;
      && |bytes| >= width + |item| && (if width == 4 then LoadU32(bytes, 0) else LoadU64(bytes, 0)) == |item|
      && bytes[width..width + |item|] == item && bytes[width + |item|..] == tail
  {
    var bytes := Item(item, width) + tail;
    hide LoadU32, LoadU64, U32, U64;
    assert bytes[0..width] == Prefix(|item|, width);
    if width == 4 {
      LoadStoreU32(|item|, bytes, 0);
    } else {
      LoadStoreU64(|item|, bytes, 0);
    }
  }

  /** Every accepted request can be read back from its bytes alone. */
  lemma MoviRoundTrip(r: Movi)
    requires MoviAccepted(r)
    ensures DecodeMovi(MoviBytes(r)) == Some(r)
  {
    hide MoviAccepted, MoviBytes, LoadU32, U32, MoviHeader, Items, TakeItems;
    MoviSizes(r);
    MoviParts(r);
    var inputs := Items(r.inputs, 8);
    TakeWhatWasPut(r.arguments, 4, inputs);
    assert inputs + [] == inputs;
    TakeWhatWasPut(r.inputs, 8, []);
  }

  /** Header, path and items lie one after the other. */
  lemma MoviParts(r: Movi)
    requires MoviAccepted(r)
    ensures |r.arguments| <= U32_MAX && |r.inputs| <= U32_MAX && |r.path| <= U32_MAX
    ensures forall x :: x in r.arguments || x in r.inputs ==> |x| <= U32_MAX
    ensures
      var bytes := MoviBytes(r);
      && MOVI_HEADER + |r.path| <= |bytes| && bytes[MOVI_HEADER..MOVI_HEADER + |r.path|] == r.path
      && bytes[MOVI_HEADER + |r.path|..] == Items(r.arguments, 4) + Items(r.inputs, 8)
      && LoadU32(bytes, 0) == MOVI_MAGIC && LoadU32(bytes, 4) == MOVI_VERSION && LoadU32(bytes, 8) == r.stage
      && LoadU32(bytes, 12) == |r.arguments| && LoadU32(bytes, 16) == |r.inputs| && LoadU32(bytes, 20) == |r.path|
  {
    hide LoadU32, U32, MoviHeader, Items;
    MoviSizes(r);
    var bytes := MoviBytes(r);
    var h, items := MoviHeader(r), Items(r.arguments, 4) + Items(r.inputs, 8);
    assert bytes == h + r.path + items;
    HeaderFields(r, bytes);
    Cut(h, r.path, items);
  }

  lemma Cut(head: seq<Byte>, body: seq<Byte>, tail: seq<Byte>)
    ensures
      var all := head + body + tail;
      |all| == |head| + |body| + |tail| && all[|head|..|head| + |body|] == body && all[|head| + |body|..] == tail
  {
  }

  lemma HeaderFields(r: Movi, bytes: seq<Byte>)
    requires r.stage <= U32_MAX && |r.arguments| <= U32_MAX && |r.inputs| <= U32_MAX && |r.path| <= U32_MAX
    requires MoviHeader(r) <= bytes
    ensures |MoviHeader(r)| == MOVI_HEADER <= |bytes|
    ensures LoadU32(bytes, 0) == MOVI_MAGIC && LoadU32(bytes, 4) == MOVI_VERSION && LoadU32(bytes, 8) == r.stage
    ensures LoadU32(bytes, 12) == |r.arguments| && LoadU32(bytes, 16) == |r.inputs| && LoadU32(bytes, 20) == |r.path|
  {
    hide LoadU32, U32;
    var h := MoviHeader(r);
    assert bytes[..32] == h;
    assert bytes[0..4] == h[0..4] == U32(MOVI_MAGIC) && bytes[4..8] == h[4..8] == U32(MOVI_VERSION);
    assert bytes[8..12] == h[8..12] == U32(r.stage) && bytes[12..16] == h[12..16] == U32(|r.arguments|);
    assert bytes[16..20] == h[16..20] == U32(|r.inputs|) && bytes[20..24] == h[20..24] == U32(|r.path|);
    LoadStoreU32(MOVI_MAGIC, bytes, 0);
    LoadStoreU32(MOVI_VERSION, bytes, 4);
    LoadStoreU32(r.stage, bytes, 8);
    LoadStoreU32(|r.arguments|, bytes, 12);
    LoadStoreU32(|r.inputs|, bytes, 16);
    LoadStoreU32(|r.path|, bytes, 20);
  }

  /** Different accepted requests never have the same bytes. */
  lemma MoviInjective(a: Movi, b: Movi)
    requires MoviAccepted(a) && MoviAccepted(b)
    ensures MoviBytes(a) == MoviBytes(b) ==> a == b
  {
    MoviRoundTrip(a);
    MoviRoundTrip(b);
  }

  // ---------------------------------------------------------------------------------------------
  // The IR worker.

  const IR_MAGIC: nat := 0x4957504e
  const IR_VERSION: nat := 1
  const IR_HEADER: nat := 48
  const IR_MAX: nat := 256 * 1024 * 1024
  const IR_COMPILE: nat := 0
  const IR_QUERY: nat := 1

  datatype Ir = Ir(mode: nat, driver: nat, device: nat, xml: seq<Byte>, weights: seq<Byte>, flags: seq<Byte>)

  /** A compilation needs IR text; a query carries nothing; the build flags are a C string. */
  predicate IrAccepted(r: Ir) {
    && r.mode <= IR_QUERY && r.driver <= U32_MAX && r.device <= U32_MAX
    && (r.mode == IR_COMPILE ==> r.xml != [])
    && (r.mode == IR_QUERY ==> r.xml == [] && r.weights == [] && r.flags == [])
    && 0 !in r.flags && IR_HEADER + |r.xml| + |r.weights| + |r.flags| <= IR_MAX
  }

  function IrHeader(r: Ir): seq<Byte>
    requires IrAccepted(r)
  {
    U32(IR_MAGIC) + U32(IR_VERSION) + U32(r.driver) + U32(r.device) + U64(|r.xml|) + U64(|r.weights|)
    + U32(|r.flags|) + U32(r.mode) + RESERVED
  }

  function IrBytes(r: Ir): seq<Byte>
    requires IrAccepted(r)
  {
    IrHeader(r) + r.xml + (r.weights + r.flags)
  }

  method PutIrIdentity(data: array<Byte>, r: Ir) returns (offset: nat)
    requires IrAccepted(r) && data.Length >= IR_HEADER
    modifies data
    ensures offset == 16 && data[..16] == U32(IR_MAGIC) + U32(IR_VERSION) + U32(r.driver) + U32(r.device)
    ensures forall i :: 16 <= i < data.Length ==> data[i] == old(data[i])
  {
    hide U32;
    offset := Put(data, 0, U32(IR_MAGIC));
    offset := Put(data, offset, U32(IR_VERSION));
    offset := Put(data, offset, U32(r.driver));
    offset := Put(data, offset, U32(r.device));
  }

  method PutIrHeader(data: array<Byte>, r: Ir)
    requires IrAccepted(r) && data.Length >= IR_HEADER && forall i :: 0 <= i < IR_HEADER ==> data[i] == 0
    modifies data
    ensures data[..IR_HEADER] == IrHeader(r)
  {
    hide U32, U64;
    var offset := PutIrIdentity(data, r);
    offset := Put(data, offset, U64(|r.xml|));
    offset := Put(data, offset, U64(|r.weights|));
    offset := Put(data, offset, U32(|r.flags|));
    offset := Put(data, offset, U32(r.mode));
    HeaderEnds(data[..], 40);
  }

  method BuildIr(r: Ir) returns (request: seq<Byte>, ok: bool)
    requires r.driver <= U32_MAX && r.device <= U32_MAX
    requires |r.xml| <= SIZE_MAX && |r.weights| <= SIZE_MAX && |r.flags| <= SIZE_MAX
    ensures ok <==> IrAccepted(r)
    ensures ok ==> request == IrBytes(r)
  {
    var total := IrTotal(r);
    if total == None {
      return [], false;
    }
    var data := new Byte[total.value](_ => 0);
    PutIrHeader(data, r);
    hide IrHeader, IrAccepted;
    var offset := IR_HEADER;
    offset := Put(data, offset, r.xml);
    offset := Put(data, offset, r.weights);
    offset := Put(data, offset, r.flags);
    assert data[..offset] == data[..];
    Regroup(IrHeader(r) + r.xml, r.weights, r.flags);
    request, ok := data[..], true;
  }

  /** Validates the parts and computes the buffer size. */
  method IrTotal(r: Ir) returns (total: Option<nat>)
    requires r.driver <= U32_MAX && r.device <= U32_MAX
    requires |r.xml| <= SIZE_MAX && |r.weights| <= SIZE_MAX && |r.flags| <= SIZE_MAX
    ensures total == if IrAccepted(r) then Some(IR_HEADER + |r.xml| + |r.weights| + |r.flags|) else None
  {
    if r.mode > IR_QUERY || (r.mode == IR_COMPILE && r.xml == [])
      || (r.mode == IR_QUERY && (r.xml != [] || r.weights != [] || r.flags != []))
      || |r.flags| > U32_MAX || 0 in r.flags {
      return None;
    }
    total := CheckedAdd(IR_HEADER, |r.xml|);
    if total.Some? {
      total := CheckedAdd(total.value, |r.weights|);
    }
    if total.Some? {
      total := CheckedAdd(total.value, |r.flags|);
    }
    if total.Some? && total.value > IR_MAX {
      total := None;
    }
  }

  function DecodeIr(bytes: seq<Byte>): Option<Ir> {
    if |bytes| < IR_HEADER || LoadU32(bytes, 0) != IR_MAGIC || LoadU32(bytes, 4) != IR_VERSION then None
    else
      var xml, weights, flags := LoadU64(bytes, 16), LoadU64(bytes, 24), LoadU32(bytes, 32);
      if IR_HEADER + xml + weights + flags != |bytes| then None
      else
        var body := bytes[IR_HEADER..];
        Some(Ir(LoadU32(bytes, 36), LoadU32(bytes, 8), LoadU32(bytes, 12),
                body[..xml], body[xml..xml + weights], body[xml + weights..]))
  }

  lemma IrHeaderFields(r: Ir, bytes: seq<Byte>)
    requires IrAccepted(r) && IrHeader(r) <= bytes
    ensures |IrHeader(r)| == IR_HEADER <= |bytes|
    ensures LoadU32(bytes, 0) == IR_MAGIC && LoadU32(bytes, 4) == IR_VERSION && LoadU32(bytes, 8) == r.driver
    ensures LoadU32(bytes, 12) == r.device && LoadU64(bytes, 16) == |r.xml| && LoadU64(bytes, 24) == |r.weights|
    ensures LoadU32(bytes, 32) == |r.flags| && LoadU32(bytes, 36) == r.mode
  {
    hide LoadU32, LoadU64, U32, U64;
    var h := IrHeader(r);
    assert bytes[..48] == h;
    assert bytes[0..4] == h[0..4] == U32(IR_MAGIC) && bytes[4..8] == h[4..8] == U32(IR_VERSION);
    assert bytes[8..12] == h[8..12] == U32(r.driver) && bytes[12..16] == h[12..16] == U32(r.device);
    assert bytes[16..24] == h[16..24] == U64(|r.xml|) && bytes[24..32] == h[24..32] == U64(|r.weights|);
    assert bytes[32..36] == h[32..36] == U32(|r.flags|) && bytes[36..40] == h[36..40] == U32(r.mode);
    LoadStoreU32(IR_MAGIC, bytes, 0);
    LoadStoreU32(IR_VERSION, bytes, 4);
    LoadStoreU32(r.driver, bytes, 8);
    LoadStoreU32(r.device, bytes, 12);
    LoadStoreU64(|r.xml|, bytes, 16);
    LoadStoreU64(|r.weights|, bytes, 24);
    LoadStoreU32(|r.flags|, bytes, 32);
    LoadStoreU32(r.mode, bytes, 36);
  }

  /** Every accepted IR request, its mode and sizes included, can be read back from its bytes alone. */
  lemma IrRoundTrip(r: Ir)
    requires IrAccepted(r)
    ensures DecodeIr(IrBytes(r)) == Some(r)
  {
    hide IrBytes, IrHeader, IrAccepted, LoadU32, LoadU64;
    IrParts(r);
  }

  /** Header, text, weights and flags lie one after the other. */
  lemma IrParts(r: Ir)
    requires IrAccepted(r)
    ensures
      var bytes := IrBytes(r);
      && |bytes| == IR_HEADER + |r.xml| + |r.weights| + |r.flags|
      && LoadU32(bytes, 0) == IR_MAGIC && LoadU32(bytes, 4) == IR_VERSION && LoadU32(bytes, 8) == r.driver
      && LoadU32(bytes, 12) == r.device && LoadU64(bytes, 16) == |r.xml| && LoadU64(bytes, 24) == |r.weights|
      && LoadU32(bytes, 32) == |r.flags| && LoadU32(bytes, 36) == r.mode
      && var body := bytes[IR_HEADER..];
         && body[..|r.xml|] == r.xml && body[|r.xml|..|r.xml| + |r.weights|] == r.weights
         && body[|r.xml| + |r.weights|..] == r.flags
  {
    hide IrHeader, LoadU32, LoadU64;
    IrHeaderFields(r, IrBytes(r));
    BodyParts(IrHeader(r), r.xml, r.weights, r.flags);
  }

  lemma BodyParts(h: seq<Byte>, a: seq<Byte>, b: seq<Byte>, c: seq<Byte>)
    ensures
      var all := h + a + (b + c);
      var body := all[|h|..];
      && |all| == |h| + |a| + |b| + |c| && body[..|a|] == a && body[|a|..|a| + |b|] == b && body[|a| + |b|..] == c
  {
    assert (h + a + (b + c))[|h|..] == a + b + c;
  }
}
