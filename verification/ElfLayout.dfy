/**
 The smallest image the loader is for, written out byte by byte: an ELF header, one load segment, four section
 headers, the section names, and the code.
 */
module ElfLayout {
  import opened Bytes
  import opened Checked
  import opened LittleEndian
  import opened Elf32

  function Zeros(n: nat): (r: seq<Byte>)
    ensures |r| == n
  {
    seq(n, _ => 0)
  }

  /** A size in four bytes. */
  function Size(n: nat): (r: seq<Byte>)
    requires n < 0x1_0000_0000
    ensures |r| == 4
  {
    [n % 256, n / 0x100 % 256, n / 0x1_0000 % 256, n / 0x100_0000]
  }

  function Identification(): (r: seq<Byte>)
    ensures |r| == 16
  {
    [0x7f, 0x45, 0x4c, 0x46, 1, 1, 1, 0, 0, 0, 0, 0, 0, 0, 0, 0]
  }

  /** Executable for SPARC, entry 0x1d000000, segments at 52, sections at 84, four of them, names in the last. */
  function Fields(): (r: seq<Byte>)
    ensures |r| == 36
  {
    [2, 0, 2, 0, 1, 0, 0, 0, 0, 0, 0, 0x1d, 52, 0, 0, 0, 84, 0, 0, 0] + Zeros(4)
    + [52, 0, 32, 0, 1, 0, 40, 0, 4, 0, 3, 0]
  }

  /** File offset 272, address 0x1d000000, `n` bytes in the file and in memory, readable and executable. */
  function Segment(n: nat): (r: seq<Byte>)
    requires n < 0x1_0000_0000
    ensures |r| == 32
  {
    [1, 0, 0, 0, 16, 1, 0, 0, 0, 0, 0, 0x1d, 0, 0, 0, 0] + Size(n) + Size(n) + [5, 0, 0, 0, 0, 0, 0, 0]
  }

  function NullSection(): (r: seq<Byte>)
    ensures |r| == 40
  {
    Zeros(40)
  }

  /** Name at 1, program bits, allocated and executable, address 0x1d000000, the `n` bytes at 272. */
  function TextSection(n: nat): (r: seq<Byte>)
    requires n < 0x1_0000_0000
    ensures |r| == 40
  {
    [1, 0, 0, 0, 1, 0, 0, 0, 6, 0, 0, 0, 0, 0, 0, 0x1d, 16, 1, 0, 0] + Size(n) + Zeros(16)
  }

  /** Name at 7, no bits, allocated and writable, address 0x1e000000, empty. */
  function ArgSection(): (r: seq<Byte>)
    ensures |r| == 40
  {
    [7, 0, 0, 0, 8, 0, 0, 0, 3, 0, 0, 0, 0, 0, 0, 0x1e, 16, 1, 0, 0] + Zeros(20)
  }

  /** Name at 17, a string table, the 27 bytes at 244. */
  function NamesSection(): (r: seq<Byte>)
    ensures |r| == 40
  {
    [17, 0, 0, 0, 3, 0, 0, 0, 0, 0, 0, 0, 0, 0, 0, 0] + [244, 0, 0, 0, 27, 0, 0, 0] + Zeros(16)
  }

  /** An empty name, ".text", ".arg.data", ".shstrtab", each with its zero, and one byte to align. */
  function Names(): (r: seq<Byte>)
    ensures |r| == 28
  {
    [0, 46, 116, 101, 120, 116, 0] + [46, 97, 114, 103, 46, 100, 97, 116, 97, 0]
    + [46, 115, 104, 115, 116, 114, 116, 97, 98, 0, 0]
  }

  function Minimal(code: seq<Byte>): seq<Byte>
    requires |code| < 0x1_0000_0000
  {
    Identification() + Fields() + Segment(|code|) + NullSection() + TextSection(|code|) + ArgSection()
      + NamesSection() + Names() + code
  }

  ghost predicate Placed(elf: seq<Byte>, at: nat, part: seq<Byte>) {
    at + |part| <= |elf| && elf[at..at + |part|] == part
  }

  lemma LoadPlaced(elf: seq<Byte>, at: nat, part: seq<Byte>, k: nat)
    requires Placed(elf, at, part) && k + 4 <= |part|
    ensures LoadU32(elf, at + k) == LoadU32(part, k)
  {
    var slice := elf[at..at + |part|];
    assert elf[at + k] == slice[k] && elf[at + k + 1] == slice[k + 1] && elf[at + k + 2] == slice[k + 2]
        && elf[at + k + 3] == slice[k + 3];
  }

  lemma LoadPlaced16(elf: seq<Byte>, at: nat, part: seq<Byte>, k: nat)
    requires Placed(elf, at, part) && k + 2 <= |part|
    ensures LoadU16(elf, at + k) == LoadU16(part, k)
  {
    var slice := elf[at..at + |part|];
    assert elf[at + k] == slice[k] && elf[at + k + 1] == slice[k + 1];
  }

  /** Where the parts of the image lie. */
  ghost predicate LaidOut(elf: seq<Byte>, code: seq<Byte>)
    requires |code| < 0x1_0000_0000
  {
    && |elf| == 272 + |code| && Placed(elf, 0, Identification()) && Placed(elf, 16, Fields())
    && Placed(elf, 52, Segment(|code|))
    && Placed(elf, 84, NullSection()) && Placed(elf, 124, TextSection(|code|)) && Placed(elf, 164, ArgSection())
    && Placed(elf, 204, NamesSection()) && Placed(elf, 244, Names()) && Placed(elf, 272, code)
  }

  lemma MinimalIsLaidOut(code: seq<Byte>)
    requires |code| < 0x1_0000_0000
    ensures LaidOut(Minimal(code), code)
  {
    hide Identification, Fields, Segment, NullSection, TextSection, ArgSection, NamesSection, Names, Placed;
    Lay(Identification(), Fields(), Segment(|code|), NullSection(), TextSection(|code|), ArgSection(), NamesSection(),
        Names(), code);
  }

  lemma Lay(a: seq<Byte>, b: seq<Byte>, c: seq<Byte>, d: seq<Byte>, e: seq<Byte>, f: seq<Byte>, g: seq<Byte>,
            h: seq<Byte>, i: seq<Byte>)
    ensures
      var elf := a + b + c + d + e + f + g + h + i;
      && Placed(elf, 0, a) && Placed(elf, |a|, b) && Placed(elf, |a| + |b|, c) && Placed(elf, |a| + |b| + |c|, d)
      && Placed(elf, |a| + |b| + |c| + |d|, e) && Placed(elf, |a| + |b| + |c| + |d| + |e|, f)
      && Placed(elf, |a| + |b| + |c| + |d| + |e| + |f|, g) && Placed(elf, |a| + |b| + |c| + |d| + |e| + |f| + |g|, h)
      && Placed(elf, |a| + |b| + |c| + |d| + |e| + |f| + |g| + |h|, i)
  {
  }

  lemma HeaderReads(elf: seq<Byte>)
    requires Placed(elf, 0, Identification()) && Placed(elf, 16, Fields())
    ensures Identified(elf) && Executable(elf) && HeaderOf(elf) == Header(0x1d000000, 52, 84, 52, 32, 1, 40, 4, 3)
  {
    IdentifiedBy(elf);
    var fields := Fields();
    hide Fields, Identification, Placed, LoadU16, LoadU32;
    assert LoadU32(elf, 20) == LoadU32(fields, 4) by { LoadPlaced(elf, 16, fields, 4); }
    assert LoadU32(elf, 24) == LoadU32(fields, 8) by { LoadPlaced(elf, 16, fields, 8); }
    assert LoadU32(elf, 28) == LoadU32(fields, 12) by { LoadPlaced(elf, 16, fields, 12); }
    assert LoadU32(elf, 32) == LoadU32(fields, 16) by { LoadPlaced(elf, 16, fields, 16); }
    assert LoadU16(elf, 16) == LoadU16(fields, 0) by { LoadPlaced16(elf, 16, fields, 0); }
    assert LoadU16(elf, 18) == LoadU16(fields, 2) by { LoadPlaced16(elf, 16, fields, 2); }
    assert LoadU16(elf, 40) == LoadU16(fields, 24) by { LoadPlaced16(elf, 16, fields, 24); }
    assert LoadU16(elf, 42) == LoadU16(fields, 26) by { LoadPlaced16(elf, 16, fields, 26); }
    assert LoadU16(elf, 44) == LoadU16(fields, 28) by { LoadPlaced16(elf, 16, fields, 28); }
    assert LoadU16(elf, 46) == LoadU16(fields, 30) by { LoadPlaced16(elf, 16, fields, 30); }
    assert LoadU16(elf, 48) == LoadU16(fields, 32) by { LoadPlaced16(elf, 16, fields, 32); }
    assert LoadU16(elf, 50) == LoadU16(fields, 34) by { LoadPlaced16(elf, 16, fields, 34); }
    FieldValues();
  }

  lemma IdentifiedBy(elf: seq<Byte>)
    requires Placed(elf, 0, Identification()) && |elf| >= 52
    ensures Identified(elf)
  {
    assert elf[..7] == elf[0..16][..7];
  }

  lemma FieldValues()
    ensures
      var f := Fields();
      && LoadU16(f, 0) == 2 && LoadU16(f, 2) == 2 && LoadU32(f, 4) == 1 && LoadU32(f, 8) == 0x1d000000
      && LoadU32(f, 12) == 52 && LoadU32(f, 16) == 84 && LoadU16(f, 24) == 52 && LoadU16(f, 26) == 32
      && LoadU16(f, 28) == 1 && LoadU16(f, 30) == 40 && LoadU16(f, 32) == 4 && LoadU16(f, 34) == 3
  {
  }

  /** What a section header says, read from its own forty bytes. */
  function Described(part: seq<Byte>): Section
    requires |part| == 40
  {
    Section(LoadU32(part, 0), LoadU32(part, 4), LoadU32(part, 8), LoadU32(part, 12), LoadU32(part, 16),
            LoadU32(part, 20), LoadU32(part, 24), LoadU32(part, 36))
  }

  lemma SectionReads(elf: seq<Byte>, h: Header, k: nat, part: seq<Byte>)
    requires h.sectionTable == 84 && h.sectionEntry == 40 && |part| == 40 && Placed(elf, 84 + 40 * k, part)
    ensures HasSection(elf, h, k) && SectionOf(elf, h, k) == Described(part)
  {
    hide Placed, LoadU32;
    var at := 84 + 40 * k;
    assert SectionOffset(h, k) == at;
    assert at + 40 <= |elf| by { PlacedFits(elf, at, part); }
    LoadPlaced(elf, at, part, 0);
    LoadPlaced(elf, at, part, 4);
    LoadPlaced(elf, at, part, 8);
    LoadPlaced(elf, at, part, 12);
    LoadPlaced(elf, at, part, 16);
    LoadPlaced(elf, at, part, 20);
    LoadPlaced(elf, at, part, 24);
    LoadPlaced(elf, at, part, 36);
  }

  lemma PlacedFits(elf: seq<Byte>, at: nat, part: seq<Byte>)
    requires Placed(elf, at, part)
    ensures at + |part| <= |elf|
  {
  }

  lemma NullDescribed()
    ensures Described(NullSection()) == Section(0, 0, 0, 0, 0, 0, 0, 0)
  {
  }

  lemma TextDescribed(n: nat)
    requires n < 0x1_0000_0000
    ensures Described(TextSection(n)) == Section(1, 1, 6, 0x1d000000, 272, n, 0, 0)
  {
    Digits(n);
  }

  lemma ArgDescribed()
    ensures Described(ArgSection()) == Section(7, 8, 3, 0x1e000000, 272, 0, 0, 0)
  {
  }

  lemma NamesDescribed()
    ensures Described(NamesSection()) == Section(17, 3, 0, 0, 244, 27, 0, 0)
  {
  }

  /** The segment is loadable, readable and executable, and holds all of .text. */
  lemma SegmentReads(elf: seq<Byte>, h: Header, n: nat)
    requires n < 0x1_0000_0000 && |elf| == 272 + n && Placed(elf, 52, Segment(n))
    requires h.programTable == 52 && h.programEntry == 32 && h.programCount == 1
    ensures ProgramsOk(elf, h) && LoadsText(elf, h, Section(1, 1, 6, 0x1d000000, 272, n, 0, 0), 0)
  {
    var segment := Segment(n);
    hide Segment, Placed, LoadU32;
    SegmentValues(n);
    assert LoadU32(elf, 52) == 1 by { LoadPlaced(elf, 52, segment, 0); }
    assert LoadU32(elf, 56) == 272 by { LoadPlaced(elf, 52, segment, 4); }
    assert LoadU32(elf, 60) == 0x1d000000 by { LoadPlaced(elf, 52, segment, 8); }
    assert LoadU32(elf, 68) == n by { LoadPlaced(elf, 52, segment, 16); }
    assert LoadU32(elf, 72) == n by { LoadPlaced(elf, 52, segment, 20); }
    assert LoadU32(elf, 76) == 5 by { LoadPlaced(elf, 52, segment, 24); }
    OneSegment(elf, h, n);
  }

  lemma OneSegment(elf: seq<Byte>, h: Header, n: nat)
    requires |elf| == 272 + n && h.programTable == 52 && h.programEntry == 32 && h.programCount == 1
    requires LoadU32(elf, 52) == 1 && LoadU32(elf, 56) == 272 && LoadU32(elf, 60) == 0x1d000000
    requires LoadU32(elf, 68) == n && LoadU32(elf, 72) == n && LoadU32(elf, 76) == 5
    ensures ProgramsOk(elf, h) && LoadsText(elf, h, Section(1, 1, 6, 0x1d000000, 272, n, 0, 0), 0)
  {
    hide LoadU32, Bit;
    assert ProgramOk(elf, h, 0);
    assert Bit(5, 1) && Bit(5, 4) by { FiveHasBits(); }
  }

  lemma FiveHasBits()
    ensures Bit(5, 1) && Bit(5, 4)
  {
  }

  lemma SegmentValues(n: nat)
    requires n < 0x1_0000_0000
    ensures
      var s := Segment(n);
      && LoadU32(s, 0) == 1 && LoadU32(s, 4) == 272 && LoadU32(s, 8) == 0x1d000000 && LoadU32(s, 16) == n
      && LoadU32(s, 20) == n && LoadU32(s, 24) == 5
  {
    Digits(n);
  }

  /** The names lie at 244, byte by byte. */
  ghost predicate Spelled(elf: seq<Byte>) {
    && |elf| >= 272 && elf[244] == 0 && elf[245] == 46 && elf[246] == 116 && elf[247] == 101 && elf[248] == 120
    && elf[249] == 116 && elf[250] == 0 && elf[251] == 46 && elf[252] == 97 && elf[253] == 114 && elf[254] == 103
    && elf[255] == 46 && elf[256] == 100 && elf[257] == 97 && elf[258] == 116 && elf[259] == 97 && elf[260] == 0
    && elf[261] == 46 && elf[262] == 115 && elf[270] == 0
  }

  lemma NamesSpelled(elf: seq<Byte>)
    requires Placed(elf, 244, Names())
    ensures Spelled(elf)
  {
    var slice, names := elf[244..272], Names();
    TextBytes();
    ArgDataBytes();
    OtherBytes();
    hide Names;
    assert slice == names;
    forall k | 0 <= k < 28 ensures elf[244 + k] == names[k] {
      assert slice[k] == elf[244 + k];
    }
  }

  lemma TextBytes()
    ensures
      var n := Names();
      n[0] == 0 && n[1] == 46 && n[2] == 116 && n[3] == 101 && n[4] == 120 && n[5] == 116 && n[6] == 0
  {
  }

  lemma ArgDataBytes()
    ensures
      var n := Names();
      && n[7] == 46 && n[8] == 97 && n[9] == 114 && n[10] == 103 && n[11] == 46 && n[12] == 100 && n[13] == 97
      && n[14] == 116 && n[15] == 97 && n[16] == 0
  {
  }

  lemma OtherBytes()
    ensures Names()[17] == 46 && Names()[18] == 115 && Names()[26] == 0
  {
  }

  lemma NamesDecide(elf: seq<Byte>)
    requires Spelled(elf)
    ensures NameIs(elf, 245, TEXT) && NameIs(elf, 251, ARG_DATA)
    ensures !NameIs(elf, 244, TEXT) && !NameIs(elf, 251, TEXT) && !NameIs(elf, 261, TEXT)
    ensures !NameIs(elf, 244, ARG_DATA) && !NameIs(elf, 245, ARG_DATA) && !NameIs(elf, 261, ARG_DATA)
  {
    assert TEXT[0] == 46 && TEXT[1] == 116 && ARG_DATA[0] == 46 && ARG_DATA[1] == 97;
    assert elf[244 + 0] != 46;
    assert elf[251 + 1] != 116 && elf[261 + 1] != 116 && elf[245 + 1] != 97 && elf[261 + 1] != 97;
  }

  lemma SectionsAccepted(elf: seq<Byte>, h: Header, n: nat)
    requires 0 < n < 0x1_0000_0000 && |elf| == 272 + n && Spelled(elf)
    requires HasSection(elf, h, 0) && HasSection(elf, h, 1) && HasSection(elf, h, 2) && HasSection(elf, h, 3)
    requires SectionOf(elf, h, 0) == Section(0, 0, 0, 0, 0, 0, 0, 0)
    requires SectionOf(elf, h, 1) == Section(1, 1, 6, 0x1d000000, 272, n, 0, 0)
    requires SectionOf(elf, h, 2) == Section(7, 8, 3, 0x1e000000, 272, 0, 0, 0)
    requires SectionOf(elf, h, 3) == Section(17, 3, 0, 0, 244, 27, 0, 0)
    ensures forall k :: 0 <= k < 4 ==> SectionOk(elf, h, Section(17, 3, 0, 0, 244, 27, 0, 0), k)
  {
    var strings := Section(17, 3, 0, 0, 244, 27, 0, 0);
    forall offset | 0 <= offset <= 17 ensures StringAt(elf, strings, offset) {
    }
    hide StringAt, SectionOf, HasSection;
  }

  /** The text section is the one named .text, and the only one; likewise .arg.data. */
  lemma TextAndArgPlaced(elf: seq<Byte>, h: Header, n: nat)
    requires 0 < n && Spelled(elf) && h.entry == 0x1d000000 && h.sectionCount == 4
    requires HasSection(elf, h, 0) && HasSection(elf, h, 1) && HasSection(elf, h, 2) && HasSection(elf, h, 3)
    requires SectionOf(elf, h, 0) == Section(0, 0, 0, 0, 0, 0, 0, 0)
    requires SectionOf(elf, h, 1) == Section(1, 1, 6, 0x1d000000, 272, n, 0, 0)
    requires SectionOf(elf, h, 2) == Section(7, 8, 3, 0x1e000000, 272, 0, 0, 0)
    requires SectionOf(elf, h, 3) == Section(17, 3, 0, 0, 244, 27, 0, 0)
    ensures TextPlaced(elf, h, Section(17, 3, 0, 0, 244, 27, 0, 0), 1, 2)
  {
    hide SectionOf, HasSection, Spelled, NameIs;
    NamesDecide(elf);
  }

  /** The header as the image gives it. */
  function Expected(): Header {
    Header(0x1d000000, 52, 84, 52, 32, 1, 40, 4, 3)
  }

  lemma SectionsRead(elf: seq<Byte>, code: seq<Byte>)
    requires |code| < 0x1_0000_0000 && LaidOut(elf, code)
    ensures
      var h := Expected();
      && HasSection(elf, h, 0) && HasSection(elf, h, 1) && HasSection(elf, h, 2) && HasSection(elf, h, 3)
      && SectionOf(elf, h, 0) == Section(0, 0, 0, 0, 0, 0, 0, 0)
      && SectionOf(elf, h, 1) == Section(1, 1, 6, 0x1d000000, 272, |code|, 0, 0)
      && SectionOf(elf, h, 2) == Section(7, 8, 3, 0x1e000000, 272, 0, 0, 0)
      && SectionOf(elf, h, 3) == Section(17, 3, 0, 0, 244, 27, 0, 0)
  {
    hide Identification, Fields, Segment, NullSection, TextSection, ArgSection, NamesSection, Names, Placed;
    hide SectionOf, HasSection, Described;
    SectionReads(elf, Expected(), 0, NullSection());
    SectionReads(elf, Expected(), 1, TextSection(|code|));
    SectionReads(elf, Expected(), 2, ArgSection());
    SectionReads(elf, Expected(), 3, NamesSection());
    NullDescribed();
    TextDescribed(|code|);
    ArgDescribed();
    NamesDescribed();
  }

  lemma LaidOutIsAcceptable(elf: seq<Byte>, code: seq<Byte>)
    requires 0 < |code| < 0x1_0000_0000 && LaidOut(elf, code)
    ensures Acceptable(elf, 1, 2) && HeaderOf(elf) == Expected()
  {
    hide Identification, Fields, Segment, NullSection, TextSection, ArgSection, NamesSection, Names, Placed;
    hide SectionOf, HasSection, Identified, Executable, HeaderOf;
    SectionsRead(elf, code);
    HeaderReads(elf);
    var h := Expected();
    assert BodyOk(elf, h, Section(17, 3, 0, 0, 244, 27, 0, 0), 1, 2) by {
      hide SectionOk, TextPlaced, ProgramsOk, LoadsText, Spelled;
      NamesSpelled(elf);
      SectionsAccepted(elf, h, |code|);
      TextAndArgPlaced(elf, h, |code|);
      SegmentReads(elf, h, |code|);
    }
    hide BodyOk;
  }

  lemma CodeLast(elf: seq<Byte>, code: seq<Byte>)
    requires |elf| == 272 + |code| && Placed(elf, 272, code)
    ensures elf[272..] == code
  {
  }

  lemma AcceptedOnce(elf: seq<Byte>, text: nat, arg: nat, t: nat, a: nat)
    requires Acceptable(elf, text, arg) && Acceptable(elf, t, a)
    ensures t == text && a == arg
  {
    hide SectionOk, TextPlaced, ProgramsOk, Loads, SectionOf;
    var h := HeaderOf(elf);
    PlacedOnce(elf, h, SectionOf(elf, h, h.stringIndex), text, arg, t, a);
  }

  /**
   Every non-empty code makes an acceptable image, in one way only; so the parser accepts it and reports the
   text at 272, of the code's size: that code and nothing else.
   */
  lemma MinimalIsAcceptable(code: seq<Byte>)
    requires 0 < |code| < 0x1_0000_0000
    ensures
      var elf := Minimal(code);
      && |elf| == 272 + |code| && elf[272..] == code
      && (forall text: nat, arg: nat :: Acceptable(elf, text, arg) <==> text == 1 && arg == 2)
      && HasSection(elf, HeaderOf(elf), 1)
      && SectionOf(elf, HeaderOf(elf), 1).offset == 272 && SectionOf(elf, HeaderOf(elf), 1).size == |code|
  {
    var elf := Minimal(code);
    MinimalIsLaidOut(code);
    LaidOutIsAcceptable(elf, code);
    SectionsRead(elf, code);
    hide Minimal, Identification, Fields, Segment, NullSection, TextSection, ArgSection, NamesSection, Names;
    CodeLast(elf, code);
    hide Acceptable, SectionOf, HasSection, HeaderOf, Placed;
    forall text: nat, arg: nat | Acceptable(elf, text, arg) ensures text == 1 && arg == 2 {
      AcceptedOnce(elf, text, arg, 1, 2);
    }
  }

  /** What is asked of the two special sections and of the segment's flags, in numbers. */
  lemma RulesInNumbers(h: Header, s: Section, flags: nat)
    ensures TextOk(h, s) <==>
      && s.kind == 1 && s.size > 0 && s.flags % 4 >= 2 && s.flags % 8 >= 4
      && s.address == 0x1d000000 && h.entry == 0x1d000000
    ensures ArgDataOk(s) <==> s.address == 0x1e000000 && s.size == 0
    ensures Bit(flags, 1) && Bit(flags, 4) <==> flags % 2 == 1 && flags % 8 >= 4
  {
    BitsInNumbers(s.flags);
    BitsInNumbers(flags);
    hide Bit;
  }

  lemma BitsInNumbers(flags: nat)
    ensures Bit(flags, 1) <==> flags % 2 == 1
    ensures Bit(flags, 2) <==> flags % 4 >= 2
    ensures Bit(flags, 4) <==> flags % 8 >= 4
  {
  }
}
