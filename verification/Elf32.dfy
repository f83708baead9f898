/**
 Validation of a linked SHAVE image: an ELF32 little-endian executable (System V ABI, chapter 4, "Object
 Files") with one loadable .text at the ACT address and one empty .arg.data.
 */
module Elf32 {
  import opened Wrappers
  import opened Bytes
  import opened Checked
  import opened LittleEndian

  const HEADER_SIZE := 52
  const SECTION_SIZE := 40
  const PROGRAM_SIZE := 32
  const SYMBOL_SIZE := 16
  const TYPE_EXEC := 2
  const MACHINE_SPARC := 2
  const PROGBITS := 1
  const SYMTAB := 2
  const STRTAB := 3
  const RELA := 4
  const NOBITS := 8
  const REL := 9
  const LOAD := 1
  const TEXT_ADDRESS := 0x1d000000
  const ARG_ADDRESS := 0x1e000000

  const TEXT: seq<Byte> := [46, 116, 101, 120, 116]                          // ".text"
  const ARG_DATA: seq<Byte> := [46, 97, 114, 103, 46, 100, 97, 116, 97]      // ".arg.data"

  datatype Section = Section(
    name: nat, kind: nat, flags: nat, address: nat, offset: nat, size: nat, link: nat, entrySize: nat)

  datatype Header = Header(
    entry: nat, programTable: nat, sectionTable: nat, headerSize: nat, programEntry: nat, programCount: nat,
    sectionEntry: nat, sectionCount: nat, stringIndex: nat)

  datatype Image = Image(fileOffset: nat, size: nat, address: nat, entry: nat)

  datatype Result = Ok(image: Image) | Malformed | Unsupported

  predicate Bit(value: nat, weight: nat)
    requires weight > 0
  {
    value / weight % 2 == 1
  }

  /** A range check that cannot overflow, and what it means. */
  predicate InFile(total: nat, offset: nat, size: nat)
    ensures InFile(total, offset, size) <==> offset + size <= total
  {
    offset <= total && size <= total - offset
  }

  // ---------------------------------------------------------------------------------------------
  // The declarative predicate.

  function HeaderOf(elf: seq<Byte>): Header
    requires |elf| >= HEADER_SIZE
  {
    Header(LoadU32(elf, 24), LoadU32(elf, 28), LoadU32(elf, 32), LoadU16(elf, 40), LoadU16(elf, 42),
           LoadU16(elf, 44), LoadU16(elf, 46), LoadU16(elf, 48), LoadU16(elf, 50))
  }

  predicate Identified(elf: seq<Byte>) {
    |elf| >= HEADER_SIZE && elf[..7] == [0x7f, 69, 76, 70, 1, 1, 1]
  }

  predicate Executable(elf: seq<Byte>)
    requires |elf| >= HEADER_SIZE
  {
    LoadU16(elf, 16) == TYPE_EXEC && LoadU16(elf, 18) == MACHINE_SPARC && LoadU32(elf, 20) == 1
  }

  predicate TablesInFile(elf: seq<Byte>, h: Header) {
    && h.headerSize >= HEADER_SIZE && (h.programCount != 0 ==> h.programEntry >= PROGRAM_SIZE)
    && h.sectionEntry >= SECTION_SIZE && h.sectionCount != 0 && h.stringIndex < h.sectionCount
    && h.sectionTable + h.sectionEntry * h.sectionCount <= |elf|
    && (h.programCount != 0 ==> h.programTable + h.programEntry * h.programCount <= |elf|)
  }

  function SectionOffset(h: Header, k: nat): nat {
    h.sectionTable + k * h.sectionEntry
  }

  predicate HasSection(elf: seq<Byte>, h: Header, k: nat) {
    SectionOffset(h, k) + SECTION_SIZE <= |elf|
  }

  function SectionOf(elf: seq<Byte>, h: Header, k: nat): Section
    requires HasSection(elf, h, k)
  {
    var at := SectionOffset(h, k);
    Section(LoadU32(elf, at), LoadU32(elf, at + 4), LoadU32(elf, at + 8), LoadU32(elf, at + 12), LoadU32(elf, at + 16),
            LoadU32(elf, at + 20), LoadU32(elf, at + 24), LoadU32(elf, at + 36))
  }

  /** A terminated string starts at `offset` of the string section. */
  ghost predicate StringAt(elf: seq<Byte>, strings: Section, offset: nat) {
    && offset < strings.size && strings.offset + strings.size <= |elf|
    && exists j :: strings.offset + offset <= j < strings.offset + strings.size && elf[j] == 0
  }

  /** The terminated bytes at `start` are exactly `text`. */
  predicate NameIs(elf: seq<Byte>, start: nat, text: seq<Byte>) {
    start + |text| < |elf| && (forall k :: 0 <= k < |text| ==> elf[start + k] == text[k]) && elf[start + |text|] == 0
  }

  ghost predicate SymbolOk(elf: seq<Byte>, symbols: Section, strings: Section, i: nat) {
    var at := symbols.offset + i * SYMBOL_SIZE;
    && at + SYMBOL_SIZE <= |elf|
    && (LoadU32(elf, at) != 0 ==> StringAt(elf, strings, LoadU32(elf, at)) && LoadU16(elf, at + 14) != 0)
  }

  /** A symbol table without named undefined symbols. */
  ghost predicate SymbolsOk(elf: seq<Byte>, h: Header, symbols: Section) {
    && symbols.entrySize == SYMBOL_SIZE && symbols.size % SYMBOL_SIZE == 0 && symbols.link < h.sectionCount
    && HasSection(elf, h, symbols.link) && SectionOf(elf, h, symbols.link).kind == STRTAB
    && forall i :: 1 <= i < symbols.size / SYMBOL_SIZE ==> SymbolOk(elf, symbols, SectionOf(elf, h, symbols.link), i)
  }

  ghost predicate SectionOk(elf: seq<Byte>, h: Header, strings: Section, k: nat) {
    && HasSection(elf, h, k)
    && var s := SectionOf(elf, h, k);
       && (s.kind != NOBITS ==> s.offset + s.size <= |elf|) && StringAt(elf, strings, s.name)
       && (s.kind == REL || s.kind == RELA ==> s.size == 0) && (s.kind == SYMTAB ==> SymbolsOk(elf, h, s))
  }

  ghost predicate Named(elf: seq<Byte>, h: Header, strings: Section, k: nat, text: seq<Byte>) {
    HasSection(elf, h, k) && NameIs(elf, strings.offset + SectionOf(elf, h, k).name, text)
  }

  /** `k` is the one section with this name. */
  ghost predicate Only(elf: seq<Byte>, h: Header, strings: Section, k: nat, text: seq<Byte>) {
    k < h.sectionCount && Named(elf, h, strings, k, text)
    && forall i :: 0 <= i < h.sectionCount && i != k ==> !Named(elf, h, strings, i, text)
  }

  predicate TextOk(h: Header, text: Section) {
    text.kind == PROGBITS && text.size != 0 && Bit(text.flags, 2) && Bit(text.flags, 4)
    && text.address == TEXT_ADDRESS == h.entry
  }

  predicate ArgDataOk(section: Section) {
    section.address == ARG_ADDRESS && section.size == 0
  }

  ghost predicate ProgramOk(elf: seq<Byte>, h: Header, i: nat) {
    var at := h.programTable + i * h.programEntry;
    && at + PROGRAM_SIZE <= |elf|
    && LoadU32(elf, at + 16) <= LoadU32(elf, at + 20) && LoadU32(elf, at + 4) + LoadU32(elf, at + 16) <= |elf|
  }

  /** An R+X load segment whose file extent and memory extent each contain .text. */
  ghost predicate LoadsText(elf: seq<Byte>, h: Header, text: Section, i: nat) {
    var at := h.programTable + i * h.programEntry;
    && at + PROGRAM_SIZE <= |elf|
    && LoadU32(elf, at) == LOAD && Bit(LoadU32(elf, at + 24), 1) && Bit(LoadU32(elf, at + 24), 4)
    && LoadU32(elf, at + 4) <= text.offset && text.offset + text.size <= LoadU32(elf, at + 4) + LoadU32(elf, at + 16)
    && LoadU32(elf, at + 8) <= text.address && text.address + text.size <= LoadU32(elf, at + 8) + LoadU32(elf, at + 20)
  }

  /** The part of the predicate about sections and segments. */
  ghost predicate BodyOk(elf: seq<Byte>, h: Header, strings: Section, text: nat, arg: nat) {
    && (forall k :: 0 <= k < h.sectionCount ==> SectionOk(elf, h, strings, k))
    && TextPlaced(elf, h, strings, text, arg) && ProgramsOk(elf, h) && Loads(elf, h, text)
  }

  /** The only .text and the only .arg.data section, both as the contract wants them. */
  ghost predicate TextPlaced(elf: seq<Byte>, h: Header, strings: Section, text: nat, arg: nat) {
    && Only(elf, h, strings, text, TEXT) && Only(elf, h, strings, arg, ARG_DATA)
    && TextOk(h, SectionOf(elf, h, text)) && ArgDataOk(SectionOf(elf, h, arg))
  }

  ghost predicate ProgramsOk(elf: seq<Byte>, h: Header) {
    forall i :: 0 <= i < h.programCount ==> ProgramOk(elf, h, i)
  }

  /** Some segment loads the section. */
  ghost predicate Loads(elf: seq<Byte>, h: Header, text: nat) {
    HasSection(elf, h, text) && exists i :: 0 <= i < h.programCount && LoadsText(elf, h, SectionOf(elf, h, text), i)
  }

  /** The acceptable images, with the positions of their .text and .arg.data sections. */
  ghost predicate Acceptable(elf: seq<Byte>, text: nat, arg: nat) {
    && Identified(elf) && Executable(elf)
    && var h := HeaderOf(elf);
       && TablesInFile(elf, h) && HasSection(elf, h, h.stringIndex)
       && var strings := SectionOf(elf, h, h.stringIndex);
          strings.kind == STRTAB && strings.offset + strings.size <= |elf| && BodyOk(elf, h, strings, text, arg)
  }

  // ---------------------------------------------------------------------------------------------
  // Which refusal: the first fault in file order decides between malformed and unsupported.

  /** The symbol lies in the file and its name, if any, is a terminated string. */
  ghost predicate SymbolShaped(elf: seq<Byte>, symbols: Section, strings: Section, i: nat) {
    var at := symbols.offset + i * SYMBOL_SIZE;
    at + SYMBOL_SIZE <= |elf| && (LoadU32(elf, at) != 0 ==> StringAt(elf, strings, LoadU32(elf, at)))
  }

  ghost predicate SymbolTableShaped(elf: seq<Byte>, h: Header, symbols: Section) {
    && symbols.entrySize == SYMBOL_SIZE && symbols.size % SYMBOL_SIZE == 0 && symbols.link < h.sectionCount
    && HasSection(elf, h, symbols.link) && SectionOf(elf, h, symbols.link).kind == STRTAB
  }

  /** Symbol `i` is the first that is not in order; a well-shaped one is a named undefined symbol. */
  ghost predicate FirstBadSymbol(elf: seq<Byte>, symbols: Section, strings: Section, i: nat, status: Result) {
    && 1 <= i < symbols.size / SYMBOL_SIZE && !SymbolOk(elf, symbols, strings, i)
    && (forall j :: 1 <= j < i ==> SymbolOk(elf, symbols, strings, j))
    && status == if SymbolShaped(elf, symbols, strings, i) then Unsupported else Malformed
  }

  ghost predicate SymbolsFail(elf: seq<Byte>, h: Header, symbols: Section, status: Result) {
    if !SymbolTableShaped(elf, h, symbols) then status == Malformed
    else exists i :: FirstBadSymbol(elf, symbols, SectionOf(elf, h, symbols.link), i, status)
  }

  ghost predicate SectionShaped(elf: seq<Byte>, h: Header, strings: Section, k: nat) {
    && HasSection(elf, h, k)
    && var s := SectionOf(elf, h, k);
       (s.kind != NOBITS ==> s.offset + s.size <= |elf|) && StringAt(elf, strings, s.name)
  }

  ghost predicate SectionFails(elf: seq<Byte>, h: Header, strings: Section, k: nat, status: Result) {
    if !SectionShaped(elf, h, strings, k) then status == Malformed
    else
      var s := SectionOf(elf, h, k);
      if (s.kind == REL || s.kind == RELA) && s.size != 0 then status == Unsupported
      else s.kind == SYMTAB && SymbolsFail(elf, h, s, status)
  }

  /** No name of a special section occurs twice among the first `n` sections. */
  ghost predicate NoneRepeated(elf: seq<Byte>, h: Header, strings: Section, n: nat) {
    forall i, j :: 0 <= i < j < n ==>
      !(Named(elf, h, strings, i, TEXT) && Named(elf, h, strings, j, TEXT))
      && !(Named(elf, h, strings, i, ARG_DATA) && Named(elf, h, strings, j, ARG_DATA))
  }

  ghost predicate SectionsOk(elf: seq<Byte>, h: Header, strings: Section, n: nat) {
    (forall k :: 0 <= k < n ==> SectionOk(elf, h, strings, k)) && NoneRepeated(elf, h, strings, n)
  }

  /** Section `k` is the first that is not in order, or repeats a special name. */
  ghost predicate FirstBadSection(elf: seq<Byte>, h: Header, strings: Section, k: nat, status: Result) {
    && k < h.sectionCount && SectionsOk(elf, h, strings, k)
    && if SectionOk(elf, h, strings, k) then !NoneRepeated(elf, h, strings, k + 1) && status == Malformed
       else SectionFails(elf, h, strings, k, status)
  }

  /** The refusal after the section-name table: bad sections, then .text and .arg.data, then segments. */
  ghost predicate BodyRefused(elf: seq<Byte>, h: Header, strings: Section, status: Result) {
    if !SectionsOk(elf, h, strings, h.sectionCount) then
      exists k :: FirstBadSection(elf, h, strings, k, status)
    else if !exists text: nat, arg: nat :: TextPlaced(elf, h, strings, text, arg) then status == Unsupported
    else if !ProgramsOk(elf, h) then status == Malformed
    else (!exists text: nat, arg: nat :: BodyOk(elf, h, strings, text, arg)) && status == Unsupported
  }

  ghost predicate Refused(elf: seq<Byte>, status: Result) {
    if !Identified(elf) then status == Malformed
    else if !Executable(elf) then status == Unsupported
    else
      var h := HeaderOf(elf);
      if !TablesInFile(elf, h) || !HasSection(elf, h, h.stringIndex) then status == Malformed
      else
        var strings := SectionOf(elf, h, h.stringIndex);
        if strings.kind != STRTAB || strings.offset + strings.size > |elf| then status == Malformed
        else BodyRefused(elf, h, strings, status)
  }

  lemma FailingSymbols(elf: seq<Byte>, h: Header, symbols: Section, status: Result)
    requires SymbolsFail(elf, h, symbols, status)
    ensures !SymbolsOk(elf, h, symbols) && (status == Malformed || status == Unsupported)
  {
    hide SymbolOk, SymbolShaped;
  }

  lemma SectionFailsOneWay(elf: seq<Byte>, h: Header, strings: Section, k: nat, a: Result, b: Result)
    requires SectionFails(elf, h, strings, k, a) && SectionFails(elf, h, strings, k, b)
    ensures a == b
  {
    hide SymbolOk, SymbolShaped, StringAt;
    if SectionShaped(elf, h, strings, k) {
      var s := SectionOf(elf, h, k);
      if s.kind == SYMTAB && SymbolTableShaped(elf, h, s) && SymbolsFail(elf, h, s, a) && SymbolsFail(elf, h, s, b) {
        var names := SectionOf(elf, h, s.link);
        var i :| FirstBadSymbol(elf, s, names, i, a);
        var j :| FirstBadSymbol(elf, s, names, j, b);
        assert i == j;
      }
    }
  }

  /** The refusal is determined by the bytes. */
  lemma RefusalIsDetermined(elf: seq<Byte>, a: Result, b: Result)
    requires Refused(elf, a) && Refused(elf, b)
    ensures a == b
  {
    hide SectionOk, SectionFails, NoneRepeated, BodyOk, TextPlaced, ProgramsOk, TablesInFile;
    if Identified(elf) && Executable(elf) {
      var h := HeaderOf(elf);
      if TablesInFile(elf, h) && HasSection(elf, h, h.stringIndex) {
        var strings := SectionOf(elf, h, h.stringIndex);
        if strings.kind == STRTAB && strings.offset + strings.size <= |elf|
          && !SectionsOk(elf, h, strings, h.sectionCount) {
          var i :| FirstBadSection(elf, h, strings, i, a);
          var j :| FirstBadSection(elf, h, strings, j, b);
          FirstFaultIsFirst(elf, h, strings, i, a, j, b);
          FirstFaultIsFirst(elf, h, strings, j, b, i, a);
        }
      }
    }
  }

  lemma FirstFaultIsFirst(elf: seq<Byte>, h: Header, strings: Section, i: nat, a: Result, j: nat, b: Result)
    requires FirstBadSection(elf, h, strings, i, a) && FirstBadSection(elf, h, strings, j, b)
    ensures j <= i && (i == j ==> a == b)
  {
    hide SectionOk, SectionFails, Named;
    if i < j {
      NoneRepeatedPrefix(elf, h, strings, i + 1, j);
    } else if i == j && !SectionOk(elf, h, strings, i) {
      SectionFailsOneWay(elf, h, strings, i, a, b);
    }
  }

  lemma NoneRepeatedPrefix(elf: seq<Byte>, h: Header, strings: Section, n: nat, m: nat)
    requires n <= m && NoneRepeated(elf, h, strings, m)
    ensures NoneRepeated(elf, h, strings, n)
  {
    hide Named;
  }

  // ---------------------------------------------------------------------------------------------
  // The parser.

  method ReadSection(elf: seq<Byte>, h: Header, k: nat) returns (section: Option<Section>)
    requires |elf| <= SIZE_MAX && h.sectionTable < 0x1_0000_0000 && h.sectionEntry < 0x1_0000 && k < 0x1_0000
    ensures section == if HasSection(elf, h, k) then Some(SectionOf(elf, h, k)) else None
  {
    SmallProduct(k, h.sectionEntry);
    var relative := CheckedMul(k, h.sectionEntry);
    if relative == None {
      return None;
    }
    var offset := CheckedAdd(h.sectionTable, relative.value);
    if offset == None || !InFile(|elf|, offset.value, SECTION_SIZE) {
      return None;
    }
    section := Some(SectionOf(elf, h, k));
  }

  method FindString(elf: seq<Byte>, strings: Section, offset: nat) returns (found: bool)
    ensures found <==> StringAt(elf, strings, offset)
  {
    if offset >= strings.size || !InFile(|elf|, strings.offset, strings.size) {
      return false;
    }
    for j := strings.offset + offset to strings.offset + strings.size
      invariant forall i :: strings.offset + offset <= i < j ==> elf[i] != 0
    {
      if elf[j] == 0 {
        return true;
      }
    }
    found := false;
  }

  /** strcmp against a constant, on a string known to be terminated inside the file. */
  method NameEquals(elf: seq<Byte>, start: nat, text: seq<Byte>) returns (equal: bool)
    requires 0 !in text && exists j :: start <= j < |elf| && elf[j] == 0
    ensures equal <==> NameIs(elf, start, text)
  {
    ghost var end :| start <= end < |elf| && elf[end] == 0;
    for i := 0 to |text|
      invariant start + i <= end && forall k :: 0 <= k < i ==> elf[start + k] == text[k]
    {
      assert text[i] in text;
      if elf[start + i] != text[i] {
        return false;
      }
    }
    equal := elf[start + |text|] == 0;
  }

  method ValidateSymbols(elf: seq<Byte>, h: Header, symbols: Section) returns (failure: Option<Result>)
    requires |elf| <= SIZE_MAX && h.sectionTable < 0x1_0000_0000 && h.sectionEntry < 0x1_0000
    requires h.sectionCount < 0x1_0000
    requires symbols.size < 0x1_0000_0000 && symbols.offset < 0x1_0000_0000
    ensures failure == None <==> SymbolsOk(elf, h, symbols)
    ensures failure.Some? ==> SymbolsFail(elf, h, symbols, failure.value)
  {
    if symbols.entrySize != SYMBOL_SIZE || symbols.size % SYMBOL_SIZE != 0 || symbols.link >= h.sectionCount {
      return Some(Malformed);
    }
    var strings := ReadSection(elf, h, symbols.link);
    if strings == None || strings.value.kind != STRTAB {
      return Some(Malformed);
    }
    var i := 1;
    while i < symbols.size / SYMBOL_SIZE
      invariant 1 <= i
      invariant forall k :: 1 <= k < i ==> SymbolOk(elf, symbols, strings.value, k)
    {
      SmallProduct(i, SYMBOL_SIZE);
      var relative := CheckedMul(i, SYMBOL_SIZE);
      var offset := CheckedAdd(symbols.offset, relative.value);
      if offset == None || !InFile(|elf|, offset.value, SYMBOL_SIZE) {
        assert FirstBadSymbol(elf, symbols, strings.value, i, Malformed);
        return Some(Malformed);
      }
      var name := LoadU32(elf, offset.value);
      var sectionIndex := LoadU16(elf, offset.value + 14);
      var found := FindString(elf, strings.value, name);
      if name != 0 && !found {
        assert FirstBadSymbol(elf, symbols, strings.value, i, Malformed);
        return Some(Malformed);
      }
      if name != 0 && sectionIndex == 0 {
        assert FirstBadSymbol(elf, symbols, strings.value, i, Unsupported);
        return Some(Unsupported);
      }
      i := i + 1;
    }
    failure := None;
  }

  /** What the section loop learns: the positions of the two special sections, if present. */
  method ScanSections(elf: seq<Byte>, h: Header, strings: Section)
    returns (failure: Option<Result>, text: Option<nat>, arg: Option<nat>)
    requires |elf| <= SIZE_MAX && h.sectionTable < 0x1_0000_0000 && h.sectionEntry < 0x1_0000
    requires h.sectionCount < 0x1_0000
    ensures failure.Some? ==> exists k :: FirstBadSection(elf, h, strings, k, failure.value)
    ensures failure == None ==>
      && SectionsOk(elf, h, strings, h.sectionCount)
      && Located(elf, h, strings, h.sectionCount, text, TEXT) && Located(elf, h, strings, h.sectionCount, arg, ARG_DATA)
  {
    text, arg := None, None;
    for k := 0 to h.sectionCount
      invariant SectionsOk(elf, h, strings, k)
      invariant Located(elf, h, strings, k, text, TEXT) && Located(elf, h, strings, k, arg, ARG_DATA)
    {
      var isText, isArg;
      failure, isText, isArg := ScanSection(elf, h, strings, k);
      if failure.Some? {
        assert FirstBadSection(elf, h, strings, k, failure.value);
        return;
      }
      if (isText && text.Some?) || (isArg && arg.Some?) {
        RepeatedName(elf, h, strings, k, text, arg);
        assert FirstBadSection(elf, h, strings, k, Malformed);
        failure := Some(Malformed);
        return;
      }
      LocatedGrows(elf, h, strings, k, text, arg);
      if isText {
        text := Some(k);
      } else if isArg {
        arg := Some(k);
      }
    }
    failure := None;
  }

  lemma RepeatedName(elf: seq<Byte>, h: Header, strings: Section, k: nat, text: Option<nat>, arg: Option<nat>)
    requires Located(elf, h, strings, k, text, TEXT) && Located(elf, h, strings, k, arg, ARG_DATA)
    requires (Named(elf, h, strings, k, TEXT) && text.Some?) || (Named(elf, h, strings, k, ARG_DATA) && arg.Some?)
    ensures !NoneRepeated(elf, h, strings, k + 1)
  {
    hide Named;
    if Named(elf, h, strings, k, TEXT) && text.Some? {
      assert Named(elf, h, strings, text.value, TEXT);
    } else {
      assert Named(elf, h, strings, arg.value, ARG_DATA);
    }
  }

  lemma LocatedGrows(elf: seq<Byte>, h: Header, strings: Section, k: nat, text: Option<nat>, arg: Option<nat>)
    requires Located(elf, h, strings, k, text, TEXT) && Located(elf, h, strings, k, arg, ARG_DATA)
    requires NoneRepeated(elf, h, strings, k)
    requires !(Named(elf, h, strings, k, TEXT) && text.Some?) && !(Named(elf, h, strings, k, ARG_DATA) && arg.Some?)
    ensures NoneRepeated(elf, h, strings, k + 1)
    ensures Located(elf, h, strings, k + 1, if Named(elf, h, strings, k, TEXT) then Some(k) else text, TEXT)
    ensures Located(elf, h, strings, k + 1, if Named(elf, h, strings, k, ARG_DATA) then Some(k) else arg, ARG_DATA)
  {
    hide Named;
  }

  /** Among the first `n` sections, the one named `name` is at `position`, or there is none. */
  ghost predicate Located(elf: seq<Byte>, h: Header, strings: Section, n: nat, position: Option<nat>, name: seq<Byte>) {
    if position.Some? then
      position.value < n && Named(elf, h, strings, position.value, name)
      && forall i :: 0 <= i < n && i != position.value ==> !Named(elf, h, strings, i, name)
    else forall i :: 0 <= i < n ==> !Named(elf, h, strings, i, name)
  }

  method ScanSection(elf: seq<Byte>, h: Header, strings: Section, k: nat)
    returns (failure: Option<Result>, isText: bool, isArg: bool)
    requires |elf| <= SIZE_MAX && h.sectionTable < 0x1_0000_0000 && h.sectionEntry < 0x1_0000
    requires h.sectionCount < 0x1_0000
    requires k < h.sectionCount
    ensures failure == None <==> SectionOk(elf, h, strings, k)
    ensures failure.Some? ==> SectionFails(elf, h, strings, k, failure.value)
    ensures failure == None ==>
      isText == Named(elf, h, strings, k, TEXT) && isArg == Named(elf, h, strings, k, ARG_DATA) && !(isText && isArg)
  {
    failure, isText, isArg := None, false, false;
    var read := ReadSection(elf, h, k);
    if read == None || (read.value.kind != NOBITS && !InFile(|elf|, read.value.offset, read.value.size)) {
      failure := Some(Malformed);
      return;
    }
    var section := read.value;
    var named := FindString(elf, strings, section.name);
    if !named {
      failure := Some(Malformed);
      return;
    }
    if (section.kind == REL || section.kind == RELA) && section.size != 0 {
      failure := Some(Unsupported);
      return;
    }
    if section.kind == SYMTAB {
      failure := ValidateSymbols(elf, h, section);
      if failure.Some? {
        return;
      }
    }
    var start := strings.offset + section.name;
    isText := NameEquals(elf, start, TEXT);
    isArg := NameEquals(elf, start, ARG_DATA);
    NamesDiffer(elf, start);
  }

  lemma NamesDiffer(elf: seq<Byte>, start: nat)
    ensures !(NameIs(elf, start, TEXT) && NameIs(elf, start, ARG_DATA))
  {
    assert TEXT[1] != ARG_DATA[1];
  }

  method ScanPrograms(elf: seq<Byte>, h: Header, text: Section) returns (failure: Option<Result>, loadable: bool)
    requires |elf| <= SIZE_MAX && h.programTable < 0x1_0000_0000 && h.programEntry < 0x1_0000
    requires h.programCount < 0x1_0000
    ensures failure == None || failure == Some(Malformed)
    ensures failure == None <==> ProgramsOk(elf, h)
    ensures failure == None ==> (loadable <==> exists i :: 0 <= i < h.programCount && LoadsText(elf, h, text, i))
  {
    loadable := false;
    for i := 0 to h.programCount
      invariant forall k :: 0 <= k < i ==> ProgramOk(elf, h, k)
      invariant loadable <==> exists k :: 0 <= k < i && LoadsText(elf, h, text, k)
    {
      SmallProduct(i, h.programEntry);
      var offset := CheckedAdd(h.programTable, i * h.programEntry);
      if offset == None || !InFile(|elf|, offset.value, PROGRAM_SIZE) {
        assert !ProgramOk(elf, h, i);
        return Some(Malformed), false;
      }
      var at := offset.value;
      var fileOffset, virtualAddress := LoadU32(elf, at + 4), LoadU32(elf, at + 8);
      var fileSize, memorySize, flags := LoadU32(elf, at + 16), LoadU32(elf, at + 20), LoadU32(elf, at + 24);
      if fileSize > memorySize || !InFile(|elf|, fileOffset, fileSize) {
        assert !ProgramOk(elf, h, i);
        return Some(Malformed), false;
      }
      if LoadU32(elf, at) == LOAD && Bit(flags, 1) && Bit(flags, 4) && text.offset >= fileOffset
        && text.address >= virtualAddress
        && InFile(fileSize, text.offset - fileOffset, text.size)
        && InFile(memorySize, text.address - virtualAddress, text.size)
      {
        assert LoadsText(elf, h, text, i);
        loadable := true;
      } else {
        assert !LoadsText(elf, h, text, i);
      }
    }
    failure := None;
  }

  /**
   Accepts exactly the acceptable images, and reports the extent of their .text.  Every index the parser
   uses is inside the view.
   */
  method ParseShaveElf(elf: seq<Byte>) returns (result: Result)
    requires |elf| <= SIZE_MAX
    ensures result.Ok? <==> exists text: nat, arg: nat :: Acceptable(elf, text, arg)
    ensures result.Ok? ==> exists text: nat, arg: nat ::
      Acceptable(elf, text, arg)
      && var h := HeaderOf(elf); var s := SectionOf(elf, h, text);
         result.image == Image(s.offset, s.size, TEXT_ADDRESS, TEXT_ADDRESS)
    ensures !result.Ok? ==> Refused(elf, result)
  {
    hide BodyOk, SectionOf, CheckedAdd, BodyRefused;
    if !Identified(elf) {
      return Malformed;
    }
    if !Executable(elf) {
      return Unsupported;
    }
    var h := HeaderOf(elf);
    SmallProduct(h.sectionEntry, h.sectionCount);
    SmallProduct(h.programEntry, h.programCount);
    if h.headerSize < HEADER_SIZE || (h.programCount != 0 && h.programEntry < PROGRAM_SIZE)
      || h.sectionEntry < SECTION_SIZE || h.sectionCount == 0 || h.stringIndex >= h.sectionCount
      || CheckedMul(h.sectionEntry, h.sectionCount) == None
      || !InFile(|elf|, h.sectionTable, CheckedMul(h.sectionEntry, h.sectionCount).value) {
      return Malformed;
    }
    if h.programCount != 0 && (CheckedMul(h.programEntry, h.programCount) == None
      || !InFile(|elf|, h.programTable, CheckedMul(h.programEntry, h.programCount).value)) {
      return Malformed;
    }
    var read := ReadSection(elf, h, h.stringIndex);
    if read == None || read.value.kind != STRTAB || !InFile(|elf|, read.value.offset, read.value.size) {
      return Malformed;
    }
    assert TablesInFile(elf, h);
    assert forall text, arg :: Acceptable(elf, text, arg) <==> BodyOk(elf, h, read.value, text, arg);
    result := ParseBody(elf, h, read.value);
  }

  method ParseBody(elf: seq<Byte>, h: Header, strings: Section) returns (result: Result)
    requires |elf| <= SIZE_MAX && h.sectionTable < 0x1_0000_0000 && h.sectionEntry < 0x1_0000
    requires h.sectionCount < 0x1_0000
    requires h.programTable < 0x1_0000_0000 && h.programEntry < 0x1_0000 && h.programCount < 0x1_0000
    ensures result.Ok? <==> exists text: nat, arg: nat :: BodyOk(elf, h, strings, text, arg)
    ensures result.Ok? ==> exists text: nat, arg: nat ::
      BodyOk(elf, h, strings, text, arg)
      && var s := SectionOf(elf, h, text); result.image == Image(s.offset, s.size, TEXT_ADDRESS, TEXT_ADDRESS)
    ensures !result.Ok? ==> BodyRefused(elf, h, strings, result)
  {
    hide SectionOk, Named, ProgramOk, LoadsText, BodyOk, FirstBadSection, NoneRepeated, SectionsOk, TextPlaced;
    var failure, text, arg := ScanSections(elf, h, strings);
    if failure.Some? {
      BadSectionRefuses(elf, h, strings, failure.value);
      return failure.value;
    }
    var placed := PlaceText(elf, h, strings, text, arg);
    if placed == None {
      NotPlacedRefuses(elf, h, strings);
      return Unsupported;
    }
    var loadable;
    failure, loadable := ScanPrograms(elf, h, placed.value);
    BodyIs(elf, h, strings, text.value, arg.value);
    assert failure == None ==> (loadable <==> Loads(elf, h, text.value));
    if failure.Some? {
      return failure.value;
    }
    if !loadable {
      return Unsupported;
    }
    result := Ok(Image(placed.value.offset, placed.value.size, placed.value.address, h.entry));
  }

  /** The two special sections exist and are what the contract asks for. */
  method PlaceText(elf: seq<Byte>, h: Header, strings: Section, text: Option<nat>, arg: Option<nat>)
    returns (placed: Option<Section>)
    requires |elf| <= SIZE_MAX && h.sectionTable < 0x1_0000_0000 && h.sectionEntry < 0x1_0000
    requires h.sectionCount < 0x1_0000
    requires SectionsOk(elf, h, strings, h.sectionCount)
    requires Located(elf, h, strings, h.sectionCount, text, TEXT)
    requires Located(elf, h, strings, h.sectionCount, arg, ARG_DATA)
    ensures placed == None <==> !exists t: nat, a: nat :: TextPlaced(elf, h, strings, t, a)
    ensures placed.Some? ==>
      && text.Some? && arg.Some? && TextPlaced(elf, h, strings, text.value, arg.value)
      && HasSection(elf, h, text.value) && placed.value == SectionOf(elf, h, text.value)
      && placed.value.address == TEXT_ADDRESS == h.entry
  {
    hide SectionOk, Named, NoneRepeated;
    forall t: nat, a: nat | TextPlaced(elf, h, strings, t, a) ensures text == Some(t) && arg == Some(a) {
      assert Named(elf, h, strings, t, TEXT) && Named(elf, h, strings, a, ARG_DATA);
    }
    if text == None || arg == None {
      return None;
    }
    var maybe := ReadSection(elf, h, text.value);
    assert maybe.Some? by { SectionOkHas(elf, h, strings, text.value); }
    var read := ReadSection(elf, h, arg.value);
    assert read.Some? by { SectionOkHas(elf, h, strings, arg.value); }
    if !TextOk(h, maybe.value) || !ArgDataOk(read.value) {
      return None;
    }
    assert TextPlaced(elf, h, strings, text.value, arg.value);
    placed := maybe;
  }

  lemma BodyNeedsAll(elf: seq<Byte>, h: Header, strings: Section, text: nat, arg: nat)
    requires BodyOk(elf, h, strings, text, arg)
    ensures SectionsOk(elf, h, strings, h.sectionCount) && TextPlaced(elf, h, strings, text, arg) && ProgramsOk(elf, h)
  {
    hide SectionOk, Named, ProgramsOk, Loads;
  }

  lemma SectionStatus(elf: seq<Byte>, h: Header, strings: Section, k: nat, status: Result)
    requires SectionFails(elf, h, strings, k, status)
    ensures !status.Ok?
  {
    hide SymbolsFail, StringAt;
    if SectionShaped(elf, h, strings, k) {
      var s := SectionOf(elf, h, k);
      if SymbolsFail(elf, h, s, status) {
        FailingSymbols(elf, h, s, status);
      }
    }
  }

  lemma BadSectionRefuses(elf: seq<Byte>, h: Header, strings: Section, status: Result)
    requires exists k :: FirstBadSection(elf, h, strings, k, status)
    ensures BodyRefused(elf, h, strings, status) && !status.Ok?
    ensures !exists text: nat, arg: nat :: BodyOk(elf, h, strings, text, arg)
  {
    hide SectionOk, NoneRepeated, BodyOk, TextPlaced, ProgramsOk, SectionFails;
    var k: nat :| FirstBadSection(elf, h, strings, k, status);
    if !SectionOk(elf, h, strings, k) {
      SectionStatus(elf, h, strings, k, status);
    }
    if SectionsOk(elf, h, strings, h.sectionCount) {
      NoneRepeatedPrefix(elf, h, strings, k + 1, h.sectionCount);
    }
    forall text: nat, arg: nat ensures !BodyOk(elf, h, strings, text, arg) {
      if BodyOk(elf, h, strings, text, arg) {
        BodyNeedsAll(elf, h, strings, text, arg);
      }
    }
  }

  lemma NotPlacedRefuses(elf: seq<Byte>, h: Header, strings: Section)
    requires SectionsOk(elf, h, strings, h.sectionCount) && !exists t: nat, a: nat :: TextPlaced(elf, h, strings, t, a)
    ensures BodyRefused(elf, h, strings, Unsupported)
    ensures !exists text: nat, arg: nat :: BodyOk(elf, h, strings, text, arg)
  {
    hide SectionsOk, TextPlaced, BodyOk, FirstBadSection, ProgramsOk;
    forall text: nat, arg: nat ensures !BodyOk(elf, h, strings, text, arg) {
      if BodyOk(elf, h, strings, text, arg) {
        BodyNeedsAll(elf, h, strings, text, arg);
      }
    }
  }

  lemma BodyFrom(elf: seq<Byte>, h: Header, strings: Section, text: nat, arg: nat)
    requires SectionsOk(elf, h, strings, h.sectionCount) && TextPlaced(elf, h, strings, text, arg)
    ensures BodyOk(elf, h, strings, text, arg) <==> ProgramsOk(elf, h) && Loads(elf, h, text)
  {
    hide SectionOk, TextPlaced, ProgramsOk, Loads, NoneRepeated;
  }

  lemma PlacedOnce(elf: seq<Byte>, h: Header, strings: Section, text: nat, arg: nat, t: nat, a: nat)
    requires TextPlaced(elf, h, strings, text, arg) && TextPlaced(elf, h, strings, t, a)
    ensures t == text && a == arg
  {
    hide Named;
  }

  /** Once the special sections are placed, only the segments are left to decide. */
  lemma BodyIs(elf: seq<Byte>, h: Header, strings: Section, text: nat, arg: nat)
    requires SectionsOk(elf, h, strings, h.sectionCount) && TextPlaced(elf, h, strings, text, arg)
    ensures BodyOk(elf, h, strings, text, arg) <==> ProgramsOk(elf, h) && Loads(elf, h, text)
    ensures (exists t: nat, a: nat :: BodyOk(elf, h, strings, t, a)) <==> ProgramsOk(elf, h) && Loads(elf, h, text)
    ensures !ProgramsOk(elf, h) ==> BodyRefused(elf, h, strings, Malformed)
    ensures ProgramsOk(elf, h) && !Loads(elf, h, text) ==> BodyRefused(elf, h, strings, Unsupported)
  {
    hide SectionsOk, TextPlaced, BodyOk, ProgramsOk, Loads, FirstBadSection;
    BodyFrom(elf, h, strings, text, arg);
    forall t: nat, a: nat | BodyOk(elf, h, strings, t, a) ensures t == text && a == arg {
      BodyNeedsAll(elf, h, strings, t, a);
      PlacedOnce(elf, h, strings, text, arg, t, a);
    }
  }

  lemma SectionOkHas(elf: seq<Byte>, h: Header, strings: Section, k: nat)
    requires SectionOk(elf, h, strings, k)
    ensures HasSection(elf, h, k)
  {
  }
}
