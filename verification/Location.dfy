/**
 Location expressions: `artifact:0xstart-0xend?node=…&field=…&span=…`, their printer and their parser.
 */
module Location {
  import opened Wrappers
  import opened Bytes
  import opened PercentCodec

  datatype Location = Location(
    artifact: string, start: int, end: int, node: Option<string>, field: Option<string>, span: Option<int>)

  /** The known artifacts, in the map's own order, and their sizes. */
  datatype Artifacts = Artifacts(keys: seq<string>, sizes: map<string, int>)

  /**
   What the host's strings and numbers do: lower case, the integer a text denotes (if it denotes one) and UTF-8
   decoding with replacement characters.
   */
  datatype Host = Host(lower: string -> string, number: string -> Option<int>, lossy: seq<Byte> -> string)

  const MAX_SAFE: int := 9007199254740991

  predicate Safe(n: int) {
    -MAX_SAFE <= n <= MAX_SAFE
  }

  /** Decimal numerals denote their numbers, and bytes that are UTF-8 decode without replacement. */
  ghost predicate Faithful(host: Host) {
    && (forall n: nat :: n <= MAX_SAFE ==> host.number(Decimal(n)) == Some(n))
    && (forall bytes :: FromUtf8(bytes).Some? ==> host.lossy(bytes) == FromUtf8(bytes).value)
  }

  // ---------------------------------------------------------------------------------------------
  // Searching and trimming.

  /** The first place of a character, or the length. */
  function Find(s: string, c: char): (i: nat)
    ensures i <= |s| && (i < |s| ==> s[i] == c) && c !in s[..i]
  {
    if s == "" || s[0] == c then 0
    else
      var i := Find(s[1..], c);
      assert s[..i + 1] == [s[0]] + s[1..][..i];
      i + 1
  }

  lemma FindAt(a: string, c: char, rest: string)
    requires c !in a
    ensures Find(a + [c] + rest, c) == |a|
  {
    var s := a + [c] + rest;
    var i := Find(s, c);
    forall k | 0 <= k < |a| ensures s[k] != c {
      assert s[k] == a[k];
    }
    forall k | 0 <= k < i ensures s[k] != c {
      assert s[..i][k] == s[k];
    }
    assert s[|a|] == c;
  }

  lemma FindNone(s: string, c: char)
    requires c !in s
    ensures Find(s, c) == |s|
  {
  }

  predicate IsSpace(c: char) {
    || '\U{9}' <= c <= '\U{d}' || c == ' ' || c == '\U{a0}' || c == '\U{1680}' || '\U{2000}' <= c <= '\U{200a}'
    || c == '\U{2028}' || c == '\U{2029}' || c == '\U{202f}' || c == '\U{205f}' || c == '\U{3000}' || c == '\U{feff}'
  }

  function Trim(s: string): string
    decreases |s|
  {
    if s == "" then ""
    else if IsSpace(s[0]) then Trim(s[1..])
    else if IsSpace(s[|s| - 1]) then Trim(s[..|s| - 1])
    else s
  }

  // ---------------------------------------------------------------------------------------------
  // Numerals.

  function LowerDigit(v: nat): char
    requires v < 16
  {
    if v < 10 then '0' + v as char else 'a' + (v - 10) as char
  }

  function Numeral(n: nat, base: nat): string
    requires 2 <= base <= 16
  {
    if n < base then [LowerDigit(n)] else Numeral(n / base, base) + [LowerDigit(n % base)]
  }

  function Decimal(n: int): string {
    if n < 0 then "-" + Numeral(-n, 10) else Numeral(n, 10)
  }

  function Hexadecimal(n: int): string {
    if n < 0 then "-" + Numeral(-n, 16) else Numeral(n, 16)
  }

  predicate HexDigits(s: string) {
    s != "" && forall i :: 0 <= i < |s| ==> DigitValue(s[i]).Some?
  }

  function HexValue(s: string): nat {
    if s == "" then 0
    else HexValue(s[..|s| - 1]) * 16 + if DigitValue(s[|s| - 1]).Some? then DigitValue(s[|s| - 1]).value else 0
  }

  lemma {:induction false} HexRoundTrip(n: nat)
    ensures HexDigits(Numeral(n, 16)) && HexValue(Numeral(n, 16)) == n
  {
    if n < 16 {
      assert Numeral(n, 16)[..0] == "";
    } else {
      HexRoundTrip(n / 16);
    }
  }

  // ---------------------------------------------------------------------------------------------
  // Query parameters.

  datatype Parameter = Parameter(name: string, value: string)

  function Print(p: Parameter): string {
    EncodeForm(p.name) + "=" + EncodeForm(p.value)
  }

  function PrintAll(ps: seq<Parameter>): string {
    if ps == [] then "" else if |ps| == 1 then Print(ps[0]) else Print(ps[0]) + "&" + PrintAll(ps[1..])
  }

  function Read(host: Host, piece: string): Parameter {
    var i := Find(piece, '=');
    Parameter(host.lossy(FormBytes(piece[..i])), host.lossy(FormBytes(if i < |piece| then piece[i + 1..] else "")))
  }

  function ReadAll(host: Host, text: string): seq<Parameter>
    decreases |text|
  {
    if text == "" then []
    else
      var i := Find(text, '&');
      (if i == 0 then [] else [Read(host, text[..i])]) + ReadAll(host, if i < |text| then text[i + 1..] else "")
  }

  /** The characters of an encoded name or value. */
  predicate FormChar(c: char) {
    FormSafe(c) || c == '%' || c == '+'
  }

  lemma {:induction false} EscapeChars(bytes: seq<Byte>)
    ensures forall i :: 0 <= i < |Escape(bytes)| ==> Escape(bytes)[i] == '%' || Alphanumeric(Escape(bytes)[i])
  {
    if bytes != [] {
      EscapeChars(bytes[1..]);
    }
  }

  lemma {:induction false} FormChars(s: string)
    ensures forall i :: 0 <= i < |EncodeForm(s)| ==> FormChar(EncodeForm(s)[i])
  {
    if s != "" {
      hide Escape, Utf8;
      FormChars(s[1..]);
      EscapeChars(Utf8(s[0]));
    }
  }

  lemma Avoids(s: string, c: char)
    requires !FormChar(c)
    ensures c !in EncodeForm(s)
  {
    FormChars(s);
  }

  lemma FormValue(host: Host, s: string)
    requires Faithful(host)
    ensures host.lossy(FormBytes(EncodeForm(s))) == s
  {
    FormRoundTrip(s);
    Utf8RoundTrip(s);
  }

  lemma ReadPrint(host: Host, p: Parameter)
    requires Faithful(host)
    ensures Read(host, Print(p)) == p
  {
    hide Faithful, EncodeForm, FormBytes, Find;
    var name, value := EncodeForm(p.name), EncodeForm(p.value);
    Avoids(p.name, '=');
    FindAt(name, '=', value);
    assert (name + "=" + value)[..|name|] == name && (name + "=" + value)[|name| + 1..] == value;
    FormValue(host, p.name);
    FormValue(host, p.value);
  }

  lemma PrintAvoids(p: Parameter, c: char)
    requires !FormChar(c) && c != '='
    ensures c !in Print(p)
  {
    Avoids(p.name, c);
    Avoids(p.value, c);
  }

  /** Parsing a printed parameter list gives it back, for all names and values. */
  lemma {:induction false} ParametersRoundTrip(host: Host, ps: seq<Parameter>)
    requires Faithful(host)
    ensures ReadAll(host, PrintAll(ps)) == ps
  {
    hide Faithful, Print, Read, Find, ReadAll;
    if ps == [] {
      ReadNothing(host);
    } else {
      PrintIsNotEmpty(ps[0]);
      PrintAvoids(ps[0], '&');
      ReadPrint(host, ps[0]);
      if |ps| == 1 {
        ReadLast(host, Print(ps[0]));
      } else {
        ReadMore(host, Print(ps[0]), PrintAll(ps[1..]));
        ParametersRoundTrip(host, ps[1..]);
        assert [ps[0]] + ps[1..] == ps;
      }
    }
  }

  lemma ReadNothing(host: Host)
    ensures ReadAll(host, "") == []
  {
  }

  lemma ReadLast(host: Host, piece: string)
    requires piece != "" && '&' !in piece
    ensures ReadAll(host, piece) == [Read(host, piece)]
  {
    hide Read, Find;
    FindNone(piece, '&');
    assert piece[..|piece|] == piece;
    ReadNothing(host);
  }

  lemma ReadMore(host: Host, piece: string, rest: string)
    requires piece != "" && '&' !in piece
    ensures ReadAll(host, piece + "&" + rest) == [Read(host, piece)] + ReadAll(host, rest)
  {
    hide Read, Find;
    var text := piece + "&" + rest;
    FindAt(piece, '&', rest);
    assert text[..|piece|] == piece && text[|piece| + 1..] == rest;
  }

  lemma PrintIsNotEmpty(p: Parameter)
    ensures Print(p) != "" && Print(p)[|Print(p)| - 1] in EncodeForm(p.value) + "="
  {
  }

  lemma {:induction false} PrintAllAvoids(ps: seq<Parameter>, c: char)
    requires !FormChar(c) && c != '=' && c != '&'
    ensures c !in PrintAll(ps)
  {
    hide Print;
    if ps != [] {
      PrintAvoids(ps[0], c);
      PrintAllAvoids(ps[1..], c);
    }
  }

  // ---------------------------------------------------------------------------------------------
  // The range grammar: (artifact ':')? number ('-' number)?

  datatype Groups = Groups(artifact: Option<string>, first: string, second: Option<string>)

  predicate HasPrefix(s: string) {
    |s| >= 2 && s[0] == '0' && (s[1] == 'x' || s[1] == 'X')
  }

  function Digits(s: string): string {
    if HasPrefix(s) then s[2..] else s
  }

  predicate HexNumber(s: string) {
    HexDigits(Digits(s))
  }

  predicate ArtifactText(s: string) {
    s != "" && forall i :: 0 <= i < |s| ==> s[i] != ':' && !IsSpace(s[i])
  }

  /** The grammar, as a relation between the text and its groups. */
  ghost predicate Derives(m: Groups, base: string) {
    && base == (if m.artifact.Some? then m.artifact.value + ":" else "") + m.first
      + (if m.second.Some? then "-" + m.second.value else "")
    && (m.artifact.Some? ==> ArtifactText(m.artifact.value))
    && HexNumber(m.first) && (m.second.Some? ==> HexNumber(m.second.value))
  }

  function MatchRange(artifact: Option<string>, range: string): Option<Groups> {
    var i := Find(range, '-');
    var first, second := range[..i], if i < |range| then Some(range[i + 1..]) else None;
    if HexNumber(first) && (second.Some? ==> HexNumber(second.value)) then
      Some(Groups(artifact, first, second))
    else None
  }

  function MatchBase(base: string): Option<Groups> {
    var i := Find(base, ':');
    if i == |base| then MatchRange(None, base)
    else if ArtifactText(base[..i]) then MatchRange(Some(base[..i]), base[i + 1..])
    else None
  }

  lemma HexNumberAvoids(s: string, c: char)
    requires HexNumber(s) && DigitValue(c).None? && c != 'x' && c != 'X'
    ensures c !in s
  {
  }

  lemma MatchRangeComplete(m: Groups, range: string)
    requires range == m.first + (if m.second.Some? then "-" + m.second.value else "")
    requires HexNumber(m.first) && (m.second.Some? ==> HexNumber(m.second.value))
    ensures MatchRange(m.artifact, range) == Some(m)
  {
    hide HexNumber, Find;
    HexNumberAvoids(m.first, '-');
    if m.second.Some? {
      FindAt(m.first, '-', m.second.value);
      assert range == m.first + ['-'] + m.second.value;
      assert range[..|m.first|] == m.first && range[|m.first| + 1..] == m.second.value;
    } else {
      FindNone(range, '-');
      assert range[..|range|] == range == m.first;
    }
  }

  lemma MatchRangeSound(artifact: Option<string>, range: string)
    requires MatchRange(artifact, range).Some?
    ensures
      var m := MatchRange(artifact, range).value;
      && m.artifact == artifact && range == m.first + (if m.second.Some? then "-" + m.second.value else "")
      && HexNumber(m.first) && (m.second.Some? ==> HexNumber(m.second.value))
  {
    hide HexNumber, Find;
    var i := Find(range, '-');
    if i < |range| {
      assert range == range[..i] + ("-" + range[i + 1..]);
    } else {
      assert range[..i] + "" == range;
    }
  }

  lemma RangeAvoidsColon(m: Groups)
    requires HexNumber(m.first) && (m.second.Some? ==> HexNumber(m.second.value))
    ensures ':' !in m.first + (if m.second.Some? then "-" + m.second.value else "")
  {
  }

  /** Splitting at the first colon and the first hyphen reads the grammar: a text has at most one derivation. */
  lemma MatchIsTheDerivation(base: string, m: Groups)
    ensures MatchBase(base) == Some(m) <==> Derives(m, base)
  {
    hide HexNumber, Find, MatchRange, ArtifactText;
    if Derives(m, base) {
      DerivationIsFound(base, m);
    }
    if MatchBase(base) == Some(m) {
      var i := Find(base, ':');
      if i == |base| {
        MatchRangeSound(None, base);
      } else {
        MatchRangeSound(Some(base[..i]), base[i + 1..]);
        assert base == base[..i] + ":" + base[i + 1..];
        assert base == base[..i] + ":" + m.first + (if m.second.Some? then "-" + m.second.value else "");
      }
    }
  }

  lemma DerivationIsFound(base: string, m: Groups)
    requires Derives(m, base)
    ensures MatchBase(base) == Some(m)
  {
    hide HexNumber, MatchRange, MatchBase;
    var rest := if m.second.Some? then "-" + m.second.value else "";
    var range := m.first + rest;
    RangeAvoidsColon(m);
    MatchRangeComplete(m, range);
    if m.artifact.Some? {
      Regroup(m.artifact.value + ":", m.first, rest);
      MatchAfterColon(m.artifact.value, range);
    } else {
      assert base == range;
      MatchWithoutColon(base);
    }
  }

  lemma MatchAfterColon(artifact: string, range: string)
    requires ArtifactText(artifact)
    ensures MatchBase(artifact + ":" + range) == MatchRange(Some(artifact), range)
  {
    hide MatchRange, Find, IsSpace;
    var base := artifact + [':'] + range;
    FindAt(artifact, ':', range);
    assert base[..|artifact|] == artifact && base[|artifact| + 1..] == range;
  }

  lemma MatchWithoutColon(base: string)
    requires ':' !in base
    ensures MatchBase(base) == MatchRange(None, base)
  {
    hide MatchRange;
    FindNone(base, ':');
  }

  // ---------------------------------------------------------------------------------------------
  // The printer.

  function ParametersOf(l: Location): seq<Parameter> {
    (if l.node.Some? && l.node.value != "" then [Parameter("node", l.node.value)] else [])
    + (if l.field.Some? && l.field.value != "" then [Parameter("field", l.field.value)] else [])
    + (if l.span.Some? then [Parameter("span", Decimal(l.span.value))] else [])
  }

  function RangeText(l: Location): string {
    "0x" + Hexadecimal(l.start) + if l.end > l.start + 1 then "-" + ("0x" + Hexadecimal(l.end)) else ""
  }

  function Query(ps: seq<Parameter>): string {
    if PrintAll(ps) == "" then "" else "?" + PrintAll(ps)
  }

  function Format(l: Location): string {
    EncodeComponent(l.artifact) + ":" + RangeText(l) + Query(ParametersOf(l))
  }

  method FormatLocationExpression(l: Location) returns (text: string)
    ensures text == Format(l)
  {
    hide PrintAll, EncodeComponent, Hexadecimal;
    var range := "0x" + Hexadecimal(l.start) + if l.end > l.start + 1 then "-" + ("0x" + Hexadecimal(l.end)) else "";
    var parameters: seq<Parameter> := [];
    if l.node.Some? && l.node.value != "" {
      parameters := parameters + [Parameter("node", l.node.value)];
    }
    if l.field.Some? && l.field.value != "" {
      parameters := parameters + [Parameter("field", l.field.value)];
    }
    if l.span.Some? {
      parameters := parameters + [Parameter("span", Decimal(l.span.value))];
    }
    assert parameters == ParametersOf(l);
    var query := PrintAll(parameters);
    text := EncodeComponent(l.artifact) + ":" + range + if query == "" then "" else "?" + query;
  }

  // ---------------------------------------------------------------------------------------------
  // The parser.

  function GetAll(ps: seq<Parameter>, name: string): seq<string> {
    if ps == [] then [] else (if ps[0].name == name then [ps[0].value] else []) + GetAll(ps[1..], name)
  }

  /** The one value of a parameter; absent and empty mean the same. */
  function Given(ps: seq<Parameter>, name: string): Option<string> {
    var values := GetAll(ps, name);
    if values == [] || values[0] == "" then None else Some(values[0])
  }

  predicate KnownParameters(ps: seq<Parameter>) {
    && (forall i :: 0 <= i < |ps| ==> ps[i].name in ["node", "field", "span"])
    && |GetAll(ps, "node")| <= 1 && |GetAll(ps, "field")| <= 1 && |GetAll(ps, "span")| <= 1
  }

  /** Adds the node, field and span, or refuses. */
  function Annotate(host: Host, ps: seq<Parameter>, artifact: string, start: int, end: int): Option<Location> {
    var node, field, spans := Given(ps, "node"), Given(ps, "field"), GetAll(ps, "span");
    var span := if spans == [] then None else host.number(spans[0]);
    if !KnownParameters(ps) || (field.Some? && node.None?) then None
    else if spans != [] && (span.None? || !Safe(span.value) || span.value < 0 || node.None?) then None
    else Some(Location(artifact, start, end, node, field, span))
  }

  function FirstKey(host: Host, keys: seq<string>, requested: string): Option<string> {
    if keys == [] then None
    else if host.lower(keys[0]) == host.lower(requested) then Some(keys[0])
    else FirstKey(host, keys[1..], requested)
  }

  /** The exact name first, then the first name that agrees but for case. */
  function FindArtifact(host: Host, artifacts: Artifacts, requested: string): Option<string> {
    if requested in artifacts.sizes then Some(requested) else FirstKey(host, artifacts.keys, requested)
  }

  function Requested(m: Groups, current: string): Option<string> {
    if m.artifact.Some? then DecodeComponent(m.artifact.value) else Some(current)
  }

  function EndOf(m: Groups): int {
    if m.second.Some? then HexValue(Digits(m.second.value)) else HexValue(Digits(m.first)) + 1
  }

  function Resolve(host: Host, m: Groups, ps: seq<Parameter>, current: string, artifacts: Artifacts): Option<Location> {
    var requested := Requested(m, current);
    if requested.None? then None
    else
      var artifact := FindArtifact(host, artifacts, requested.value);
      if artifact.None? || artifact.value !in artifacts.sizes then None
      else
        var size, start, end := artifacts.sizes[artifact.value], HexValue(Digits(m.first)), EndOf(m);
        if !Safe(start) || !Safe(end) || start >= size || end <= start || end > size then None
        else Annotate(host, ps, artifact.value, start, end)
  }

  function Parse(host: Host, query: string, current: string, artifacts: Artifacts): Option<Location> {
    var trimmed := Trim(query);
    var i := Find(trimmed, '?');
    var text := if i < |trimmed| then trimmed[i + 1..] else "";
    var m := MatchBase(trimmed[..i]);
    if '?' in text || m.None? then None else Resolve(host, m.value, ReadAll(host, text), current, artifacts)
  }

  // ---------------------------------------------------------------------------------------------
  // Printing and parsing.

  /** The locations the printer can say: a caller can check each part before printing. */
  ghost predicate Printable(l: Location, artifacts: Artifacts) {
    && l.artifact != "" && Proper(l, artifacts)
  }

  ghost predicate Proper(l: Location, artifacts: Artifacts) {
    && l.artifact in artifacts.sizes && 0 <= l.start < l.end <= artifacts.sizes[l.artifact]
    && Safe(l.start) && Safe(l.end)
    && (l.node.Some? ==> l.node.value != "")
    && (l.field.Some? ==> l.field.value != "" && l.node.Some?)
    && (l.span.Some? ==> 0 <= l.span.value <= MAX_SAFE && l.node.Some?)
  }

  /** Whatever the parser accepts is in bounds and complete. */
  lemma ParsedIsProper(host: Host, query: string, current: string, artifacts: Artifacts)
    requires Parse(host, query, current, artifacts).Some?
    ensures Proper(Parse(host, query, current, artifacts).value, artifacts)
  {
  }

  predicate ComponentChar(c: char) {
    Unreserved(c) || c == '%'
  }

  lemma {:induction false} ComponentChars(s: string)
    ensures forall i :: 0 <= i < |EncodeComponent(s)| ==> ComponentChar(EncodeComponent(s)[i])
    ensures s != "" ==> EncodeComponent(s) != ""
  {
    if s != "" {
      var bytes := Utf8(s[0]);
      hide Utf8;
      ComponentChars(s[1..]);
      EscapeChars(bytes);
      EscapesOfEscape(bytes, "");
    }
  }

  function GroupsOf(l: Location): Groups {
    Groups(Some(EncodeComponent(l.artifact)), "0x" + Hexadecimal(l.start),
           if l.end > l.start + 1 then Some("0x" + Hexadecimal(l.end)) else None)
  }

  lemma PrefixedNumber(n: nat)
    ensures HexNumber("0x" + Hexadecimal(n)) && HexValue(Digits("0x" + Hexadecimal(n))) == n
  {
    HexRoundTrip(n);
    assert ("0x" + Hexadecimal(n))[2..] == Hexadecimal(n);
  }

  function BaseText(l: Location): string {
    EncodeComponent(l.artifact) + ":" + RangeText(l)
  }

  lemma BaseDerives(l: Location)
    requires l.artifact != "" && 0 <= l.start < l.end
    ensures Derives(GroupsOf(l), BaseText(l)) && '?' !in EncodeComponent(l.artifact)
  {
    hide Hexadecimal, HexNumber, EncodeComponent;
    var m := GroupsOf(l);
    ComponentChars(l.artifact);
    PrefixedNumber(l.start);
    PrefixedNumber(l.end);
    Regroup(EncodeComponent(l.artifact) + ":", m.first, if m.second.Some? then "-" + m.second.value else "");
  }

  lemma Regroup(a: string, b: string, c: string)
    ensures a + (b + c) == a + b + c
  {
  }

  /** The printed base reads back as its three groups. */
  lemma BaseReads(l: Location)
    requires l.artifact != "" && 0 <= l.start < l.end
    ensures MatchBase(BaseText(l)) == Some(GroupsOf(l)) && BaseShaped(BaseText(l))
  {
    hide Hexadecimal, MatchBase, EncodeComponent, Derives, BaseText, IsSpace;
    BaseDerives(l);
    MatchIsTheDerivation(BaseText(l), GroupsOf(l));
    DerivedEnds(GroupsOf(l), BaseText(l));
  }

  lemma DerivedEnds(m: Groups, base: string)
    requires Derives(m, base) && m.artifact.Some? && '?' !in m.artifact.value
    ensures BaseShaped(base)
  {
  }

  lemma GetFirst(ps: seq<Parameter>, name: string)
    requires ps != []
    ensures GetAll(ps, name) == (if ps[0].name == name then [ps[0].value] else []) + GetAll(ps[1..], name)
  {
  }

  lemma {:induction false} GetAllConcat(a: seq<Parameter>, b: seq<Parameter>, name: string)
    ensures GetAll(a + b, name) == GetAll(a, name) + GetAll(b, name)
  {
    if a == [] {
      assert a + b == b;
    } else {
      assert (a + b)[1..] == a[1..] + b;
      GetFirst(a, name);
      GetFirst(a + b, name);
      hide GetAll;
      GetAllConcat(a[1..], b, name);
    }
  }

  lemma GetOne(p: Parameter, name: string)
    ensures GetAll([p], name) == if p.name == name then [p.value] else []
  {
  }

  /** The values printed under one name. */
  lemma PrintedValues(l: Location, name: string)
    requires l.node.Some? ==> l.node.value != ""
    requires l.field.Some? ==> l.field.value != ""
    ensures GetAll(ParametersOf(l), name) ==
      (if l.node.Some? && name == "node" then [l.node.value] else [])
      + (if l.field.Some? && name == "field" then [l.field.value] else [])
      + (if l.span.Some? && name == "span" then [Decimal(l.span.value)] else [])
  {
    hide Decimal;
    var a := if l.node.Some? then [Parameter("node", l.node.value)] else [];
    var b := if l.field.Some? then [Parameter("field", l.field.value)] else [];
    var c := if l.span.Some? then [Parameter("span", Decimal(l.span.value))] else [];
    assert ParametersOf(l) == a + b + c;
    GetAllConcat(a + b, c, name);
    GetAllConcat(a, b, name);
    if l.node.Some? {
      GetOne(a[0], name);
    }
    if l.field.Some? {
      GetOne(b[0], name);
    }
    if l.span.Some? {
      GetOne(c[0], name);
    }
  }

  lemma AnnotatePrinted(host: Host, l: Location, artifacts: Artifacts)
    requires Faithful(host) && Proper(l, artifacts)
    ensures Annotate(host, ParametersOf(l), l.artifact, l.start, l.end) == Some(l)
  {
    hide GetAll, Decimal;
    PrintedValues(l, "node");
    PrintedValues(l, "field");
    PrintedValues(l, "span");
    var ps := ParametersOf(l);
    assert forall i :: 0 <= i < |ps| ==> ps[i].name in ["node", "field", "span"];
  }

  /** Trimming keeps the text, and its first question mark separates the base from the parameters. */
  ghost predicate Splits(t: string, base: string, text: string) {
    && Trim(t) == t && Find(t, '?') == |base| && |base| <= |t| && t[..|base|] == base
    && (|base| < |t| ==> t[|base| + 1..] == text) && (|base| == |t| ==> text == "") && '?' !in text
  }

  /** The text after the base is read back as the printed parameters. */
  lemma PrintedSplits(l: Location)
    requires l.artifact != "" && 0 <= l.start < l.end
    ensures Splits(Format(l), BaseText(l), PrintAll(ParametersOf(l)))
  {
    hide *;
    BaseReads(l);
    QueryShaped(ParametersOf(l));
    SplitsAt(BaseText(l), PrintAll(ParametersOf(l)));
    FormatIs(l);
  }

  /** A base neither starts nor ends with a space and holds no question mark. */
  ghost predicate BaseShaped(base: string) {
    '?' !in base && base != "" && !IsSpace(base[0]) && !IsSpace(base[|base| - 1])
  }

  ghost predicate TextShaped(text: string) {
    '?' !in text && (text != "" ==> !IsSpace(text[|text| - 1]))
  }

  lemma QueryShaped(ps: seq<Parameter>)
    ensures TextShaped(PrintAll(ps))
  {
    hide PrintAll, IsSpace;
    PrintAllAvoids(ps, '?');
    if PrintAll(ps) != "" {
      NotSpace(ps);
    }
  }

  function WithQuery(base: string, text: string): string {
    base + if text == "" then "" else "?" + text
  }

  lemma FormatIs(l: Location)
    ensures Format(l) == WithQuery(BaseText(l), PrintAll(ParametersOf(l)))
  {
  }

  lemma SplitsAt(base: string, text: string)
    requires BaseShaped(base) && TextShaped(text)
    ensures Splits(WithQuery(base, text), base, text)
  {
    if text == "" {
      FindNone(base, '?');
      assert base + "" == base;
    } else {
      FindAt(base, '?', text);
      assert base + ("?" + text) == base + ['?'] + text;
    }
  }

  lemma NotSpace(ps: seq<Parameter>)
    requires PrintAll(ps) != ""
    ensures !IsSpace(PrintAll(ps)[|PrintAll(ps)| - 1])
  {
    var last := PrintAll(ps)[|PrintAll(ps)| - 1];
    if IsSpace(last) {
      PrintAllAvoids(ps, last);
    }
  }

  /** Parsing a printed location gives it back, whatever artifact is current. */
  lemma ParseFormat(host: Host, l: Location, current: string, artifacts: Artifacts)
    requires Faithful(host) && Printable(l, artifacts)
    ensures Parse(host, Format(l), current, artifacts) == Some(l)
  {
    hide Faithful, Format, BaseText, PrintAll, ReadAll, Trim, Find, MatchBase, Annotate, EncodeComponent,
      DecodeComponent;
    hide Hexadecimal, HexValue, Digits, ParametersOf;
    PrintedSplits(l);
    BaseReads(l);
    ParametersRoundTrip(host, ParametersOf(l));
    ComponentRoundTrip(l.artifact);
    PrefixedNumber(l.start);
    PrefixedNumber(l.end);
    AnnotatePrinted(host, l, artifacts);
    assert ReadAll(host, "") == [] by { ParametersRoundTrip(host, []); NoParameters(); }
  }

  lemma NoParameters()
    ensures PrintAll([]) == ""
  {
  }

  lemma {:induction false} TrimKeepsHead(s: string)
    requires s != "" && !IsSpace(s[0])
    ensures Trim(s) != "" && Trim(s)[0] == s[0]
    decreases |s|
  {
    if IsSpace(s[|s| - 1]) {
      TrimKeepsHead(s[..|s| - 1]);
    }
  }

  /** A printed location without an artifact name is refused. */
  lemma EmptyArtifactIsRefused(host: Host, l: Location, current: string, artifacts: Artifacts)
    requires l.artifact == ""
    ensures Parse(host, Format(l), current, artifacts) == None
  {
    hide Find, RangeText, Query, Resolve, ReadAll;
    assert Format(l)[0] == ':';
    TrimKeepsHead(Format(l));
    var trimmed := Trim(Format(l));
    var i := Find(trimmed, '?');
    assert 0 < i;
    var base := trimmed[..i];
    assert base == [] + [':'] + base[1..];
    FindAt([], ':', base[1..]);
  }

  /** Printing and parsing a location is the identity exactly on the printable ones. */
  lemma RoundTrips(host: Host, l: Location, current: string, artifacts: Artifacts)
    requires Faithful(host)
    ensures Parse(host, Format(l), current, artifacts) == Some(l) <==> Printable(l, artifacts)
  {
    hide Parse, Format, Faithful;
    if Printable(l, artifacts) {
      ParseFormat(host, l, current, artifacts);
    } else if Parse(host, Format(l), current, artifacts) == Some(l) {
      ParsedIsProper(host, Format(l), current, artifacts);
      EmptyArtifactIsRefused(host, l, current, artifacts);
    }
  }

  /** Every expression the parser accepts for a named artifact has a printed form that means the same. */
  lemma ParsedCanBePrinted(host: Host, query: string, current: string, other: string, artifacts: Artifacts)
    requires Faithful(host) && Parse(host, query, current, artifacts).Some?
    requires Parse(host, query, current, artifacts).value.artifact != ""
    ensures Parse(host, Format(Parse(host, query, current, artifacts).value), other, artifacts)
      == Parse(host, query, current, artifacts)
  {
    hide Parse, Format, Faithful;
    ParsedIsProper(host, query, current, artifacts);
    ParseFormat(host, Parse(host, query, current, artifacts).value, other, artifacts);
  }

  // ---------------------------------------------------------------------------------------------
  // The parser's own steps.

  method AnyUnknown(ps: seq<Parameter>) returns (unknown: bool)
    ensures unknown <==> !(forall i :: 0 <= i < |ps| ==> ps[i].name in ["node", "field", "span"])
  {
    unknown := false;
    for k := 0 to |ps|
      invariant unknown <==> !(forall i :: 0 <= i < k ==> ps[i].name in ["node", "field", "span"])
    {
      if ps[k].name !in ["node", "field", "span"] {
        unknown := true;
      }
    }
  }

  method ParseParameters(host: Host, text: string, artifact: string, start: int, end: int)
    returns (result: Option<Location>)
    ensures result == Annotate(host, ReadAll(host, text), artifact, start, end)
  {
    hide ReadAll, GetAll;
    var ps := ReadAll(host, text);
    var unknown := AnyUnknown(ps);
    if unknown || |GetAll(ps, "node")| > 1 || |GetAll(ps, "field")| > 1 || |GetAll(ps, "span")| > 1 {
      return None;
    }
    var node, field, spans := Given(ps, "node"), Given(ps, "field"), GetAll(ps, "span");
    if field.Some? && node.None? {
      return None;
    }
    var span := None;
    if spans != [] {
      span := host.number(spans[0]);
      if span.None? || !Safe(span.value) || span.value < 0 || node.None? {
        return None;
      }
    }
    result := Some(Location(artifact, start, end, None, None, None));
    if node.Some? {
      result := Some(result.value.(node := node));
    }
    if field.Some? {
      result := Some(result.value.(field := field));
    }
    if span.Some? {
      result := Some(result.value.(span := span));
    }
  }

  method ParseLocationExpression(host: Host, query: string, current: string, artifacts: Artifacts)
    returns (result: Option<Location>)
    ensures result == Parse(host, query, current, artifacts)
  {
    hide Trim, Find, ReadAll, MatchBase, Annotate, FindArtifact, HexValue, Digits, DecodeComponent;
    var trimmed := Trim(query);
    var i := Find(trimmed, '?');
    var text := if i < |trimmed| then trimmed[i + 1..] else "";
    if '?' in text {
      return None;
    }
    var groups := MatchBase(trimmed[..i]);
    if groups.None? {
      return None;
    }
    var requested := Requested(groups.value, current);
    if requested.None? {
      return None;
    }
    var artifact := FindArtifact(host, artifacts, requested.value);
    if artifact.None? || artifact.value !in artifacts.sizes {
      return None;
    }
    var size := artifacts.sizes[artifact.value];
    var start, end := HexValue(Digits(groups.value.first)), EndOf(groups.value);
    if !Safe(start) || !Safe(end) || start >= size || end <= start || end > size {
      return None;
    }
    result := ParseParameters(host, text, artifact.value, start, end);
  }
}
