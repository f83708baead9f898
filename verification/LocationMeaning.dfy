/**
 Which texts are location expressions, and of which location: the parser's answer without the parser.
 */
module LocationMeaning {
  import opened Wrappers
  import opened Bytes
  import opened PercentCodec
  import opened Location

  // ---------------------------------------------------------------------------------------------
  // Padding.

  ghost predicate Spaces(s: string) {
    forall i :: 0 <= i < |s| ==> IsSpace(s[i])
  }

  ghost predicate Unpadded(s: string) {
    s != "" ==> !IsSpace(s[0]) && !IsSpace(s[|s| - 1])
  }

  /** The text is its core between spaces. */
  ghost predicate Pads(s: string, core: string) {
    Unpadded(core) && exists a, b :: Spaces(a) && Spaces(b) && s == a + core + b
  }

  lemma {:induction false} TrimRemoves(a: string, core: string, b: string)
    requires Spaces(a) && Unpadded(core) && Spaces(b)
    ensures Trim(a + core + b) == core
    decreases |a| + |b|
  {
    hide IsSpace;
    var s := a + core + b;
    if a != "" {
      assert s[0] == a[0] && s[1..] == a[1..] + core + b;
      TrimRemoves(a[1..], core, b);
    } else if core == "" && b != "" {
      assert s[0] == b[0] && s[1..] == a + core + b[1..];
      TrimRemoves(a, core, b[1..]);
    } else if b != "" {
      assert s[0] == core[0] && s[|s| - 1] == b[|b| - 1] && s[..|s| - 1] == a + core + b[..|b| - 1];
      TrimRemoves(a, core, b[..|b| - 1]);
    } else {
      assert s == core;
    }
  }

  lemma PadsBefore(c: char, s: string, core: string)
    requires IsSpace(c) && Pads(s, core)
    ensures Pads([c] + s, core)
  {
    hide IsSpace;
    var a, b :| Spaces(a) && Spaces(b) && s == a + core + b;
    assert Spaces([c] + a) && [c] + s == ([c] + a) + core + b;
  }

  lemma PadsAfter(s: string, core: string, c: char)
    requires IsSpace(c) && Pads(s, core)
    ensures Pads(s + [c], core)
  {
    hide IsSpace;
    var a, b :| Spaces(a) && Spaces(b) && s == a + core + b;
    assert Spaces(b + [c]) && s + [c] == a + core + (b + [c]);
  }

  lemma {:induction false} TrimLeaves(s: string)
    ensures Pads(s, Trim(s))
    decreases |s|
  {
    hide IsSpace;
    if s != "" && IsSpace(s[0]) {
      TrimLeaves(s[1..]);
      PadsBefore(s[0], s[1..], Trim(s[1..]));
      assert [s[0]] + s[1..] == s;
    } else if s != "" && IsSpace(s[|s| - 1]) {
      var front, last := s[..|s| - 1], s[|s| - 1];
      TrimLeaves(front);
      PadsAfter(front, Trim(front), last);
      assert front + [last] == s;
    } else {
      assert Spaces("") && s == "" + s + "";
    }
  }

  lemma TrimMeans(s: string, core: string)
    ensures Trim(s) == core <==> Pads(s, core)
  {
    TrimLeaves(s);
    if Pads(s, core) {
      var a, b :| Spaces(a) && Spaces(b) && s == a + core + b;
      TrimRemoves(a, core, b);
    }
  }

  // ---------------------------------------------------------------------------------------------
  // Artifact names.

  /** Position `i` is the first whose name agrees with the one asked for but for case. */
  ghost predicate FirstAlike(host: Host, keys: seq<string>, requested: string, i: nat) {
    && i < |keys| && host.lower(keys[i]) == host.lower(requested)
    && forall j :: 0 <= j < i ==> host.lower(keys[j]) != host.lower(requested)
  }

  /** A known name denotes itself, any other name the first that is alike. */
  ghost predicate Denotes(host: Host, artifacts: Artifacts, requested: string, key: string) {
    if requested in artifacts.sizes then key == requested
    else exists i: nat :: FirstAlike(host, artifacts.keys, requested, i) && artifacts.keys[i] == key
  }

  lemma {:induction false} FirstKeyMeans(host: Host, keys: seq<string>, requested: string, i: nat)
    ensures FirstAlike(host, keys, requested, i) ==> FirstKey(host, keys, requested) == Some(keys[i])
    ensures FirstKey(host, keys, requested).Some? ==>
      exists k: nat :: FirstAlike(host, keys, requested, k) && keys[k] == FirstKey(host, keys, requested).value
    decreases |keys|
  {
    if keys == [] {
    } else if host.lower(keys[0]) == host.lower(requested) {
      assert FirstAlike(host, keys, requested, 0);
    } else {
      var rest := keys[1..];
      FirstKeyMeans(host, rest, requested, if i > 0 then i - 1 else 0);
      forall k: nat | FirstAlike(host, rest, requested, k) ensures FirstAlike(host, keys, requested, k + 1) {
        forall j | 0 <= j < k + 1 ensures host.lower(keys[j]) != host.lower(requested) {
          assert j > 0 ==> keys[j] == rest[j - 1];
        }
      }
      if FirstAlike(host, keys, requested, i) {
        forall j | 0 <= j < i - 1 ensures host.lower(rest[j]) != host.lower(requested) {
          assert rest[j] == keys[j + 1];
        }
      }
      if FirstKey(host, keys, requested).Some? {
        var k: nat :| FirstAlike(host, rest, requested, k) && rest[k] == FirstKey(host, rest, requested).value;
        assert FirstAlike(host, keys, requested, k + 1) && keys[k + 1] == rest[k];
      }
    }
  }

  lemma FindArtifactMeans(host: Host, artifacts: Artifacts, requested: string, key: string)
    ensures FindArtifact(host, artifacts, requested) == Some(key) <==> Denotes(host, artifacts, requested, key)
  {
    hide FirstKey, FirstAlike;
    forall i: nat ensures FirstAlike(host, artifacts.keys, requested, i) ==>
      i < |artifacts.keys| && FirstKey(host, artifacts.keys, requested) == Some(artifacts.keys[i]) {
      FirstKeyMeans(host, artifacts.keys, requested, i);
      AlikeIsThere(host, artifacts.keys, requested, i);
    }
    FirstKeyMeans(host, artifacts.keys, requested, 0);
  }

  lemma AlikeIsThere(host: Host, keys: seq<string>, requested: string, i: nat)
    ensures FirstAlike(host, keys, requested, i) ==> i < |keys|
  {
  }

  // ---------------------------------------------------------------------------------------------
  // Parameters.

  ghost predicate NamedOnce(ps: seq<Parameter>, name: string) {
    forall i, j :: 0 <= i < |ps| && 0 <= j < |ps| && ps[i].name == name == ps[j].name ==> i == j
  }

  /** The parameters, whatever their order: known ones, each at most once; an empty node or field says nothing. */
  ghost predicate Carry(host: Host, ps: seq<Parameter>, l: Location) {
    && (forall p :: p in ps ==> p.name == "node" || p.name == "field" || p.name == "span")
    && NamedOnce(ps, "node") && NamedOnce(ps, "field") && NamedOnce(ps, "span")
    && (forall v :: Parameter("node", v) in ps && v != "" <==> l.node == Some(v))
    && (forall v :: Parameter("field", v) in ps && v != "" <==> l.field == Some(v))
    && (forall v :: Parameter("span", v) in ps ==> l.span.Some? && host.number(v) == l.span)
    && (l.span.Some? ==> exists v :: Parameter("span", v) in ps)
    && (l.field.Some? ==> l.node.Some?) && (l.span.Some? ==> l.node.Some? && 0 <= l.span.value <= MAX_SAFE)
  }

  lemma {:induction false} GetAllMeans(ps: seq<Parameter>, name: string)
    ensures forall v :: v in GetAll(ps, name) <==> Parameter(name, v) in ps
    ensures |GetAll(ps, name)| <= 1 <==> NamedOnce(ps, name)
  {
    if ps != [] {
      var rest := ps[1..];
      GetAllMeans(rest, name);
      OnceMeans(ps, name);
      if GetAll(rest, name) != [] {
        assert GetAll(rest, name)[0] in GetAll(rest, name);
      }
      forall p | p in rest && p.name == name ensures p.value in GetAll(rest, name) {
        assert p == Parameter(name, p.value);
      }
      forall v ensures Parameter(name, v) in ps <==> Parameter(name, v) == ps[0] || Parameter(name, v) in rest {
      }
    }
  }

  lemma OnceMeans(ps: seq<Parameter>, name: string)
    requires ps != []
    ensures NamedOnce(ps, name)
       <==> NamedOnce(ps[1..], name) && (ps[0].name == name ==> forall p :: p in ps[1..] ==> p.name != name)
  {
  }

  lemma KnownMeans(ps: seq<Parameter>)
    ensures KnownParameters(ps) <==>
      && (forall p :: p in ps ==> p.name == "node" || p.name == "field" || p.name == "span")
      && NamedOnce(ps, "node") && NamedOnce(ps, "field") && NamedOnce(ps, "span")
  {
    GetAllMeans(ps, "node");
    GetAllMeans(ps, "field");
    GetAllMeans(ps, "span");
    hide GetAll, NamedOnce;
    if forall i :: 0 <= i < |ps| ==> ps[i].name in ["node", "field", "span"] {
      forall p | p in ps ensures p.name == "node" || p.name == "field" || p.name == "span" {
        var i :| 0 <= i < |ps| && ps[i] == p;
      }
    }
  }

  lemma GivenMeans(ps: seq<Parameter>, name: string, value: Option<string>)
    requires NamedOnce(ps, name)
    ensures Given(ps, name) == value <==> forall v :: Parameter(name, v) in ps && v != "" <==> value == Some(v)
  {
    GetAllMeans(ps, name);
    hide GetAll, NamedOnce;
    var values := GetAll(ps, name);
    if values != [] {
      forall v ensures v in values <==> v == values[0] {
        assert values[0] in values;
      }
    }
  }

  lemma SpansMean(ps: seq<Parameter>)
    requires NamedOnce(ps, "span")
    ensures
      var spans := GetAll(ps, "span");
      && (spans == [] <==> forall v :: Parameter("span", v) !in ps)
      && (spans != [] ==> forall v :: Parameter("span", v) in ps <==> v == spans[0])
  {
    GetAllMeans(ps, "span");
    hide GetAll, NamedOnce;
    var spans := GetAll(ps, "span");
    if spans != [] {
      assert spans[0] in spans;
    }
  }

  lemma AnnotateMeans(host: Host, ps: seq<Parameter>, artifact: string, start: int, end: int, l: Location)
    ensures Annotate(host, ps, artifact, start, end) == Some(l)
       <==> l.artifact == artifact && l.start == start && l.end == end && Carry(host, ps, l)
  {
    KnownMeans(ps);
    if KnownParameters(ps) {
      GivenMeans(ps, "node", l.node);
      GivenMeans(ps, "field", l.field);
      SpansMean(ps);
    }
    hide GetAll, Given, NamedOnce, KnownParameters;
  }

  // ---------------------------------------------------------------------------------------------
  // Expressions.

  /** The core is the base alone, or the base, a question mark and the parameters; there is no other mark. */
  ghost predicate Cut(core: string, base: string, text: string) {
    '?' !in base && '?' !in text && (core == base + ['?'] + text || (core == base && text == ""))
  }

  /** The artifact asked for: the decoded name, or the current artifact if there is no name. */
  ghost predicate AsksFor(m: Groups, current: string, requested: string) {
    if m.artifact.Some? then DecodeComponent(m.artifact.value) == Some(requested) else requested == current
  }

  /** The range `m` and the parameters `ps` describe exactly this location. */
  ghost predicate Describes(host: Host, m: Groups, ps: seq<Parameter>, current: string, artifacts: Artifacts,
                            l: Location)
  {
    && (exists requested :: AsksFor(m, current, requested) && Denotes(host, artifacts, requested, l.artifact))
    && l.artifact in artifacts.sizes && 0 <= l.start < l.end <= artifacts.sizes[l.artifact]
    && l.start <= MAX_SAFE && l.end <= MAX_SAFE
    && l.start == HexValue(Digits(m.first))
    && l.end == (if m.second.Some? then HexValue(Digits(m.second.value)) else l.start + 1)
    && Carry(host, ps, l)
  }

  /** The text, between spaces, is a base with parameters that describes the location. */
  ghost predicate Expresses(host: Host, query: string, current: string, artifacts: Artifacts, l: Location) {
    exists core, base, text, m ::
      && Pads(query, core) && Cut(core, base, text) && Derives(m, base)
      && Describes(host, m, ReadAll(host, text), current, artifacts, l)
  }

  lemma ResolveMeans(host: Host, m: Groups, ps: seq<Parameter>, current: string, artifacts: Artifacts, l: Location)
    ensures Resolve(host, m, ps, current, artifacts) == Some(l)
       <==> Describes(host, m, ps, current, artifacts, l)
  {
    hide Annotate, FindArtifact, Denotes, Carry, HexValue, Digits, DecodeComponent;
    var requested := Requested(m, current);
    if requested.Some? {
      assert forall r :: AsksFor(m, current, r) <==> r == requested.value;
      FindArtifactMeans(host, artifacts, requested.value, l.artifact);
      AnnotateMeans(host, ps, l.artifact, l.start, l.end, l);
      var start, end := HexValue(Digits(m.first)), EndOf(m);
      var found := FindArtifact(host, artifacts, requested.value);
      if found.Some? {
        AnnotateMeans(host, ps, found.value, start, end, l);
      }
    }
  }

  lemma CutAtMark(base: string, text: string)
    requires '?' !in base
    ensures
      var core := base + ['?'] + text;
      Find(core, '?') == |base| < |core| && core[..|base|] == base && core[|base| + 1..] == text
  {
    FindAt(base, '?', text);
  }

  lemma CutNowhere(core: string)
    requires '?' !in core
    ensures Find(core, '?') == |core| && core[..|core|] == core
  {
    FindNone(core, '?');
  }

  lemma MarkCuts(core: string)
    ensures
      var i := Find(core, '?');
      && '?' !in core[..i]
      && (i < |core| ==> core == core[..i] + ['?'] + core[i + 1..]) && (i == |core| ==> core[..i] == core)
  {
    var i := Find(core, '?');
    hide Find;
    if i < |core| {
      Rejoin(core, i);
    } else {
      assert core[..|core|] == core;
    }
  }

  lemma Rejoin(s: string, i: nat)
    requires i < |s|
    ensures s == s[..i] + [s[i]] + s[i + 1..]
  {
  }

  /** A text cuts at its first question mark, in one way only. */
  lemma CutMeans(core: string, base: string, text: string)
    ensures
      var i := Find(core, '?');
      var rest := if i < |core| then core[i + 1..] else "";
      Cut(core, base, text) <==> base == core[..i] && text == rest && '?' !in rest
  {
    if Cut(core, base, text) {
      hide Find;
      if core == base + ['?'] + text {
        CutAtMark(base, text);
      } else {
        CutNowhere(core);
      }
    } else {
      MarkCuts(core);
      hide Find;
    }
  }

  /** The parser answers with a location exactly when the text expresses it. */
  lemma ParseMeans(host: Host, query: string, current: string, artifacts: Artifacts, l: Location)
    ensures Parse(host, query, current, artifacts) == Some(l) <==> Expresses(host, query, current, artifacts, l)
  {
    hide Pads, Cut, Derives, Describes, Resolve, Find, Trim, ReadAll, MatchBase;
    var core := Trim(query);
    var i := Find(core, '?');
    var base, text := core[..i], if i < |core| then core[i + 1..] else "";
    TrimMeans(query, core);
    CutMeans(core, base, text);
    if Parse(host, query, current, artifacts) == Some(l) {
      var m := MatchBase(base).value;
      MatchIsTheDerivation(base, m);
      ResolveMeans(host, m, ReadAll(host, text), current, artifacts, l);
    }
    if Expresses(host, query, current, artifacts, l) {
      var core', base', text', m :|
        && Pads(query, core') && Cut(core', base', text') && Derives(m, base')
        && Describes(host, m, ReadAll(host, text'), current, artifacts, l);
      TrimMeans(query, core');
      CutMeans(core', base', text');
      MatchIsTheDerivation(base', m);
      ResolveMeans(host, m, ReadAll(host, text'), current, artifacts, l);
    }
  }

  // ---------------------------------------------------------------------------------------------
  // The ways to write a location.

  /** The same hexadecimal digits but for case. */
  ghost predicate SameDigits(s: string, t: string) {
    && |s| == |t|
    && forall i :: 0 <= i < |s| ==> s[i] == t[i] || ('a' <= t[i] <= 'f' && s[i] as int == t[i] as int - 32)
  }

  /** A hexadecimal numeral in either case, with either prefix or none. */
  ghost predicate Spells(text: string, n: nat) {
    exists prefix, s :: (prefix == "" || prefix == "0x" || prefix == "0X") && text == prefix + s
                     && SameDigits(s, Numeral(n, 16))
  }

  lemma {:induction false} SameDigitsSameValue(s: string, t: string)
    requires SameDigits(s, t) && forall i :: 0 <= i < |t| ==> DigitValue(t[i]).Some?
    ensures HexValue(s) == HexValue(t) && forall i :: 0 <= i < |s| ==> DigitValue(s[i]).Some?
  {
    if s != "" {
      SameDigitsSameValue(s[..|s| - 1], t[..|t| - 1]);
    }
  }

  lemma SpelledNumber(text: string, n: nat)
    requires Spells(text, n)
    ensures HexNumber(text) && HexValue(Digits(text)) == n
  {
    HexRoundTrip(n);
    var prefix, s :| (prefix == "" || prefix == "0x" || prefix == "0X") && text == prefix + s
                  && SameDigits(s, Numeral(n, 16));
    SameDigitsSameValue(s, Numeral(n, 16));
    hide Numeral, HexValue;
    DigitsAfter(prefix, s);
  }

  lemma DigitsAfter(prefix: string, s: string)
    requires (prefix == "" || prefix == "0x" || prefix == "0X") && HexDigits(s)
    ensures Digits(prefix + s) == s
  {
    if prefix == "" {
      assert prefix + s == s;
    } else {
      assert (prefix + s)[2..] == s && (prefix + s)[1] == prefix[1] && (prefix + s)[0] == prefix[0];
    }
  }

  /** A base: perhaps an artifact's encoded name, the start, and perhaps the end. */
  function Base(name: Option<string>, first: string, second: Option<string>): string {
    (if name.Some? then EncodeComponent(name.value) + ":" else "") + first
      + (if second.Some? then "-" + second.value else "")
  }

  lemma BaseDerivation(name: Option<string>, first: string, second: Option<string>)
    requires name.Some? ==> name.value != ""
    requires HexNumber(first) && (second.Some? ==> HexNumber(second.value))
    ensures
      var m := Groups(if name.Some? then Some(EncodeComponent(name.value)) else None, first, second);
      Derives(m, Base(name, first, second)) && (name.Some? ==> '?' !in m.artifact.value)
  {
    hide HexNumber, EncodeComponent;
    if name.Some? {
      ComponentChars(name.value);
    }
  }

  lemma DerivedShape(m: Groups, base: string)
    requires Derives(m, base) && (m.artifact.Some? ==> '?' !in m.artifact.value)
    ensures BaseShaped(base)
  {
    if m.artifact.Some? {
      DerivedEnds(m, base);
    } else {
      hide HexNumber;
      NumberEnds(m.first);
      if m.second.Some? {
        NumberEnds(m.second.value);
      }
    }
  }

  lemma NumberEnds(s: string)
    requires HexNumber(s)
    ensures s != "" && !IsSpace(s[0]) && !IsSpace(s[|s| - 1]) && '?' !in s
  {
  }

  /** A base and a query make an unpadded core that cuts between them. */
  lemma CoreCuts(base: string, text: string)
    requires BaseShaped(base) && TextShaped(text)
    ensures Unpadded(WithQuery(base, text)) && Cut(WithQuery(base, text), base, text)
  {
    hide IsSpace;
    if text == "" {
      assert WithQuery(base, text) == base;
    } else {
      assert WithQuery(base, text) == base + ['?'] + text;
    }
  }

  lemma PrintedCarry(host: Host, l: Location, artifacts: Artifacts)
    requires Faithful(host) && Proper(l, artifacts)
    ensures Carry(host, ReadAll(host, PrintAll(ParametersOf(l))), l)
  {
    hide *;
    ParametersRoundTrip(host, ParametersOf(l));
    AnnotatePrinted(host, l, artifacts);
    AnnotateMeans(host, ParametersOf(l), l.artifact, l.start, l.end, l);
  }

  /** The start and, if given, the end are spelled; without an end the range is one address. */
  ghost predicate SpellsRange(l: Location, first: string, second: Option<string>)
    requires 0 <= l.start < l.end
  {
    Spells(first, l.start) && if second.Some? then Spells(second.value, l.end) else l.end == l.start + 1
  }

  /** The groups that a written base derives. */
  function Written(name: Option<string>, first: string, second: Option<string>): Groups {
    Groups(if name.Some? then Some(EncodeComponent(name.value)) else None, first, second)
  }

  lemma WrittenBase(l: Location, name: Option<string>, first: string, second: Option<string>)
    requires 0 <= l.start < l.end && SpellsRange(l, first, second) && (name.Some? ==> name.value != "")
    ensures Derives(Written(name, first, second), Base(name, first, second)) && BaseShaped(Base(name, first, second))
  {
    hide Spells, Derives, BaseShaped, HexNumber, Base;
    SpelledNumber(first, l.start);
    if second.Some? {
      SpelledNumber(second.value, l.end);
    }
    BaseDerivation(name, first, second);
    DerivedShape(Written(name, first, second), Base(name, first, second));
  }

  lemma WrittenCore(base: string, l: Location, a: string, b: string)
    requires BaseShaped(base) && Spaces(a) && Spaces(b)
    ensures
      var text := PrintAll(ParametersOf(l));
      Cut(WithQuery(base, text), base, text) && Pads(a + WithQuery(base, text) + b, WithQuery(base, text))
  {
    hide *;
    QueryShaped(ParametersOf(l));
    CoreCuts(base, PrintAll(ParametersOf(l)));
    PadsBetween(a, WithQuery(base, PrintAll(ParametersOf(l))), b);
  }

  lemma PadsBetween(a: string, core: string, b: string)
    requires Spaces(a) && Spaces(b) && Unpadded(core)
    ensures Pads(a + core + b, core)
  {
    hide IsSpace;
  }

  lemma WrittenDescribes(host: Host, l: Location, name: Option<string>, first: string, second: Option<string>,
                         current: string, artifacts: Artifacts)
    requires Faithful(host) && Proper(l, artifacts) && SpellsRange(l, first, second)
    requires Denotes(host, artifacts, if name.Some? then name.value else current, l.artifact)
    ensures
      var ps := ReadAll(host, PrintAll(ParametersOf(l)));
      Describes(host, Written(name, first, second), ps, current, artifacts, l)
  {
    hide Carry, Spells, HexValue, Digits, EncodeComponent, DecodeComponent, Denotes, ReadAll, PrintAll, Faithful;
    SpelledNumber(first, l.start);
    if second.Some? {
      SpelledNumber(second.value, l.end);
    }
    PrintedCarry(host, l, artifacts);
    var m := Written(name, first, second);
    if name.Some? {
      ComponentRoundTrip(name.value);
      assert AsksFor(m, current, name.value);
    } else {
      assert AsksFor(m, current, current);
    }
  }

  /**
   A location reads back from every way to write it: between spaces or not, under a name that denotes its
   artifact or under none while that artifact is current, in hexadecimal of either case with or without prefix,
   with an end or, where it is the next address, without.
   */
  lemma WrittenParses(host: Host, l: Location, name: Option<string>, first: string, second: Option<string>,
                      a: string, b: string, current: string, artifacts: Artifacts)
    requires Faithful(host) && Proper(l, artifacts) && Spaces(a) && Spaces(b)
    requires (name.Some? ==> name.value != "")
      && Denotes(host, artifacts, if name.Some? then name.value else current, l.artifact)
    requires Spells(first, l.start) && if second.Some? then Spells(second.value, l.end) else l.end == l.start + 1
    ensures
      var text := PrintAll(ParametersOf(l));
      Parse(host, a + (Base(name, first, second) + if text == "" then "" else "?" + text) + b, current, artifacts)
        == Some(l)
  {
    hide Spells, Spaces, Denotes, Faithful, Parse, PrintAll, ParametersOf, Base, Written, Derives, Describes, Pads,
      Cut, BaseShaped, ReadAll, Carry;
    var base, text := Base(name, first, second), PrintAll(ParametersOf(l));
    WrittenBase(l, name, first, second);
    WrittenCore(base, l, a, b);
    WrittenDescribes(host, l, name, first, second, current, artifacts);
    var core := WithQuery(base, text);
    WrittenIs(host, a + core + b, core, base, text, Written(name, first, second), current, artifacts, l);
  }

  lemma WrittenIs(host: Host, query: string, core: string, base: string, text: string, m: Groups, current: string,
                  artifacts: Artifacts, l: Location)
    requires Pads(query, core) && Cut(core, base, text) && Derives(m, base)
    requires Describes(host, m, ReadAll(host, text), current, artifacts, l)
    ensures Parse(host, query, current, artifacts) == Some(l)
  {
    hide Pads, Cut, Derives, Describes, Parse;
    ParseMeans(host, query, current, artifacts, l);
  }

  lemma {:induction false} PlainForm(s: string)
    requires forall i :: 0 <= i < |s| ==> FormSafe(s[i])
    ensures EncodeForm(s) == s
  {
    if s != "" {
      PlainForm(s[1..]);
    }
  }

  /** A printed location, letter by letter. */
  lemma PrintedLocation()
    ensures Format(Location("m", 31, 48, Some("n"), None, Some(10))) == "m:0x1f-0x30?node=n&span=10"
  {
    hide *;
    var l := Location("m", 31, 48, Some("n"), None, Some(10));
    PrintedNumbers();
    PrintedBase(l);
    PrintedPair();
    FormatParts(l);
    TwoParameters(l);
    assert "m:0x1f-0x30" + "?node=n&span=10" == "m:0x1f-0x30?node=n&span=10";
  }

  lemma TwoParameters(l: Location)
    requires l.node == Some("n") && l.field == None && l.span.Some?
    ensures ParametersOf(l) == [Parameter("node", "n"), Parameter("span", Decimal(l.span.value))]
  {
    hide Decimal;
  }

  lemma FormatParts(l: Location)
    ensures Format(l) == BaseText(l) + Query(ParametersOf(l))
  {
  }

  lemma PrintedBase(l: Location)
    requires l.artifact == "m" && l.start == 31 && l.end == 48
    ensures BaseText(l) == "m:0x1f-0x30"
  {
    hide EncodeComponent, Hexadecimal;
    PrintedNumbers();
    assert EncodeComponent("m") == "m" by { OneLetter('m'); }
    assert RangeText(l) == "0x1f" + "-" + "0x30";
    hide *;
    assert BaseText(l) == "m" + ":" + ("0x1f" + "-" + "0x30") by { BaseParts(l); }
  }

  lemma BaseParts(l: Location)
    ensures BaseText(l) == EncodeComponent(l.artifact) + ":" + RangeText(l)
  {
  }

  lemma PrintedNumbers()
    ensures Hexadecimal(31) == "1f" && Hexadecimal(48) == "30" && Decimal(10) == "10"
  {
    assert Numeral(1, 16) == "1" && Numeral(3, 16) == "3" && Numeral(1, 10) == "1";
    assert LowerDigit(15) == 'f' && LowerDigit(0) == '0';
  }

  lemma PrintedPair()
    ensures Query([Parameter("node", "n"), Parameter("span", "10")]) == "?node=n&span=10"
  {
    hide EncodeForm, Print;
    var node, span := Parameter("node", "n"), Parameter("span", "10");
    PrintedNode();
    PrintedSpan();
    assert [node, span][1..] == [span] && PrintAll([span]) == "span=10";
  }

  lemma PrintedNode()
    ensures Print(Parameter("node", "n")) == "node=n"
  {
    hide EncodeForm;
    PlainForm("node");
    PlainForm("n");
  }

  lemma PrintedSpan()
    ensures Print(Parameter("span", "10")) == "span=10"
  {
    hide EncodeForm;
    PlainForm("span");
    PlainForm("10");
  }
}
