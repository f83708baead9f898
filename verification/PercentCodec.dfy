/**
 Percent encodings of Unicode strings: UTF-8 bytes as `%XX`, the component codec of section 19.2.6 of ECMA-262,
 and the form codec of section 5 of the WHATWG URL Standard. A string is a sequence of Unicode scalar values.
 */
module PercentCodec {
  import opened Wrappers
  import opened Bytes

  // ---------------------------------------------------------------------------------------------
  // UTF-8.

  function Utf8(c: char): (bytes: seq<Byte>)
    ensures 1 <= |bytes| <= 4
  {
    var v := c as int;
    if v < 0x80 then [v]
    else if v < 0x800 then [0xC0 + v / 64, 0x80 + v % 64]
    else if v < 0x10000 then [0xE0 + v / 4096, 0x80 + v / 64 % 64, 0x80 + v % 64]
    else [0xF0 + v / 262144, 0x80 + v / 4096 % 64, 0x80 + v / 64 % 64, 0x80 + v % 64]
  }

  function Utf8All(s: string): seq<Byte> {
    if s == "" then [] else Utf8(s[0]) + Utf8All(s[1..])
  }

  /** The length a lead byte announces; zero for a byte that leads nothing. */
  function Width(lead: Byte): nat {
    if lead < 0x80 then 1
    else if 0xC0 <= lead < 0xE0 then 2
    else if 0xE0 <= lead < 0xF0 then 3
    else if 0xF0 <= lead < 0xF8 then 4
    else 0
  }

  predicate Continues(b: Byte) {
    0x80 <= b < 0xC0
  }

  function ScalarAt(v: int, least: int): Option<char> {
    if v >= least && (0 <= v < 0xD800 || 0xE000 <= v < 0x110000) then Some(v as char) else None
  }

  /** The payload of a sequence: six bits from each continuation byte after what the lead byte holds. */
  function Payload(lead: int, bytes: seq<Byte>): int {
    if bytes == [] then lead else Payload(lead, bytes[..|bytes| - 1]) * 64 + (bytes[|bytes| - 1] as int - 0x80)
  }

  /** The scalar value one complete sequence stands for: no overlong forms, no surrogates. */
  function Scalar(bytes: seq<Byte>): Option<char> {
    if bytes == [] || exists i :: 1 <= i < |bytes| && !Continues(bytes[i]) then None
    else if |bytes| == 1 then ScalarAt(bytes[0], 0)
    else if |bytes| == 2 then ScalarAt(Payload(bytes[0] as int - 0xC0, bytes[1..]), 0x80)
    else if |bytes| == 3 then ScalarAt(Payload(bytes[0] as int - 0xE0, bytes[1..]), 0x800)
    else if |bytes| == 4 then ScalarAt(Payload(bytes[0] as int - 0xF0, bytes[1..]), 0x10000)
    else None
  }

  lemma PayloadStep(lead: int, bytes: seq<Byte>, last: Byte)
    ensures Payload(lead, bytes + [last]) == Payload(lead, bytes) * 64 + (last as int - 0x80)
  {
  }

  lemma Sextets(v: nat)
    ensures v == v / 64 * 64 + v % 64 && v / 64 == v / 4096 * 64 + v / 64 % 64
    ensures v / 4096 == v / 262144 * 64 + v / 4096 % 64
  {
  }

  lemma ScalarOfUtf8(c: char)
    ensures Width(Utf8(c)[0]) == |Utf8(c)| && Scalar(Utf8(c)) == Some(c)
  {
    var v := c as int;
    var bytes := Utf8(c);
    Sextets(v);
    if 0x80 <= v < 0x800 {
      Payload2(v / 64, bytes[1..]);
    } else if 0x800 <= v < 0x10000 {
      Payload3(v / 4096, bytes[1..]);
    } else if 0x10000 <= v {
      Payload4(v / 262144, bytes[1..]);
    }
  }

  lemma Payload2(lead: int, bytes: seq<Byte>)
    requires |bytes| == 1
    ensures Payload(lead, bytes) == lead * 64 + (bytes[0] as int - 0x80)
  {
  }

  lemma Payload3(lead: int, bytes: seq<Byte>)
    requires |bytes| == 2
    ensures Payload(lead, bytes) == (lead * 64 + (bytes[0] as int - 0x80)) * 64 + (bytes[1] as int - 0x80)
  {
    assert bytes == bytes[..1] + [bytes[1]];
    Payload2(lead, bytes[..1]);
    PayloadStep(lead, bytes[..1], bytes[1]);
  }

  lemma Payload4(lead: int, bytes: seq<Byte>)
    requires |bytes| == 3
    ensures Payload(lead, bytes)
         == ((lead * 64 + (bytes[0] as int - 0x80)) * 64 + (bytes[1] as int - 0x80)) * 64 + (bytes[2] as int - 0x80)
  {
    assert bytes == bytes[..2] + [bytes[2]];
    Payload3(lead, bytes[..2]);
    PayloadStep(lead, bytes[..2], bytes[2]);
  }

  /** Strict UTF-8 decoding. */
  function FromUtf8(bytes: seq<Byte>): Option<string> {
    if bytes == [] then Some("")
    else
      var width := Width(bytes[0]);
      if width == 0 || width > |bytes| then None
      else
        var first, rest := Scalar(bytes[..width]), FromUtf8(bytes[width..]);
        if first.Some? && rest.Some? then Some([first.value] + rest.value) else None
  }

  lemma {:induction false} Utf8RoundTrip(s: string)
    ensures FromUtf8(Utf8All(s)) == Some(s)
  {
    if s != "" {
      var bytes, rest := Utf8(s[0]), Utf8All(s[1..]);
      Utf8RoundTrip(s[1..]);
      ScalarOfUtf8(s[0]);
      assert (bytes + rest)[..|bytes|] == bytes && (bytes + rest)[|bytes|..] == rest;
      assert [s[0]] + s[1..] == s;
    }
  }

  // ---------------------------------------------------------------------------------------------
  // Hexadecimal pairs.

  function UpperDigit(v: nat): char
    requires v < 16
  {
    if v < 10 then '0' + v as char else 'A' + (v - 10) as char
  }

  function DigitValue(c: char): Option<nat> {
    if '0' <= c <= '9' then Some(c as int - '0' as int)
    else if 'a' <= c <= 'f' then Some(c as int - 'a' as int + 10)
    else if 'A' <= c <= 'F' then Some(c as int - 'A' as int + 10)
    else None
  }

  function Escape(bytes: seq<Byte>): string {
    if bytes == [] then "" else ['%', UpperDigit(bytes[0] / 16), UpperDigit(bytes[0] % 16)] + Escape(bytes[1..])
  }

  /** The byte a `%XX` at the head of the string stands for. */
  function Unescape(s: string): Option<Byte> {
    if |s| >= 3 && s[0] == '%' && DigitValue(s[1]).Some? && DigitValue(s[2]).Some? then
      DigitBounds(s[1]);
      DigitBounds(s[2]);
      Some(DigitValue(s[1]).value * 16 + DigitValue(s[2]).value)
    else None
  }

  lemma DigitBounds(c: char)
    ensures DigitValue(c).Some? ==> DigitValue(c).value < 16
  {
  }

  lemma UnescapeEscape(b: Byte, rest: string)
    ensures Unescape(['%', UpperDigit(b / 16), UpperDigit(b % 16)] + rest) == Some(b)
  {
  }

  // ---------------------------------------------------------------------------------------------
  // encodeURIComponent and decodeURIComponent.

  predicate Alphanumeric(c: char) {
    'A' <= c <= 'Z' || 'a' <= c <= 'z' || '0' <= c <= '9'
  }

  predicate Unreserved(c: char) {
    Alphanumeric(c) || c in "-_.!~*'()"
  }

  function EncodeComponent(s: string): string {
    if s == "" then "" else (if Unreserved(s[0]) then [s[0]] else Escape(Utf8(s[0]))) + EncodeComponent(s[1..])
  }

  /** The bytes of `count` escapes in a row. */
  function Escapes(s: string, count: nat): Option<seq<Byte>> {
    if count == 0 then Some([])
    else
      var first := Unescape(s);
      if first.None? then None
      else
        var rest := Escapes(s[3..], count - 1);
        if rest.Some? then Some([first.value] + rest.value) else None
  }

  /** `None` where the standard throws. */
  function DecodeComponent(s: string): Option<string> {
    if s == "" then Some("")
    else if s[0] != '%' then
      var rest := DecodeComponent(s[1..]);
      if rest.Some? then Some([s[0]] + rest.value) else None
    else
      var lead := Unescape(s);
      if lead.None? || Width(lead.value) == 0 || 3 * Width(lead.value) > |s| then None
      else
        var bytes := Escapes(s, Width(lead.value));
        var rest := DecodeComponent(s[3 * Width(lead.value)..]);
        if bytes.Some? && Scalar(bytes.value).Some? && rest.Some? then
          Some([Scalar(bytes.value).value] + rest.value)
        else None
  }

  lemma {:induction false} EscapesOfEscape(bytes: seq<Byte>, rest: string)
    ensures |Escape(bytes)| == 3 * |bytes| && Escapes(Escape(bytes) + rest, |bytes|) == Some(bytes)
  {
    if bytes != [] {
      var head := ['%', UpperDigit(bytes[0] / 16), UpperDigit(bytes[0] % 16)];
      var tail := Escape(bytes[1..]) + rest;
      assert Escape(bytes) + rest == head + tail;
      UnescapeEscape(bytes[0], tail);
      EscapesOfEscape(bytes[1..], rest);
      assert (head + tail)[3..] == tail;
      assert [bytes[0]] + bytes[1..] == bytes;
    }
  }

  lemma EscapedHead(c: char, rest: string)
    ensures
      var s := Escape(Utf8(c)) + rest;
      && s != "" && s[0] == '%' && Unescape(s) == Some(Utf8(c)[0])
      && |s| >= 3 * |Utf8(c)| && s[3 * |Utf8(c)|..] == rest && Escapes(s, |Utf8(c)|) == Some(Utf8(c))
  {
    var bytes := Utf8(c);
    hide Utf8;
    var head := ['%', UpperDigit(bytes[0] / 16), UpperDigit(bytes[0] % 16)];
    var tail := Escape(bytes[1..]) + rest;
    assert Escape(bytes) + rest == head + tail;
    UnescapeEscape(bytes[0], tail);
    EscapesOfEscape(bytes, rest);
  }

  /** decodeURIComponent undoes encodeURIComponent on every string. */
  lemma {:induction false} ComponentRoundTrip(s: string)
    ensures DecodeComponent(EncodeComponent(s)) == Some(s)
  {
    if s != "" {
      var c, rest := s[0], EncodeComponent(s[1..]);
      ComponentRoundTrip(s[1..]);
      assert [c] + s[1..] == s;
      if Unreserved(c) {
        assert ([c] + rest)[1..] == rest;
      } else {
        EscapedHead(c, rest);
        ScalarOfUtf8(c);
        hide Utf8, Escape, Escapes, Unescape, Scalar, Width;
      }
    }
  }

  // ---------------------------------------------------------------------------------------------
  // The form encoding of one name or value.

  predicate FormSafe(c: char) {
    Alphanumeric(c) || c in "*-._"
  }

  function EncodeForm(s: string): string {
    if s == "" then ""
    else (if s[0] == ' ' then "+" else if FormSafe(s[0]) then [s[0]] else Escape(Utf8(s[0]))) + EncodeForm(s[1..])
  }

  /** Plus signs become spaces and escapes become bytes; a stray percent sign stands for itself. */
  function FormBytes(s: string): seq<Byte> {
    if s == "" then []
    else if s[0] == '+' then [0x20] + FormBytes(s[1..])
    else if Unescape(s).Some? then [Unescape(s).value] + FormBytes(s[3..])
    else Utf8(s[0]) + FormBytes(s[1..])
  }

  lemma EscapeStep(bytes: seq<Byte>, rest: string)
    requires bytes != []
    ensures Escape(bytes) + rest == ['%', UpperDigit(bytes[0] / 16), UpperDigit(bytes[0] % 16)]
      + (Escape(bytes[1..]) + rest)
  {
  }

  lemma HeadAndTail(bytes: seq<Byte>, more: seq<Byte>)
    requires bytes != []
    ensures [bytes[0]] + (bytes[1..] + more) == bytes + more
  {
  }

  lemma FormBytesStep(b: Byte, tail: string)
    ensures FormBytes(['%', UpperDigit(b / 16), UpperDigit(b % 16)] + tail) == [b] + FormBytes(tail)
  {
  }

  lemma {:induction false} FormBytesOfEscape(bytes: seq<Byte>, rest: string)
    ensures FormBytes(Escape(bytes) + rest) == bytes + FormBytes(rest)
  {
    if bytes == [] {
      assert Escape(bytes) + rest == rest;
    } else {
      hide *;
      EscapeStep(bytes, rest);
      FormBytesStep(bytes[0], Escape(bytes[1..]) + rest);
      FormBytesOfEscape(bytes[1..], rest);
      HeadAndTail(bytes, FormBytes(rest));
    }
  }

  lemma {:induction false} FormRoundTrip(s: string)
    ensures FormBytes(EncodeForm(s)) == Utf8All(s)
  {
    if s != "" {
      var c, rest := s[0], EncodeForm(s[1..]);
      FormRoundTrip(s[1..]);
      if c == ' ' {
        assert ("+" + rest)[1..] == rest;
      } else if FormSafe(c) {
        assert ([c] + rest)[1..] == rest;
      } else {
        FormBytesOfEscape(Utf8(c), rest);
      }
    }
  }

  // ---------------------------------------------------------------------------------------------
  // Both encodings go letter by letter.

  lemma {:induction false} EncodingsConcat(a: string, b: string)
    ensures EncodeComponent(a + b) == EncodeComponent(a) + EncodeComponent(b)
    ensures EncodeForm(a + b) == EncodeForm(a) + EncodeForm(b)
  {
    if a == "" {
      assert a + b == b;
    } else {
      assert (a + b)[1..] == a[1..] + b;
      hide Escape, Utf8;
      EncodingsConcat(a[1..], b);
    }
  }

  lemma OneLetter(c: char)
    ensures EncodeComponent([c]) == if Unreserved(c) then [c] else Escape(Utf8(c))
    ensures EncodeForm([c]) == if c == ' ' then "+" else if FormSafe(c) then [c] else Escape(Utf8(c))
  {
    assert [c][1..] == "";
  }

  lemma EscapedLetters()
    ensures EncodeComponent(" ") == "%20" && EncodeForm(" ") == "+"
    ensures EncodeComponent("\U{e9}") == "%C3%A9" && EncodeForm("\U{e9}") == "%C3%A9"
  {
    OneLetter(' ');
    OneLetter('\U{e9}');
    assert Utf8(' ') == [0x20] && Utf8('\U{e9}') == [0xC3, 0xA9];
    EscapeOne(0x20);
    EscapeOne(0xA9);
    EscapeTwo(0xC3, 0xA9);
  }

  lemma EscapeOne(b: Byte)
    ensures Escape([b]) == ['%', UpperDigit(b / 16), UpperDigit(b % 16)]
  {
    assert [b][1..] == [];
  }

  lemma EscapeTwo(b: Byte, c: Byte)
    ensures Escape([b, c]) == ['%', UpperDigit(b / 16), UpperDigit(b % 16)] + Escape([c])
  {
    assert [b, c][1..] == [c];
  }
}
