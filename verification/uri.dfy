/** `decodeURIComponent` and `encodeURIComponent` (the Decode and Encode
    operations of ECMAScript, section 19.2.6 of ECMA-262, with an empty
    reserved set), on strings of Unicode scalar values. A percent-escape run
    is read as UTF-8 as section 3 of RFC 3629 defines it. */
module Uri {

  import opened Common

  /** The characters `encodeURIComponent` leaves alone: letters, digits and `-_.!~*'()`. */
  predicate IsUnreserved(c: char)
  {
    || ('a' <= c <= 'z') || ('A' <= c <= 'Z') || ('0' <= c <= '9')
    || c == '-' || c == '_' || c == '.' || c == '!' || c == '~' || c == '*' || c == '\'' || c == '(' || c == ')'
  }

  /** The upper-case hex digit of a value below 16. */
  function HexDigit(d: nat): (c: char)
    requires d < 16
    ensures ('0' <= c <= '9') || ('A' <= c <= 'F')
  {
    if d < 10 then ('0' as int + d) as char else ('A' as int + d - 10) as char
  }

  /** The value of a hex digit of either case. */
  function HexValue(c: char): (v: Option<nat>)
    ensures v.Some? ==> v.value < 16
  {
    if '0' <= c <= '9' then Some(c as int - '0' as int)
    else if 'a' <= c <= 'f' then Some(c as int - 'a' as int + 10)
    else if 'A' <= c <= 'F' then Some(c as int - 'A' as int + 10)
    else None
  }

  lemma HexDigitValue(d: nat)
    requires d < 16
    ensures HexValue(HexDigit(d)) == Some(d)
  {
  }

  /** The octet of the escape `%XY` at position `k`, if there is a well-formed one. */
  function OctetAt(s: string, k: nat): (b: Option<nat>)
    ensures b.Some? ==> k + 3 <= |s| && s[k] == '%' && b.value < 256
  {
    if k + 3 <= |s| && s[k] == '%' && HexValue(s[k + 1]).Some? && HexValue(s[k + 2]).Some? then
      Some(HexValue(s[k + 1]).value * 16 + HexValue(s[k + 2]).value)
    else None
  }

  /** How many octets a UTF-8 sequence with this first octet has; 0 for an
      octet that cannot start one (a continuation octet, or five or more
      leading one bits). */
  function SequenceLength(b: nat): (n: nat)
    ensures n <= 4
  {
    if b < 0x80 then 1
    else if b < 0xC0 then 0
    else if b < 0xE0 then 2
    else if b < 0xF0 then 3
    else if b < 0xF8 then 4
    else 0
  }

  predicate IsContinuation(b: Option<nat>)
  {
    b.Some? && 0x80 <= b.value < 0xC0
  }

  /** The code point an escape run of `n` octets starting with `b0` encodes,
      if it is valid UTF-8: no continuation octet missing or malformed, no
      overlong form, no surrogate, nothing above U+10FFFF. */
  function DecodeSequence(s: string, n: nat, b0: nat): (r: Option<char>)
    requires 1 <= n <= 4 && |s| >= 3 * n && SequenceLength(b0) == n
  {
    if n == 1 then Some(b0 as char)
    else
      var b1 := OctetAt(s, 3);
      if !IsContinuation(b1) then None
      else if n == 2 then
        var v := (b0 - 0xC0) * 64 + (b1.value - 0x80);
        if v >= 0x80 then Some(v as char) else None
      else
        var b2 := OctetAt(s, 6);
        if !IsContinuation(b2) then None
        else if n == 3 then
          var v := ((b0 - 0xE0) * 64 + (b1.value - 0x80)) * 64 + (b2.value - 0x80);
          if v >= 0x800 && !(0xD800 <= v < 0xE000) then Some(v as char) else None
        else
          var b3 := OctetAt(s, 9);
          if !IsContinuation(b3) then None
          else
            var v := (((b0 - 0xF0) * 64 + (b1.value - 0x80)) * 64 + (b2.value - 0x80)) * 64 + (b3.value - 0x80);
            if 0x10000 <= v < 0x110000 then Some(v as char) else None
  }

  function Prepend(c: char, r: Option<string>): Option<string>
  {
    if r.None? then None else Some([c] + r.value)
  }

  /** `decodeURIComponent(s)`; `None` is the URIError it throws. */
  function Decode(s: string): (r: Option<string>)
    decreases |s|
  {
    if s == [] then Some([])
    else if s[0] != '%' then Prepend(s[0], Decode(s[1..]))
    else
      var b0 := OctetAt(s, 0);
      if b0.None? then None
      else
        var n := SequenceLength(b0.value);
        if n == 0 || |s| < 3 * n then None
        else
          var c := DecodeSequence(s, n, b0.value);
          if c.None? then None else Prepend(c.value, Decode(s[3 * n..]))
  }

  /** A string without `%` decodes to itself. */
  lemma {:induction false} DecodeWithoutPercent(s: string)
    requires '%' !in s
    ensures Decode(s) == Some(s)
  {
    if s != [] {
      assert s[0] in s;
      assert '%' !in s[1..];
      DecodeWithoutPercent(s[1..]);
      assert [s[0]] + s[1..] == s;
    }
  }

  /** Malformed escapes throw: a lone `%`, a non-hex escape, a lead octet
      with its continuation missing, a stray continuation octet and an
      overlong form. */
  lemma MalformedEscapesFail()
    ensures Decode("%") == None
    ensures Decode("%zz") == None
    ensures Decode("%E9") == None
    ensures Decode("%80") == None
    ensures Decode("%C0%80") == None
  {
    assert OctetAt("%E9", 0) == Some(0xE9);
    assert OctetAt("%80", 0) == Some(0x80);
    assert OctetAt("%C0%80", 0) == Some(0xC0);
    assert OctetAt("%C0%80", 3) == Some(0x80);
  }

  /** The UTF-8 octets of a code point. */
  function Utf8(c: char): (bytes: seq<nat>)
    ensures 1 <= |bytes| <= 4
    ensures forall j :: 0 <= j < |bytes| ==> bytes[j] < 256
  {
    var cp := c as int;
    if cp < 0x80 then [cp]
    else if cp < 0x800 then [0xC0 + cp / 64, 0x80 + cp % 64]
    else if cp < 0x10000 then [0xE0 + cp / 4096, 0x80 + (cp / 64) % 64, 0x80 + cp % 64]
    else [0xF0 + cp / 262144, 0x80 + (cp / 4096) % 64, 0x80 + (cp / 64) % 64, 0x80 + cp % 64]
  }

  /** Each octet as `%XY` with upper-case hex digits. */
  function PercentEncode(bytes: seq<nat>): (r: string)
    requires forall j :: 0 <= j < |bytes| ==> bytes[j] < 256
    ensures |r| == 3 * |bytes|
  {
    seq(3 * |bytes|, i requires 0 <= i < 3 * |bytes| =>
      var b := bytes[i / 3];
      if i % 3 == 0 then '%' else if i % 3 == 1 then HexDigit(b / 16) else HexDigit(b % 16))
  }

  function EncodeChar(c: char): (e: string)
    ensures e != []
  {
    if IsUnreserved(c) then [c] else PercentEncode(Utf8(c))
  }

  /** `encodeURIComponent(s)`. */
  function Encode(s: string): (e: string)
    ensures s != [] ==> e != []
  {
    if s == [] then [] else EncodeChar(s[0]) + Encode(s[1..])
  }

  /** The encoding holds only unreserved characters, `%` and upper-case hex
      digits; in particular no `;` and no `"`. */
  lemma {:induction false} EncodeAlphabet(s: string)
    ensures forall i :: 0 <= i < |Encode(s)| ==>
      IsUnreserved(Encode(s)[i]) || Encode(s)[i] == '%' || ('0' <= Encode(s)[i] <= '9') || ('A' <= Encode(s)[i] <= 'F')
  {
    if s != [] {
      EncodeAlphabet(s[1..]);
      var e, rest := EncodeChar(s[0]), Encode(s[1..]);
      assert Encode(s) == e + rest;
      forall i | 0 <= i < |Encode(s)|
        ensures IsUnreserved(Encode(s)[i]) || Encode(s)[i] == '%' || ('0' <= Encode(s)[i] <= '9') || ('A' <= Encode(s)[i] <= 'F')
      {
        if i >= |e| { assert Encode(s)[i] == rest[i - |e|]; }
      }
    }
  }

  /** The `j`-th escape of a percent-encoding reads back as the `j`-th octet,
      whatever follows the encoding. */
  lemma OctetOfEncoding(bytes: seq<nat>, rest: string, j: nat)
    requires forall i :: 0 <= i < |bytes| ==> bytes[i] < 256
    requires j < |bytes|
    ensures OctetAt(PercentEncode(bytes) + rest, 3 * j) == Some(bytes[j])
  {
    var s := PercentEncode(bytes) + rest;
    var b := bytes[j];
    assert s[3 * j] == '%';
    assert s[3 * j + 1] == HexDigit(b / 16);
    assert s[3 * j + 2] == HexDigit(b % 16);
    HexDigitValue(b / 16);
    HexDigitValue(b % 16);
  }

  /** Splitting a code point into 6-bit groups and putting them back together. */
  lemma SixBitGroups(cp: int)
    requires 0 <= cp
    ensures cp == (cp / 64) * 64 + cp % 64
    ensures cp / 64 == (cp / 4096) * 64 + (cp / 64) % 64
    ensures cp / 4096 == (cp / 262144) * 64 + (cp / 4096) % 64
  {
    var q := cp / 64;
    assert cp / 4096 == q / 64;
    var q2 := cp / 4096;
    assert cp / 262144 == q2 / 64;
  }

  lemma Utf8Decodes2(c: char, s: string)
    requires 0x80 <= c as int < 0x800
    requires |s| >= 6 && OctetAt(s, 3) == Some(Utf8(c)[1])
    ensures SequenceLength(Utf8(c)[0]) == 2
    ensures DecodeSequence(s, 2, Utf8(c)[0]) == Some(c)
  {
    var cp := c as int;
    SixBitGroups(cp);
    var b0, b1 := 0xC0 + cp / 64, 0x80 + cp % 64;
    assert Utf8(c) == [b0, b1];
    assert (b0 - 0xC0) * 64 + (b1 - 0x80) == cp;
  }

  lemma Utf8Decodes3(c: char, s: string)
    requires 0x800 <= c as int < 0x10000
    requires |s| >= 9 && OctetAt(s, 3) == Some(Utf8(c)[1]) && OctetAt(s, 6) == Some(Utf8(c)[2])
    ensures SequenceLength(Utf8(c)[0]) == 3
    ensures DecodeSequence(s, 3, Utf8(c)[0]) == Some(c)
  {
    var cp := c as int;
    SixBitGroups(cp);
    var b0, b1, b2 := 0xE0 + cp / 4096, 0x80 + (cp / 64) % 64, 0x80 + cp % 64;
    assert Utf8(c) == [b0, b1, b2];
    assert ((b0 - 0xE0) * 64 + (b1 - 0x80)) * 64 + (b2 - 0x80) == cp;
  }

  lemma Utf8Decodes4(c: char, s: string)
    requires 0x10000 <= c as int
    requires |s| >= 12 && OctetAt(s, 3) == Some(Utf8(c)[1]) && OctetAt(s, 6) == Some(Utf8(c)[2]) && OctetAt(s, 9) == Some(Utf8(c)[3])
    ensures SequenceLength(Utf8(c)[0]) == 4
    ensures DecodeSequence(s, 4, Utf8(c)[0]) == Some(c)
  {
    var cp := c as int;
    SixBitGroups(cp);
    var b0, b1, b2, b3 := 0xF0 + cp / 262144, 0x80 + (cp / 4096) % 64, 0x80 + (cp / 64) % 64, 0x80 + cp % 64;
    assert Utf8(c) == [b0, b1, b2, b3];
    assert (((b0 - 0xF0) * 64 + (b1 - 0x80)) * 64 + (b2 - 0x80)) * 64 + (b3 - 0x80) == cp;
  }

  /** The octets of a code point decode back to it. */
  lemma Utf8Decodes(c: char, rest: string)
    requires !IsUnreserved(c)
    ensures var bytes := Utf8(c); var s := PercentEncode(bytes) + rest;
      && OctetAt(s, 0) == Some(bytes[0])
      && SequenceLength(bytes[0]) == |bytes|
      && |s| >= 3 * |bytes|
      && DecodeSequence(s, |bytes|, bytes[0]) == Some(c)
  {
    var bytes := Utf8(c);
    var cp := c as int;
    OctetOfEncoding(bytes, rest, 0);
    if cp >= 0x80 {
      OctetOfEncoding(bytes, rest, 1);
      if cp >= 0x800 {
        OctetOfEncoding(bytes, rest, 2);
        if cp >= 0x10000 {
          OctetOfEncoding(bytes, rest, 3);
          Utf8Decodes4(c, PercentEncode(bytes) + rest);
        } else {
          Utf8Decodes3(c, PercentEncode(bytes) + rest);
        }
      } else {
        Utf8Decodes2(c, PercentEncode(bytes) + rest);
      }
    }
  }

  /** Decoding an encoded character followed by anything decodes the character first. */
  lemma DecodeEncodedChar(c: char, rest: string)
    ensures Decode(EncodeChar(c) + rest) == Prepend(c, Decode(rest))
  {
    if IsUnreserved(c) {
      assert ([c] + rest)[1..] == rest;
    } else {
      var bytes := Utf8(c);
      var s := PercentEncode(bytes) + rest;
      Utf8Decodes(c, rest);
      assert s[0] == '%';
      assert s[3 * |bytes|..] == rest;
    }
  }

  /** `decodeURIComponent(encodeURIComponent(s)) === s`. */
  lemma {:induction false} DecodeEncode(s: string)
    ensures Decode(Encode(s)) == Some(s)
  {
    if s != [] {
      DecodeEncode(s[1..]);
      DecodeEncodedChar(s[0], Encode(s[1..]));
      assert [s[0]] + s[1..] == s;
    }
  }
}
