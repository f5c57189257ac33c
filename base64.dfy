/** The browser's `btoa` and `atob`: the base64 alphabet and padding of
    section 4 of RFC 4648 for encoding, and the "forgiving-base64 decode" of
    the WHATWG Infra standard for decoding (ASCII whitespace is dropped,
    padding is optional, left-over bits are discarded). Strings passed to
    `btoa` must be Latin-1: one byte per code unit. */
module Base64 {
  import opened Common

  type Byte = x: int | 0 <= x < 256
  type Sextet = x: int | 0 <= x < 64

  /** The character of the base64 alphabet for a 6-bit value. */
  function CharOf(v: Sextet): char {
    if v < 26 then ('A' as int + v) as char
    else if v < 52 then ('a' as int + (v - 26)) as char
    else if v < 62 then ('0' as int + (v - 52)) as char
    else if v == 62 then '+'
    else '/'
  }

  /** The 6-bit value of a base64 alphabet character; None for any other
      character. */
  function ValueOf(c: char): (r: Option<Sextet>)
    ensures r.Some? ==> CharOf(r.value) == c
  {
    if 'A' <= c <= 'Z' then Some(c as int - 'A' as int)
    else if 'a' <= c <= 'z' then Some(c as int - 'a' as int + 26)
    else if '0' <= c <= '9' then Some(c as int - '0' as int + 52)
    else if c == '+' then Some(62)
    else if c == '/' then Some(63)
    else None
  }

  lemma ValueOfCharOf(v: Sextet)
    ensures ValueOf(CharOf(v)) == Some(v)
  {
  }

  /** The four 6-bit values of a 24-bit group b0 b1 b2. */
  function Sextet0(b0: Byte): Sextet { b0 / 4 }
  function Sextet1(b0: Byte, b1: Byte): Sextet { (b0 % 4) * 16 + b1 / 16 }
  function Sextet2(b1: Byte, b2: Byte): Sextet { (b1 % 16) * 4 + b2 / 64 }
  function Sextet3(b2: Byte): Sextet { b2 % 64 }

  /** The three bytes of a 24-bit group v0 v1 v2 v3. */
  function Byte0(v0: Sextet, v1: Sextet): Byte { v0 * 4 + v1 / 16 }
  function Byte1(v1: Sextet, v2: Sextet): Byte { (v1 % 16) * 16 + v2 / 4 }
  function Byte2(v2: Sextet, v3: Sextet): Byte { (v2 % 4) * 64 + v3 }

  /** The length of the unpadded encoding of `n` bytes: 4 characters per
      full group, and one more character than bytes in a final partial
      group. Its remainder modulo 4 is 0, 2 or 3 as `n` modulo 3 is 0, 1
      or 2, so it is never 1. */
  function CoreLength(n: nat): (r: nat)
    ensures n % 3 == 0 ==> r % 4 == 0
    ensures n % 3 == 1 ==> r % 4 == 2
    ensures n % 3 == 2 ==> r % 4 == 3
    ensures n <= r
  {
    if n >= 3 then 4 + CoreLength(n - 3) else if n == 0 then 0 else n + 1
  }

  /** Encoding without the trailing '=' padding: every 3 bytes become 4
      characters, a final 2 bytes become 3 characters and a final byte
      becomes 2 characters (the unused low bits are zero). */
  function EncodeCore(b: seq<Byte>): (r: string)
    ensures |r| == CoreLength(|b|)
    ensures forall c :: c in r ==> ValueOf(c).Some?
    ensures InAlphabet(r)
  {
    if |b| >= 3 then
      ValueOfCharOf(Sextet0(b[0]));
      ValueOfCharOf(Sextet1(b[0], b[1]));
      ValueOfCharOf(Sextet2(b[1], b[2]));
      ValueOfCharOf(Sextet3(b[2]));
      [CharOf(Sextet0(b[0])), CharOf(Sextet1(b[0], b[1])),
       CharOf(Sextet2(b[1], b[2])), CharOf(Sextet3(b[2]))] + EncodeCore(b[3..])
    else if |b| == 2 then
      ValueOfCharOf(Sextet0(b[0]));
      ValueOfCharOf(Sextet1(b[0], b[1]));
      ValueOfCharOf(Sextet2(b[1], 0));
      [CharOf(Sextet0(b[0])), CharOf(Sextet1(b[0], b[1])), CharOf(Sextet2(b[1], 0))]
    else if |b| == 1 then
      ValueOfCharOf(Sextet0(b[0]));
      ValueOfCharOf(Sextet1(b[0], 0));
      [CharOf(Sextet0(b[0])), CharOf(Sextet1(b[0], 0))]
    else
      []
  }

  /** The '=' characters that pad the encoding to a multiple of 4. */
  function Padding(n: nat): (r: string)
    ensures |r| == if n % 3 == 0 then 0 else 3 - n % 3
  {
    if n % 3 == 1 then "==" else if n % 3 == 2 then "=" else ""
  }

  /** The padding completes the last group of four characters. */
  lemma PaddedLength(n: nat)
    ensures (CoreLength(n) + |Padding(n)|) % 4 == 0
  {
    var c := CoreLength(n);
    if n % 3 == 1 {
      assert c % 4 == 2 && |Padding(n)| == 2;
    } else if n % 3 == 2 {
      assert c % 4 == 3 && |Padding(n)| == 1;
    } else {
      assert c % 4 == 0 && |Padding(n)| == 0;
    }
  }

  /** Base64 encoding of a byte sequence, with padding. */
  function Encode(b: seq<Byte>): (r: string)
    ensures |r| % 4 == 0
  {
    PaddedLength(|b|);
    EncodeCore(b) + Padding(|b|)
  }

  /** The ASCII whitespace of the Infra standard: TAB, LF, FF, CR, SPACE. */
  predicate IsAsciiWhitespace(c: char) {
    c == '\t' || c == '\n' || c == '\U{C}' || c == '\r' || c == ' '
  }

  function StripWhitespace(s: string): (r: string)
    ensures forall c :: c in r ==> !IsAsciiWhitespace(c)
  {
    if s == [] then []
    else if IsAsciiWhitespace(s[0]) then StripWhitespace(s[1..])
    else [s[0]] + StripWhitespace(s[1..])
  }

  /** When the length is a multiple of 4, one or two trailing '=' are
      removed. */
  function StripPadding(s: string): string {
    if |s| % 4 == 0 && |s| >= 2 && s[|s| - 2] == '=' && s[|s| - 1] == '=' then s[..|s| - 2]
    else if |s| % 4 == 0 && |s| >= 1 && s[|s| - 1] == '=' then s[..|s| - 1]
    else s
  }

  predicate InAlphabet(s: string) {
    forall i :: 0 <= i < |s| ==> ValueOf(s[i]).Some?
  }

  /** Decoding of unpadded data made of alphabet characters: 24 bits give 3
      bytes; 18 bits left over give 2 bytes and 12 bits give 1 byte, the
      remaining bits discarded. */
  function DecodeCore(s: string): seq<Byte>
    requires InAlphabet(s) && |s| % 4 != 1
  {
    if |s| >= 4 then
      var v0, v1, v2, v3 := ValueOf(s[0]).value, ValueOf(s[1]).value, ValueOf(s[2]).value, ValueOf(s[3]).value;
      [Byte0(v0, v1), Byte1(v1, v2), Byte2(v2, v3)] + DecodeCore(s[4..])
    else if |s| == 3 then
      var v0, v1, v2 := ValueOf(s[0]).value, ValueOf(s[1]).value, ValueOf(s[2]).value;
      [Byte0(v0, v1), Byte1(v1, v2)]
    else if |s| == 2 then
      [Byte0(ValueOf(s[0]).value, ValueOf(s[1]).value)]
    else
      []
  }

  /** Forgiving-base64 decode; None is the failure that makes `atob`
      throw: 6 bits left over, or a character outside the alphabet once
      whitespace and padding are gone. */
  function Decode(s: string): Option<seq<Byte>> {
    var d := StripPadding(StripWhitespace(s));
    if |d| % 4 == 1 then None
    else if !InAlphabet(d) then None
    else Some(DecodeCore(d))
  }

  /** One byte per character; only for Latin-1 strings. */
  predicate IsLatin1(s: string) {
    forall i :: 0 <= i < |s| ==> s[i] as int < 256
  }

  function ToBytes(s: string): (b: seq<Byte>)
    requires IsLatin1(s)
    ensures |b| == |s|
    ensures forall i :: 0 <= i < |s| ==> b[i] == s[i] as int
  {
    if s == [] then [] else [s[0] as int as Byte] + ToBytes(s[1..])
  }

  function FromBytes(b: seq<Byte>): (s: string)
    ensures |s| == |b|
    ensures forall i :: 0 <= i < |b| ==> s[i] as int == b[i]
  {
    if b == [] then [] else [b[0] as char] + FromBytes(b[1..])
  }

  /** `btoa(s)`: None when `s` has a character above U+00FF, where `btoa`
      throws an InvalidCharacterError. */
  function Btoa(s: string): Option<string> {
    if IsLatin1(s) then Some(Encode(ToBytes(s))) else None
  }

  /** `atob(s)`: None when the forgiving decode fails, where `atob`
      throws. */
  function Atob(s: string): Option<string> {
    match Decode(s)
    case Some(b) => Some(FromBytes(b))
    case None => None
  }

  // ----- the round trip -----

  /** Bytes from one 24-bit group survive encoding and decoding. */
  lemma GroupRoundTrip(b0: Byte, b1: Byte, b2: Byte)
    ensures Byte0(Sextet0(b0), Sextet1(b0, b1)) == b0
    ensures Byte1(Sextet1(b0, b1), Sextet2(b1, b2)) == b1
    ensures Byte2(Sextet2(b1, b2), Sextet3(b2)) == b2
  {
    assert b1 / 16 < 16;
    assert ((b0 % 4) * 16 + b1 / 16) / 16 == b0 % 4;
    assert ((b0 % 4) * 16 + b1 / 16) % 16 == b1 / 16;
    assert b2 / 64 < 4;
    assert ((b1 % 16) * 4 + b2 / 64) / 4 == b1 % 16;
    assert ((b1 % 16) * 4 + b2 / 64) % 4 == b2 / 64;
  }

  /** The first group survives encoding and decoding when the rest does. */
  lemma DecodeGroup(b0: Byte, b1: Byte, b2: Byte, rest: seq<Byte>)
    requires DecodeCore(EncodeCore(rest)) == rest
    ensures DecodeCore(EncodeCore([b0, b1, b2] + rest)) == [b0, b1, b2] + rest
  {
    var b := [b0, b1, b2] + rest;
    var s := EncodeCore(b);
    var tail := EncodeCore(rest);
    var v0, v1, v2, v3 := Sextet0(b0), Sextet1(b0, b1), Sextet2(b1, b2), Sextet3(b2);
    assert b[3..] == rest;
    assert s == [CharOf(v0), CharOf(v1), CharOf(v2), CharOf(v3)] + tail;
    ValueOfCharOf(v0);
    ValueOfCharOf(v1);
    ValueOfCharOf(v2);
    ValueOfCharOf(v3);
    assert s[4..] == tail;
    GroupRoundTrip(b0, b1, b2);
  }

  /** A sequence of three or more bytes is its first three and the rest. */
  lemma SplitThree(b: seq<Byte>)
    requires |b| >= 3
    ensures b == [b[0], b[1], b[2]] + b[3..]
  {
  }

  lemma DecodeTwo(b0: Byte, b1: Byte)
    ensures DecodeCore(EncodeCore([b0, b1])) == [b0, b1]
  {
    var s := EncodeCore([b0, b1]);
    var v0, v1, v2 := Sextet0(b0), Sextet1(b0, b1), Sextet2(b1, 0);
    assert s == [CharOf(v0), CharOf(v1), CharOf(v2)];
    ValueOfCharOf(v0);
    ValueOfCharOf(v1);
    ValueOfCharOf(v2);
    assert ValueOf(s[0]).value == v0 && ValueOf(s[1]).value == v1 && ValueOf(s[2]).value == v2;
    assert DecodeCore(s) == [Byte0(v0, v1), Byte1(v1, v2)];
    GroupRoundTrip(b0, b1, 0);
  }

  lemma DecodeOne(b0: Byte)
    ensures DecodeCore(EncodeCore([b0])) == [b0]
  {
    var s := EncodeCore([b0]);
    var v0, v1 := Sextet0(b0), Sextet1(b0, 0);
    assert s == [CharOf(v0), CharOf(v1)];
    ValueOfCharOf(v0);
    ValueOfCharOf(v1);
    assert ValueOf(s[0]).value == v0 && ValueOf(s[1]).value == v1;
    assert DecodeCore(s) == [Byte0(v0, v1)];
    GroupRoundTrip(b0, 0, 0);
  }

  /** A final group of fewer than three bytes survives. */
  lemma DecodeShort(b: seq<Byte>)
    requires |b| < 3
    ensures DecodeCore(EncodeCore(b)) == b
  {
    if |b| == 2 {
      DecodeTwo(b[0], b[1]);
      assert b == [b[0], b[1]];
    } else if |b| == 1 {
      DecodeOne(b[0]);
      assert b == [b[0]];
    }
  }

  lemma {:induction false} DecodeEncodeCore(b: seq<Byte>)
    ensures InAlphabet(EncodeCore(b)) && |EncodeCore(b)| % 4 != 1
    ensures DecodeCore(EncodeCore(b)) == b
    decreases |b|
  {
    if |b| >= 3 {
      SplitThree(b);
      DecodeEncodeCore(b[3..]);
      DecodeGroup(b[0], b[1], b[2], b[3..]);
    } else {
      DecodeShort(b);
    }
  }

  lemma {:induction false} StripWhitespaceNoop(s: string)
    requires forall c :: c in s ==> !IsAsciiWhitespace(c)
    ensures StripWhitespace(s) == s
  {
    if s != [] {
      assert s[0] in s;
      assert forall c :: c in s[1..] ==> c in s;
      StripWhitespaceNoop(s[1..]);
      assert s == [s[0]] + s[1..];
    }
  }

  lemma StripPaddingEncode(b: seq<Byte>)
    ensures StripPadding(Encode(b)) == EncodeCore(b)
  {
    var core := EncodeCore(b);
    var e := Encode(b);
    assert e == core + Padding(|b|);
    assert ValueOf('=').None?;
    if |b| % 3 == 2 {
      assert e == core + "=" && |core| % 4 == 3;
      assert core[|core| - 1] in core;
      assert e[|e| - 2] == core[|core| - 1] != '=';
      assert e[..|e| - 1] == core;
    } else if |b| % 3 == 1 {
      assert e == core + "==" && |core| % 4 == 2;
      assert e[..|e| - 2] == core;
    } else {
      assert e == core && |core| % 4 == 0;
      if |core| > 0 {
        assert core[|core| - 1] in core;
      }
    }
  }

  lemma EncodeHasNoWhitespace(b: seq<Byte>)
    ensures forall c :: c in Encode(b) ==> !IsAsciiWhitespace(c)
  {
    var core := EncodeCore(b);
    var e := Encode(b);
    forall c | c in e ensures !IsAsciiWhitespace(c) {
      var k :| 0 <= k < |e| && e[k] == c;
      if k < |core| {
        assert c in core;
        assert ValueOf(c).Some?;
      } else {
        assert c == '=';
      }
    }
  }

  /** Decoding undoes encoding, for every byte sequence. */
  lemma DecodeEncode(b: seq<Byte>)
    ensures Decode(Encode(b)) == Some(b)
  {
    var e := Encode(b);
    var core := EncodeCore(b);
    EncodeHasNoWhitespace(b);
    StripWhitespaceNoop(e);
    StripPaddingEncode(b);
    assert StripPadding(StripWhitespace(e)) == core;
    DecodeEncodeCore(b);
  }

  lemma EncodeInjective(a: seq<Byte>, b: seq<Byte>)
    ensures Encode(a) == Encode(b) <==> a == b
  {
    DecodeEncode(a);
    DecodeEncode(b);
  }

  lemma {:induction false} FromToBytes(s: string)
    requires IsLatin1(s)
    ensures FromBytes(ToBytes(s)) == s
  {
  }

  /** `atob(btoa(s)) == s` whenever `btoa` accepts `s`. */
  lemma AtobBtoa(s: string)
    requires IsLatin1(s)
    ensures Atob(Btoa(s).value) == Some(s)
  {
    DecodeEncode(ToBytes(s));
    FromToBytes(s);
  }

  /** `btoa` is one-to-one on the strings it accepts. */
  lemma BtoaInjective(s: string, t: string)
    requires IsLatin1(s) && IsLatin1(t)
    ensures Btoa(s) == Btoa(t) <==> s == t
  {
    EncodeInjective(ToBytes(s), ToBytes(t));
    if ToBytes(s) == ToBytes(t) {
      FromToBytes(s);
      FromToBytes(t);
    }
  }

  // ----- what `atob` rejects -----

  /** Removing whitespace keeps every other character. */
  lemma {:induction false} StripKeepsOthers(s: string, i: nat)
    requires i < |s| && !IsAsciiWhitespace(s[i])
    ensures s[i] in StripWhitespace(s)
  {
    if i > 0 {
      StripKeepsOthers(s[1..], i - 1);
    }
  }

  /** Removing padding keeps every character other than '='. */
  lemma StripPaddingKeepsOthers(s: string, c: char)
    requires c in s && c != '='
    ensures c in StripPadding(s)
  {
    var k :| 0 <= k < |s| && s[k] == c;
    assert StripPadding(s)[k] == c;
  }

  /** A character outside the alphabet that is neither whitespace nor
      '=' makes `atob` throw, wherever it stands. */
  lemma ForeignCharRejected(s: string, i: nat)
    requires i < |s| && ValueOf(s[i]).None?
    requires !IsAsciiWhitespace(s[i]) && s[i] != '='
    ensures Atob(s).None?
  {
    StripKeepsOthers(s, i);
    var d := StripPadding(StripWhitespace(s));
    StripPaddingKeepsOthers(StripWhitespace(s), s[i]);
    var k :| 0 <= k < |d| && d[k] == s[i];
    assert !InAlphabet(d);
  }

  /** Alphabet characters only, one more than a whole number of groups:
      `atob` throws, since six bits cannot make a byte. */
  lemma OddLengthRejected(s: string)
    requires InAlphabet(s) && |s| % 4 == 1
    ensures Atob(s).None?
  {
    forall c | c in s ensures !IsAsciiWhitespace(c) {
      var k :| 0 <= k < |s| && s[k] == c;
      assert ValueOf(s[k]).Some?;
    }
    StripWhitespaceNoop(s);
  }
}
