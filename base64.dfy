/**
 * The browser's `btoa` and `atob`, which the store uses to keep its byte
 * image in text-only storage: encoding is the base64 of section 4 of
 * RFC 4648 (alphabet A-Z a-z 0-9 + /, padded with '=' to a multiple of four
 * characters); decoding is the "forgiving-base64 decode" of the WHATWG
 * Infra standard (ASCII whitespace is ignored, padding is optional, and the
 * leftover bits of a final partial group are discarded).
 *
 * Both work on "binary strings": strings whose every character has a code
 * below 256, one character per byte.
 */
module Base64 {
  import opened Types

  newtype uint8 = x: int | 0 <= x < 256

  /** A 6-bit value: the position of a character in the alphabet. */
  type Sextet = x: int | 0 <= x < 64

  predicate IsAlphabet(c: char) {
    'A' <= c <= 'Z' || 'a' <= c <= 'z' || '0' <= c <= '9' || c == '+' || c == '/'
  }

  function CharOf(i: Sextet): (c: char)
    ensures IsAlphabet(c)
  {
    if i < 26 then ('A' as int + i) as char
    else if i < 52 then ('a' as int + (i - 26)) as char
    else if i < 62 then ('0' as int + (i - 52)) as char
    else if i == 62 then '+'
    else '/'
  }

  function SextetOf(c: char): (i: Sextet)
    requires IsAlphabet(c)
    ensures CharOf(i) == c
  {
    if 'A' <= c <= 'Z' then c as int - 'A' as int
    else if 'a' <= c <= 'z' then c as int - 'a' as int + 26
    else if '0' <= c <= '9' then c as int - '0' as int + 52
    else if c == '+' then 62
    else 63
  }

  /** The alphabet is a bijection between sextets and its 64 characters. */
  lemma SextetOfCharOf(i: Sextet)
    ensures SextetOf(CharOf(i)) == i
  {
  }

  predicate AllAlphabet(s: string) {
    forall k :: 0 <= k < |s| ==> IsAlphabet(s[k])
  }

  /** Three bytes become four characters. */
  function EncodeGroup(b0: uint8, b1: uint8, b2: uint8): seq<char> {
    [CharOf(b0 as int / 4),
     CharOf((b0 as int % 4) * 16 + b1 as int / 16),
     CharOf((b1 as int % 16) * 4 + b2 as int / 64),
     CharOf(b2 as int % 64)]
  }

  /** Four characters become three bytes. */
  function DecodeGroup(c0: char, c1: char, c2: char, c3: char): seq<uint8>
    requires IsAlphabet(c0) && IsAlphabet(c1) && IsAlphabet(c2) && IsAlphabet(c3)
  {
    var i0, i1, i2, i3 := SextetOf(c0), SextetOf(c1), SextetOf(c2), SextetOf(c3);
    [(i0 * 4 + i1 / 16) as uint8, ((i1 % 16) * 16 + i2 / 4) as uint8, ((i2 % 4) * 64 + i3) as uint8]
  }

  /** The encoding without its '=' padding: whole groups, then two
      characters for a trailing byte or three for two trailing bytes. */
  function EncodeUnpadded(b: seq<uint8>): (r: string)
    ensures AllAlphabet(r)
    ensures |r| % 4 == if |b| % 3 == 0 then 0 else |b| % 3 + 1
    ensures |b| > 0 ==> |r| > 0
    decreases |b|
  {
    if |b| >= 3 then
      var g, rest := EncodeGroup(b[0], b[1], b[2]), EncodeUnpadded(b[3..]);
      assert (|b| - 3) % 3 == |b| % 3;
      assert |g + rest| % 4 == |rest| % 4;
      assert forall k :: 0 <= k < |g + rest| ==> (g + rest)[k] == if k < 4 then g[k] else rest[k - 4];
      g + rest
    else if |b| == 2 then
      [CharOf(b[0] as int / 4), CharOf((b[0] as int % 4) * 16 + b[1] as int / 16),
       CharOf((b[1] as int % 16) * 4)]
    else if |b| == 1 then
      [CharOf(b[0] as int / 4), CharOf((b[0] as int % 4) * 16)]
    else []
  }

  function Padding(n: nat): string
    requires n < 3
  {
    if n == 0 then "" else if n == 1 then "==" else "="
  }

  /** `btoa` on the bytes of a binary string: RFC 4648, section 4. */
  function Encode(b: seq<uint8>): (r: string)
    ensures |r| % 4 == 0
    ensures |b| > 0 ==> |r| > 0
  {
    EncodeUnpadded(b) + Padding(|b| % 3)
  }

  function DecodeUnpadded(s: string): seq<uint8>
    requires AllAlphabet(s) && |s| % 4 != 1
    decreases |s|
  {
    if |s| >= 4 then DecodeGroup(s[0], s[1], s[2], s[3]) + DecodeUnpadded(s[4..])
    else if |s| == 3 then
      var i0, i1, i2 := SextetOf(s[0]), SextetOf(s[1]), SextetOf(s[2]);
      [(i0 * 4 + i1 / 16) as uint8, ((i1 % 16) * 16 + i2 / 4) as uint8]
    else if |s| == 2 then
      [(SextetOf(s[0]) * 4 + SextetOf(s[1]) / 16) as uint8]
    else []
  }

  /** The ASCII whitespace that forgiving decoding skips: tab, line feed,
      form feed, carriage return and space. */
  predicate IsAsciiWhitespace(c: char) {
    c == '\t' || c == '\n' || c == '\U{000C}' || c == '\r' || c == ' '
  }

  /** The input with its ASCII whitespace removed and every other
      character kept in order (see StripWhitespaceAppend and
      StripWhitespaceCounts). */
  function StripWhitespace(s: string): (r: string)
    ensures forall k :: 0 <= k < |r| ==> !IsAsciiWhitespace(r[k])
  {
    if s == [] then []
    else if IsAsciiWhitespace(s[0]) then StripWhitespace(s[1..])
    else [s[0]] + StripWhitespace(s[1..])
  }

  /** When the length is a multiple of four, one or two trailing '=' are
      dropped. */
  function StripPadding(s: string): string {
    if |s| % 4 == 0 && |s| >= 2 && s[|s| - 1] == '=' && s[|s| - 2] == '=' then s[..|s| - 2]
    else if |s| % 4 == 0 && |s| >= 1 && s[|s| - 1] == '=' then s[..|s| - 1]
    else s
  }

  /** `atob` on the byte level: forgiving-base64 decode. It fails on a
      length that leaves one character over and on any character outside
      the alphabet (including '=' anywhere but the end). */
  function Decode(s: string): Option<seq<uint8>> {
    var t := StripPadding(StripWhitespace(s));
    if |t| % 4 == 1 || !AllAlphabet(t) then None else Some(DecodeUnpadded(t))
  }

  lemma GroupRoundTrip(b0: uint8, b1: uint8, b2: uint8)
    ensures var e := EncodeGroup(b0, b1, b2);
            DecodeGroup(e[0], e[1], e[2], e[3]) == [b0, b1, b2]
  {
    var x0, x1, x2 := b0 as int, b1 as int, b2 as int;
    var i0, i1, i2, i3 := x0 / 4, (x0 % 4) * 16 + x1 / 16, (x1 % 16) * 4 + x2 / 64, x2 % 64;
    SextetOfCharOf(i0); SextetOfCharOf(i1); SextetOfCharOf(i2); SextetOfCharOf(i3);
    assert i1 / 16 == x0 % 4 && i1 % 16 == x1 / 16;
    assert i2 / 4 == x1 % 16 && i2 % 4 == x2 / 64;
  }

  lemma {:induction false} UnpaddedRoundTrip(b: seq<uint8>)
    ensures DecodeUnpadded(EncodeUnpadded(b)) == b
    decreases |b|
  {
    if |b| >= 3 {
      var rest := EncodeUnpadded(b[3..]);
      UnpaddedRoundTrip(b[3..]);
      GroupsDecodeInTurn(b, rest);
      assert b == [b[0], b[1], b[2]] + b[3..];
    } else if |b| == 2 {
      TwoBytesRoundTrip(b[0], b[1]);
      assert b == [b[0], b[1]];
    } else if |b| == 1 {
      OneByteRoundTrip(b[0]);
      assert b == [b[0]];
    }
  }

  /** A leading group of three bytes decodes on its own, ahead of the rest. */
  lemma GroupsDecodeInTurn(b: seq<uint8>, rest: string)
    requires |b| >= 3 && rest == EncodeUnpadded(b[3..])
    ensures DecodeUnpadded(EncodeUnpadded(b)) == [b[0], b[1], b[2]] + DecodeUnpadded(rest)
  {
    var e, g := EncodeUnpadded(b), EncodeGroup(b[0], b[1], b[2]);
    assert e == g + rest;
    assert e[..4] == g && e[4..] == rest;
    GroupRoundTrip(b[0], b[1], b[2]);
  }

  /** Two trailing bytes travel as three characters. */
  lemma TwoBytesRoundTrip(b0: uint8, b1: uint8)
    ensures DecodeUnpadded(EncodeUnpadded([b0, b1])) == [b0, b1]
  {
    var x0, x1 := b0 as int, b1 as int;
    var i0, i1, i2 := x0 / 4, (x0 % 4) * 16 + x1 / 16, (x1 % 16) * 4;
    SextetOfCharOf(i0); SextetOfCharOf(i1); SextetOfCharOf(i2);
    assert i1 / 16 == x0 % 4 && i1 % 16 == x1 / 16 && i2 / 4 == x1 % 16;
    assert EncodeUnpadded([b0, b1]) == [CharOf(i0), CharOf(i1), CharOf(i2)];
  }

  /** One trailing byte travels as two characters. */
  lemma OneByteRoundTrip(b0: uint8)
    ensures DecodeUnpadded(EncodeUnpadded([b0])) == [b0]
  {
    var x0 := b0 as int;
    var i0, i1 := x0 / 4, (x0 % 4) * 16;
    SextetOfCharOf(i0); SextetOfCharOf(i1);
    assert i1 / 16 == x0 % 4;
    assert EncodeUnpadded([b0]) == [CharOf(i0), CharOf(i1)];
  }

  lemma {:induction false} NoWhitespaceUnchanged(s: string)
    requires forall k :: 0 <= k < |s| ==> !IsAsciiWhitespace(s[k])
    ensures StripWhitespace(s) == s
  {
    if s != [] {
      NoWhitespaceUnchanged(s[1..]);
      assert s == [s[0]] + s[1..];
    }
  }

  /** Stripping works character by character: it distributes over
      concatenation, so the characters it keeps stay in their order. */
  lemma {:induction false} StripWhitespaceAppend(s: string, t: string)
    ensures StripWhitespace(s + t) == StripWhitespace(s) + StripWhitespace(t)
  {
    if s != [] {
      assert (s + t)[0] == s[0] && (s + t)[1..] == s[1..] + t;
      StripWhitespaceAppend(s[1..], t);
    } else {
      assert s + t == t;
    }
  }

  /** Stripping drops every whitespace character and keeps every other
      character as often as it occurs. */
  lemma {:induction false} StripWhitespaceCounts(s: string)
    ensures forall c :: multiset(StripWhitespace(s))[c] ==
                        if IsAsciiWhitespace(c) then 0 else multiset(s)[c]
  {
    if s != [] {
      assert s == [s[0]] + s[1..];
      StripWhitespaceCounts(s[1..]);
    }
  }

  lemma EncodeHasNoWhitespace(b: seq<uint8>)
    ensures StripWhitespace(Encode(b)) == Encode(b)
  {
    var u, e := EncodeUnpadded(b), Encode(b);
    forall k | 0 <= k < |e| ensures !IsAsciiWhitespace(e[k]) {
      if k < |u| { assert e[k] == u[k] && IsAlphabet(u[k]); }
      else { assert e[k] == '='; }
    }
    NoWhitespaceUnchanged(e);
  }

  lemma StripPaddingOfEncode(b: seq<uint8>)
    ensures StripPadding(Encode(b)) == EncodeUnpadded(b)
  {
    var u, e := EncodeUnpadded(b), Encode(b);
    var p := Padding(|b| % 3);
    assert e == u + p && e[..|u|] == u;
    if |b| % 3 == 0 {
      assert e == u;
      if |u| >= 1 { assert e[|e| - 1] == u[|u| - 1] && IsAlphabet(u[|u| - 1]); }
    } else if |b| % 3 == 1 {
      assert p == "==" && e[|e| - 1] == '=' && e[|e| - 2] == '=';
    } else {
      assert p == "=" && |u| >= 1;
      assert e[|e| - 1] == '=' && e[|e| - 2] == u[|u| - 1] && IsAlphabet(u[|u| - 1]);
    }
  }

  /** Decoding inverts encoding, byte for byte. */
  lemma DecodeEncode(b: seq<uint8>)
    ensures Decode(Encode(b)) == Some(b)
  {
    EncodeHasNoWhitespace(b);
    StripPaddingOfEncode(b);
    UnpaddedRoundTrip(b);
  }

  /** A string of characters with codes below 256, one per byte. */
  predicate IsBinary(s: string) {
    forall k :: 0 <= k < |s| ==> s[k] as int < 256
  }

  /** The binary string of a byte sequence (`String.fromCharCode` per byte). */
  function BinaryOf(b: seq<uint8>): (s: string)
    ensures IsBinary(s) && |s| == |b|
    ensures forall k :: 0 <= k < |b| ==> s[k] as int == b[k] as int
  {
    seq(|b|, k requires 0 <= k < |b| => b[k] as int as char)
  }

  /** The bytes of a binary string (`charCodeAt` per character). */
  function CodeUnits(s: string): (b: seq<uint8>)
    requires IsBinary(s)
    ensures |b| == |s|
    ensures forall k :: 0 <= k < |s| ==> b[k] as int == s[k] as int
  {
    seq(|s|, k requires 0 <= k < |s| => s[k] as int as uint8)
  }

  /** `btoa`: fails (InvalidCharacterError) on a character above U+00FF. */
  function Btoa(s: string): (r: Option<string>)
    ensures r.Some? <==> IsBinary(s)
  {
    if IsBinary(s) then Some(Encode(CodeUnits(s))) else None
  }

  /** `atob`: fails (InvalidCharacterError) on malformed input. */
  function Atob(s: string): (r: Option<string>)
    ensures r.Some? ==> IsBinary(r.value)
  {
    match Decode(s)
    case None => None
    case Some(b) => Some(BinaryOf(b))
  }

  /** `atob` inverts `btoa` on every binary string. */
  lemma AtobBtoa(s: string)
    requires IsBinary(s)
    ensures Btoa(s).Some? && Atob(Btoa(s).value) == Some(s)
  {
    DecodeEncode(CodeUnits(s));
    assert BinaryOf(CodeUnits(s)) == s;
  }

  /** The character codes of what `atob` returns are the decoded bytes. */
  lemma AtobCodeUnits(s: string)
    ensures Atob(s).Some? <==> Decode(s).Some?
    ensures Atob(s).Some? ==> CodeUnits(Atob(s).value) == Decode(s).value
  {
    if Decode(s).Some? {
      CodeUnitsBinaryOf(Decode(s).value);
    }
  }

  /** A binary string made from bytes gives those bytes back. */
  lemma CodeUnitsBinaryOf(b: seq<uint8>)
    ensures CodeUnits(BinaryOf(b)) == b
  {
  }
}
