/**
 * `decodeURIComponent` (ECMAScript Decode with an empty reserved set): every
 * `%XX` escape is read as an octet, single octets below 0x80 become that
 * character, longer runs of escapes must spell a well-formed UTF-8 encoding
 * of one code point; anything else is a URIError, here `None`.
 * `PercentEncode` is its partner, used to state the round trip.
 */
module Uri {
  import opened Wrappers
  import opened Seqs

  type Byte = b: int | 0 <= b < 256

  predicate IsScalarValue(v: int) {
    (0 <= v < 0xD800) || (0xE000 <= v < 0x11_0000)
  }

  function HexValue(c: char): (r: Option<nat>)
    ensures r.Some? ==> r.value < 16
  {
    if '0' <= c <= '9' then Some(c as int - '0' as int)
    else if 'a' <= c <= 'f' then Some(c as int - 'a' as int + 10)
    else if 'A' <= c <= 'F' then Some(c as int - 'A' as int + 10)
    else None
  }

  /** The octet of a `%XX` escape at the start of `s` (ParseHexOctet). */
  function EscapeAt(s: string): (r: Option<Byte>)
    ensures r.Some? ==> |s| >= 3 && s[0] == '%'
  {
    if |s| < 3 || s[0] != '%' then None
    else
      match (HexValue(s[1]), HexValue(s[2]))
      case (Some(h), Some(l)) => Some(16 * h + l)
      case _ => None
  }

  /** Number of leading 1 bits of an octet. */
  function LeadingOnes(b: Byte): nat {
    if b < 0x80 then 0
    else if b < 0xC0 then 1
    else if b < 0xE0 then 2
    else if b < 0xF0 then 3
    else if b < 0xF8 then 4
    else if b < 0xFC then 5
    else if b < 0xFE then 6
    else if b < 0xFF then 7
    else 8
  }

  /** `n` consecutive `%XX` escapes at the start of `s`. */
  function Escapes(s: string, n: nat): (r: Option<seq<Byte>>)
    ensures r.Some? ==> |r.value| == n && 3 * n <= |s|
  {
    if n == 0 then Some([])
    else
      var b :- EscapeAt(s);
      var bs :- Escapes(s[3..], n - 1);
      Some([b] + bs)
  }

  predicate IsContinuation(b: Byte) {
    0x80 <= b < 0xC0
  }

  function MinCodePoint(n: nat): nat {
    if n == 2 then 0x80 else if n == 3 then 0x800 else 0x1_0000
  }

  /** The code point a 2- to 4-octet UTF-8 sequence encodes, or `None` when
      the sequence is not a well-formed encoding of one code point
      (bad continuation octet, overlong form, surrogate, above U+10FFFF).
      `Utf8DecodeExactly` shows that it accepts exactly the UTF-8
      encodings. */
  function Utf8Decode(octets: seq<Byte>): (r: Option<nat>)
    requires 2 <= |octets| <= 4
    ensures r.Some? ==> IsScalarValue(r.value) && r.value >= 0x80
  {
    var n := |octets|;
    var b0: int, b1: int := octets[0], octets[1];
    var b2: int := if n > 2 then octets[2] else 0x80;
    var b3: int := if n > 3 then octets[3] else 0x80;
    if !IsContinuation(b1) || !IsContinuation(b2) || !IsContinuation(b3) then None
    else
      var v :=
        if n == 2 then (b0 % 32) * 64 + b1 % 64
        else if n == 3 then (b0 % 16) * 4096 + (b1 % 64) * 64 + b2 % 64
        else (b0 % 8) * 262144 + (b1 % 64) * 4096 + (b2 % 64) * 64 + b3 % 64;
      if v < MinCodePoint(n) || v > 0x10_FFFF || (0xD800 <= v <= 0xDFFF) then None
      else Some(v)
  }

  /** A run of 2 to 4 escapes whose first octet announces its length
      decodes to `v` exactly when it is the UTF-8 encoding of the scalar
      value `v`: overlong forms, surrogates, values above U+10FFFF and
      bad continuation octets are all rejected, since no character is
      encoded that way. */
  lemma Utf8DecodeExactly(octets: seq<Byte>, v: int)
    requires 2 <= |octets| <= 4 && LeadingOnes(octets[0]) == |octets|
    ensures Utf8Decode(octets) == Some(v)
      <==> IsScalarValue(v) && 0x80 <= v && Utf8Encode(v as char) == octets
  {
    if Utf8Decode(octets) == Some(v) {
      Utf8Reencode(octets, v);
    }
    if IsScalarValue(v) && 0x80 <= v && Utf8Encode(v as char) == octets {
      Utf8RoundTrip(v as char);
    }
  }

  /** Quotient and remainder by a power of 64 (so that division by a
      constant needs no nonlinear reasoning). */
  lemma DivMod(v: int, d: int, q: int, r: int)
    requires d == 64 || d == 4096 || d == 262144
    requires 0 <= r < d && v == d * q + r
    ensures v / d == q && v % d == r
  {
  }

  /** A sequence `Utf8Decode` accepts, with its length announced by its
      first octet, is the UTF-8 encoding of the code point it gives. */
  lemma Utf8Reencode(octets: seq<Byte>, v: int)
    requires 2 <= |octets| <= 4
    requires forall k :: 1 <= k < |octets| ==> IsContinuation(octets[k])
    requires var b0: int, b1: int := octets[0], octets[1];
      |octets| == 2 ==> v == (b0 % 32) * 64 + b1 % 64
    requires var b0: int, b1: int := octets[0], octets[1];
      |octets| == 3 ==> v == (b0 % 16) * 4096 + (b1 % 64) * 64 + (octets[2] as int) % 64
    requires var b0: int, b1: int := octets[0], octets[1];
      |octets| == 4 ==> v == (b0 % 8) * 262144 + (b1 % 64) * 4096 + (octets[2] as int % 64) * 64 + (octets[3] as int) % 64
    requires MinCodePoint(|octets|) <= v <= 0x10_FFFF && IsScalarValue(v)
    ensures LeadingOnes(octets[0]) == |octets| ==> Utf8Encode(v as char) == octets
  {
    if LeadingOnes(octets[0]) == |octets| {
      if |octets| == 2 {
        Utf8ReencodeOctets2(octets, v);
      } else if |octets| == 3 {
        Utf8ReencodeOctets3(octets, v);
      } else {
        Utf8ReencodeOctets4(octets, v);
      }
    }
  }

  lemma Utf8ReencodeOctets2(octets: seq<Byte>, v: int)
    requires |octets| == 2 && LeadingOnes(octets[0]) == 2 && IsContinuation(octets[1])
    requires v == (octets[0] as int % 32) * 64 + octets[1] as int % 64 && 0x80 <= v
    ensures IsScalarValue(v) && Utf8Encode(v as char) == octets
  {
    var b0: int, b1: int := octets[0], octets[1];
    ContinuationBits(b1);
    assert b0 % 32 == b0 - 0xC0;
    Utf8Reencode2(b0, b1, v);
    assert octets == [b0, b1];
  }

  lemma Utf8ReencodeOctets3(octets: seq<Byte>, v: int)
    requires |octets| == 3 && LeadingOnes(octets[0]) == 3
    requires IsContinuation(octets[1]) && IsContinuation(octets[2])
    requires v == (octets[0] as int % 16) * 4096 + (octets[1] as int % 64) * 64 + octets[2] as int % 64
    requires 0x800 <= v && IsScalarValue(v)
    ensures Utf8Encode(v as char) == octets
  {
    var b0: int, b1: int, b2: int := octets[0], octets[1], octets[2];
    ContinuationBits(b1);
    ContinuationBits(b2);
    assert b0 % 16 == b0 - 0xE0;
    Utf8Reencode3(b0, b1, b2, v);
    assert octets == [b0, b1, b2];
  }

  lemma Utf8ReencodeOctets4(octets: seq<Byte>, v: int)
    requires |octets| == 4 && LeadingOnes(octets[0]) == 4
    requires IsContinuation(octets[1]) && IsContinuation(octets[2]) && IsContinuation(octets[3])
    requires v == (octets[0] as int % 8) * 262144 + (octets[1] as int % 64) * 4096 + (octets[2] as int % 64) * 64 + octets[3] as int % 64
    requires 0x1_0000 <= v <= 0x10_FFFF
    ensures Utf8Encode(v as char) == octets
  {
    var b0: int, b1: int, b2: int, b3: int := octets[0], octets[1], octets[2], octets[3];
    ContinuationBits(b1);
    ContinuationBits(b2);
    ContinuationBits(b3);
    assert b0 % 8 == b0 - 0xF0;
    Utf8Reencode4(b0, b1, b2, b3, v);
    assert octets == [b0, b1, b2, b3];
  }

  /** The low six bits of a continuation octet. */
  lemma ContinuationBits(b: int)
    requires 0x80 <= b < 0xC0
    ensures b % 64 == b - 0x80
  {
    DivMod(b, 64, 2, b - 0x80);
  }

  lemma Utf8Reencode2(b0: int, b1: int, v: int)
    requires 0xC0 <= b0 < 0xE0 && 0x80 <= b1 < 0xC0
    requires v == 64 * (b0 - 0xC0) + (b1 - 0x80) && 0x80 <= v
    ensures IsScalarValue(v) && Utf8Encode(v as char) == [b0, b1]
  {
    DivMod(v, 64, b0 - 0xC0, b1 - 0x80);
  }

  lemma Utf8Reencode3(b0: int, b1: int, b2: int, v: int)
    requires 0xE0 <= b0 < 0xF0 && 0x80 <= b1 < 0xC0 && 0x80 <= b2 < 0xC0
    requires v == 4096 * (b0 - 0xE0) + 64 * (b1 - 0x80) + (b2 - 0x80)
    requires 0x800 <= v && IsScalarValue(v)
    ensures Utf8Encode(v as char) == [b0, b1, b2]
  {
    var q0, r1, r2 := b0 - 0xE0, b1 - 0x80, b2 - 0x80;
    DivMod(v, 64, 64 * q0 + r1, r2);
    DivMod(v / 64, 64, q0, r1);
    DivMod(v, 4096, q0, 64 * r1 + r2);
  }

  lemma Utf8Reencode4(b0: int, b1: int, b2: int, b3: int, v: int)
    requires 0xF0 <= b0 < 0xF8 && 0x80 <= b1 < 0xC0 && 0x80 <= b2 < 0xC0 && 0x80 <= b3 < 0xC0
    requires v == 262144 * (b0 - 0xF0) + 4096 * (b1 - 0x80) + 64 * (b2 - 0x80) + (b3 - 0x80)
    requires 0x1_0000 <= v <= 0x10_FFFF
    ensures Utf8Encode(v as char) == [b0, b1, b2, b3]
  {
    var q0, r1, r2, r3 := b0 - 0xF0, b1 - 0x80, b2 - 0x80, b3 - 0x80;
    DivMod(v, 64, 4096 * q0 + 64 * r1 + r2, r3);
    DivMod(v / 64, 64, 64 * q0 + r1, r2);
    DivMod(v, 4096, 64 * q0 + r1, 64 * r2 + r3);
    DivMod(v / 4096, 64, q0, r1);
    DivMod(v, 262144, q0, 4096 * r1 + 64 * r2 + r3);
  }

  /** `decodeURIComponent(s)`; `None` stands for the URIError it throws. */
  function Decode(s: string): (r: Option<string>)
    decreases |s|
  {
    if s == [] then Some([])
    else if s[0] != '%' then
      var rest :- Decode(s[1..]);
      Some([s[0]] + rest)
    else
      var b :- EscapeAt(s);
      var n := LeadingOnes(b);
      if n == 0 then
        var rest :- Decode(s[3..]);
        Some([b as char] + rest)
      else if n == 1 || n > 4 then None
      else
        var octets :- Escapes(s, n);
        var v :- Utf8Decode(octets);
        var rest :- Decode(s[3 * n..]);
        Some([v as char] + rest)
  }

  /** Text without `%` decodes to itself. */
  lemma {:induction false} DecodePlain(s: string)
    requires forall k :: 0 <= k < |s| ==> s[k] != '%'
    ensures Decode(s) == Some(s)
  {
    if s != [] {
      DecodePlain(s[1..]);
      assert [s[0]] + s[1..] == s;
    }
  }

  /** `s` holds no `%`, so nothing in it is an escape. */
  predicate NoPercent(s: string) {
    forall k :: 0 <= k < |s| ==> s[k] != '%'
  }

  /** Text without `%`, if that is what `s` is, decodes to itself. */
  lemma DecodePlainIfPlain(s: string)
    ensures NoPercent(s) ==> Decode(s) == Some(s)
  {
    if NoPercent(s) {
      DecodePlain(s);
    }
  }

  /** Text without `%` in front of anything decodes to itself followed by
      the decoding of the rest. */
  lemma {:induction false} DecodePlainPrefix(a: string, b: string)
    requires forall k :: 0 <= k < |a| ==> a[k] != '%'
    ensures Decode(a + b) == if Decode(b).Some? then Some(a + Decode(b).value) else None
  {
    if a != [] {
      DecodePlainPrefix(a[1..], b);
      assert (a + b)[0] == a[0] && (a + b)[1..] == a[1..] + b;
      if Decode(b).Some? {
        assert [a[0]] + (a[1..] + Decode(b).value) == a + Decode(b).value;
      }
    } else {
      assert a + b == b;
      if Decode(b).Some? {
        assert a + Decode(b).value == Decode(b).value;
      }
    }
  }

  /** Decoding never lengthens a string. */
  lemma {:induction false} DecodeShrinks(s: string)
    requires Decode(s).Some?
    ensures |Decode(s).value| <= |s|
    decreases |s|
  {
    if s != [] {
      if s[0] != '%' {
        DecodeShrinks(s[1..]);
      } else {
        var b := EscapeAt(s).value;
        var n := LeadingOnes(b);
        if n == 0 {
          DecodeShrinks(s[3..]);
        } else {
          DecodeShrinks(s[3 * n..]);
        }
      }
    }
  }

  predicate IsHexDigit(c: char) {
    HexValue(c).Some?
  }

  /** Every `%` of `s` at or after `lo` starts an escape: two hex digits
      follow it. */
  predicate WellEscapedFrom(s: string, lo: nat) {
    forall k :: lo <= k < |s| && s[k] == '%' ==> k + 2 < |s| && IsHexDigit(s[k + 1]) && IsHexDigit(s[k + 2])
  }

  /** What `decodeURIComponent` rejects: a `%` not followed by two hex
      digits always makes it throw `URIError`. */
  lemma {:induction false} DecodeNeedsEscapes(s: string)
    requires Decode(s).Some?
    ensures WellEscapedFrom(s, 0)
    decreases |s|
  {
    if s != [] {
      if s[0] != '%' {
        DecodeNeedsEscapes(s[1..]);
        WellEscapedShift(s, 1);
      } else {
        var n := LeadingOnes(EscapeAt(s).value);
        if n == 0 {
          DecodeNeedsEscapes(s[3..]);
          EscapesWellFormed(s, 1);
          WellEscapedShift(s, 3);
        } else {
          DecodeNeedsEscapes(s[3 * n..]);
          EscapesWellFormed(s, n);
          WellEscapedShift(s, 3 * n);
        }
      }
    }
  }

  /** A run of `n` escapes holds a `%` only where an escape starts. */
  lemma {:induction false} EscapesWellFormed(s: string, n: nat)
    requires Escapes(s, n).Some?
    ensures forall k :: 0 <= k < 3 * n && s[k] == '%' ==> k + 2 < |s| && IsHexDigit(s[k + 1]) && IsHexDigit(s[k + 2])
  {
    if n > 0 {
      var t := s[3..];
      EscapesWellFormed(t, n - 1);
      forall k | 0 <= k < 3 * n && s[k] == '%'
        ensures k + 2 < |s| && IsHexDigit(s[k + 1]) && IsHexDigit(s[k + 2])
      {
        if k >= 3 {
          assert s[k] == t[k - 3];
          assert k - 3 + 2 < |t| && IsHexDigit(t[k - 2]) && IsHexDigit(t[k - 1]);
          assert s[k + 1] == t[k - 2] && s[k + 2] == t[k - 1];
        } else {
          assert IsHexDigit(s[1]) && IsHexDigit(s[2]);
        }
      }
    }
  }

  /** Well-formed escapes after `j`, and up to `j`, are well-formed
      escapes throughout. */
  lemma WellEscapedShift(s: string, j: nat)
    requires j <= |s| && WellEscapedFrom(s[j..], 0)
    requires forall k :: 0 <= k < j && s[k] == '%' ==> k + 2 < |s| && IsHexDigit(s[k + 1]) && IsHexDigit(s[k + 2])
    ensures WellEscapedFrom(s, 0)
  {
    var t := s[j..];
    forall k | j <= k < |s| && s[k] == '%'
      ensures k + 2 < |s| && IsHexDigit(s[k + 1]) && IsHexDigit(s[k + 2])
    {
      assert s[k] == t[k - j];
      assert k - j + 2 < |t| && IsHexDigit(t[k - j + 1]) && IsHexDigit(t[k - j + 2]);
      assert s[k + 1] == t[k - j + 1] && s[k + 2] == t[k - j + 2];
    }
  }

  /** A character that can take part in no escape (neither `%` nor a hex
      digit) added at the end survives decoding and changes nothing before
      it; this is what lets the tokenizer strip its `-` delimiters before or
      after decoding alike. */
  lemma {:induction false} DecodeAppendPlain(s: string, c: char)
    requires c != '%' && !IsHexDigit(c)
    ensures Decode(s + [c]) == if Decode(s).Some? then Some(Decode(s).value + [c]) else None
    decreases |s|
  {
    var t := s + [c];
    if s == [] {
      assert t == [c] && t[1..] == [];
      assert Decode(t[1..]).value == [];
      assert [t[0]] + Decode(t[1..]).value == Decode(s).value + [c];
    } else if s[0] != '%' {
      assert t[0] == s[0] && t[1..] == s[1..] + [c];
      DecodeAppendPlain(s[1..], c);
      if Decode(s[1..]).Some? {
        assert [s[0]] + (Decode(s[1..]).value + [c]) == ([s[0]] + Decode(s[1..]).value) + [c];
      }
    } else if |s| < 3 {
      assert EscapeAt(t).None? by {
        if |s| == 2 {
          assert t[2] == c;
        }
      }
    } else {
      assert t[..3] == s[..3];
      assert EscapeAt(t) == EscapeAt(s);
      if EscapeAt(s).Some? {
        var b := EscapeAt(s).value;
        var n := LeadingOnes(b);
        if n == 0 {
          assert t[3..] == s[3..] + [c];
          DecodeAppendPlain(s[3..], c);
          if Decode(s[3..]).Some? {
            assert [b as char] + (Decode(s[3..]).value + [c]) == ([b as char] + Decode(s[3..]).value) + [c];
          }
        } else if 2 <= n <= 4 {
          EscapesAppendPlain(s, c, n);
          if Escapes(s, n).Some? {
            assert t[3 * n..] == s[3 * n..] + [c];
            DecodeAppendPlain(s[3 * n..], c);
            var octets := Escapes(s, n).value;
            if Utf8Decode(octets).Some? && Decode(s[3 * n..]).Some? {
              var v := Utf8Decode(octets).value;
              assert [v as char] + (Decode(s[3 * n..]).value + [c]) == ([v as char] + Decode(s[3 * n..]).value) + [c];
            }
          }
        }
      }
    }
  }

  lemma {:induction false} EscapesAppendPlain(s: string, c: char, n: nat)
    requires c != '%' && !IsHexDigit(c)
    ensures Escapes(s + [c], n) == Escapes(s, n)
  {
    var t := s + [c];
    if n > 0 {
      if |s| >= 3 {
        assert t[..3] == s[..3];
        assert EscapeAt(t) == EscapeAt(s);
        assert t[3..] == s[3..] + [c];
        EscapesAppendPlain(s[3..], c, n - 1);
      } else {
        assert EscapeAt(t).None? by {
          if |s| == 2 {
            assert t[2] == c;
          }
        }
      }
    }
  }

  // ---------------------------------------------------------------------
  // The encoding partner.

  /** Characters `PercentEncode` leaves as they are. */
  predicate IsUnescaped(c: char) {
    ('A' <= c <= 'Z') || ('a' <= c <= 'z') || ('0' <= c <= '9')
  }

  function HexDigit(d: nat): (c: char)
    requires d < 16
    ensures HexValue(c) == Some(d)
  {
    if d < 10 then ('0' as int + d) as char else ('A' as int + d - 10) as char
  }

  function EscapeByte(b: Byte): string {
    ['%', HexDigit(b / 16), HexDigit(b % 16)]
  }

  function EscapeBytes(bs: seq<Byte>): (r: string)
    ensures |r| == 3 * |bs|
  {
    if bs == [] then [] else EscapeByte(bs[0]) + EscapeBytes(bs[1..])
  }

  /** The UTF-8 encoding of a code point. */
  function Utf8Encode(c: char): (bs: seq<Byte>)
    ensures 1 <= |bs| <= 4
  {
    var v := c as int;
    if v < 0x80 then [v]
    else if v < 0x800 then [0xC0 + v / 64, 0x80 + v % 64]
    else if v < 0x1_0000 then [0xE0 + v / 4096, 0x80 + (v / 64) % 64, 0x80 + v % 64]
    else [0xF0 + v / 262144, 0x80 + (v / 4096) % 64, 0x80 + (v / 64) % 64, 0x80 + v % 64]
  }

  function EncodeChar(c: char): string {
    if IsUnescaped(c) then [c] else EscapeBytes(Utf8Encode(c))
  }

  /** Percent-encodes every character except ASCII letters and digits, as
      UTF-8 octets with upper-case hex digits. */
  function PercentEncode(s: string): string {
    if s == [] then [] else EncodeChar(s[0]) + PercentEncode(s[1..])
  }

  lemma EscapeByteRoundTrip(b: Byte, t: string)
    ensures EscapeAt(EscapeByte(b) + t) == Some(b)
  {
    var s := EscapeByte(b) + t;
    assert s[0] == '%' && s[1] == HexDigit(b / 16) && s[2] == HexDigit(b % 16);
  }

  lemma {:induction false} EscapesRoundTrip(bs: seq<Byte>, t: string)
    ensures Escapes(EscapeBytes(bs) + t, |bs|) == Some(bs)
  {
    if bs != [] {
      var s := EscapeBytes(bs) + t;
      var r := EscapeBytes(bs[1..]) + t;
      Assoc(EscapeByte(bs[0]), EscapeBytes(bs[1..]), t);
      EscapeByteRoundTrip(bs[0], r);
      assert s[3..] == r;
      EscapesRoundTrip(bs[1..], t);
      assert [bs[0]] + bs[1..] == bs;
    }
  }

  /** Decoding the UTF-8 encoding of a character gives the character back. */
  lemma Utf8RoundTrip(c: char)
    ensures var bs := Utf8Encode(c);
      (|bs| == 1 ==> LeadingOnes(bs[0]) == 0 && bs[0] == c as int)
      && (|bs| >= 2 ==> LeadingOnes(bs[0]) == |bs| && Utf8Decode(bs) == Some(c as int))
  {
    var v := c as int;
    if 0x80 <= v < 0x800 {
      Utf8RoundTrip2(v);
    } else if 0x800 <= v < 0x1_0000 {
      Utf8RoundTrip3(v);
    } else if 0x1_0000 <= v {
      Utf8RoundTrip4(v);
    }
  }

  lemma Utf8RoundTrip2(v: int)
    requires 0x80 <= v < 0x800
    ensures var bs: seq<Byte> := [0xC0 + v / 64, 0x80 + v % 64];
      LeadingOnes(bs[0]) == 2 && Utf8Decode(bs) == Some(v)
  {
    var q, r := v / 64, v % 64;
    assert v == 64 * q + r;
    assert 2 <= q < 32;
    assert (0xC0 + q) % 32 == q;
    assert (0x80 + r) % 64 == r;
  }

  lemma Utf8RoundTrip3(v: int)
    requires 0x800 <= v < 0x1_0000 && IsScalarValue(v)
    ensures var bs: seq<Byte> := [0xE0 + v / 4096, 0x80 + (v / 64) % 64, 0x80 + v % 64];
      LeadingOnes(bs[0]) == 3 && Utf8Decode(bs) == Some(v)
  {
    var q, r := v / 64, v % 64;
    var q2, r2 := q / 64, q % 64;
    assert v == 64 * q + r && q == 64 * q2 + r2;
    assert v / 4096 == q2;
    assert q2 < 16;
    assert (0xE0 + q2) % 16 == q2;
    assert (0x80 + r2) % 64 == r2 && (0x80 + r) % 64 == r;
    assert v == 4096 * q2 + 64 * r2 + r;
  }

  lemma Utf8RoundTrip4(v: int)
    requires 0x1_0000 <= v < 0x11_0000
    ensures var bs: seq<Byte> :=
        [0xF0 + v / 262144, 0x80 + (v / 4096) % 64, 0x80 + (v / 64) % 64, 0x80 + v % 64];
      LeadingOnes(bs[0]) == 4 && Utf8Decode(bs) == Some(v)
  {
    var q, r := v / 64, v % 64;
    var q2, r2 := q / 64, q % 64;
    var q3, r3 := q2 / 64, q2 % 64;
    assert v == 64 * q + r && q == 64 * q2 + r2 && q2 == 64 * q3 + r3;
    assert v / 4096 == q2 && v / 262144 == q3;
    assert q3 < 5;
    assert (0xF0 + q3) % 8 == q3;
    assert (0x80 + r3) % 64 == r3 && (0x80 + r2) % 64 == r2 && (0x80 + r) % 64 == r;
    assert v == 262144 * q3 + 4096 * r3 + 64 * r2 + r;
  }

  lemma DecodeEncodeChar(c: char, t: string)
    ensures Decode(EncodeChar(c) + t)
         == if Decode(t).Some? then Some([c] + Decode(t).value) else None
  {
    var s := EncodeChar(c) + t;
    if IsUnescaped(c) {
      assert s[0] == c && s[1..] == t;
    } else {
      var bs := Utf8Encode(c);
      Utf8RoundTrip(c);
      DecodeEscaped(bs, t);
      if |bs| == 1 {
        assert (bs[0] as char) == c;
      } else {
        assert (c as int) as char == c;
      }
    }
  }

  /** Decoding a run of escapes whose first octet announces the run's length. */
  lemma DecodeEscaped(bs: seq<Byte>, t: string)
    requires 1 <= |bs| <= 4
    requires |bs| == 1 ==> LeadingOnes(bs[0]) == 0
    requires |bs| >= 2 ==> LeadingOnes(bs[0]) == |bs| && Utf8Decode(bs).Some?
    ensures Decode(EscapeBytes(bs) + t) == if Decode(t).None? then None
      else if |bs| == 1 then Some([bs[0] as char] + Decode(t).value)
      else Some([Utf8Decode(bs).value as char] + Decode(t).value)
  {
    var s := EscapeBytes(bs) + t;
    assert s == EscapeByte(bs[0]) + (EscapeBytes(bs[1..]) + t);
    EscapeByteRoundTrip(bs[0], EscapeBytes(bs[1..]) + t);
    EscapesRoundTrip(bs, t);
    assert s[3 * |bs|..] == t;
  }

  /** Round trip: `PercentEncode` is undone by `Decode`. */
  lemma {:induction false} DecodeEncode(s: string)
    ensures Decode(PercentEncode(s)) == Some(s)
  {
    if s != [] {
      DecodeEncode(s[1..]);
      DecodeEncodeChar(s[0], PercentEncode(s[1..]));
      assert [s[0]] + s[1..] == s;
    }
  }

  /** `PercentEncode` only emits letters, digits and `%`. */
  lemma {:induction false} EncodedAlphabet(s: string)
    ensures forall k :: 0 <= k < |PercentEncode(s)| ==>
      IsUnescaped(PercentEncode(s)[k]) || PercentEncode(s)[k] == '%'
  {
    if s != [] {
      EncodedAlphabet(s[1..]);
      EscapeBytesAlphabet(Utf8Encode(s[0]));
      var e, rest := EncodeChar(s[0]), PercentEncode(s[1..]);
      assert PercentEncode(s) == e + rest;
      forall k | 0 <= k < |e + rest|
        ensures IsUnescaped((e + rest)[k]) || (e + rest)[k] == '%'
      {
        if k >= |e| {
          assert (e + rest)[k] == rest[k - |e|];
        }
      }
    }
  }

  lemma {:induction false} EscapeBytesAlphabet(bs: seq<Byte>)
    ensures forall k :: 0 <= k < |EscapeBytes(bs)| ==>
      IsUnescaped(EscapeBytes(bs)[k]) || EscapeBytes(bs)[k] == '%'
  {
    if bs != [] {
      EscapeBytesAlphabet(bs[1..]);
      var e, rest := EscapeByte(bs[0]), EscapeBytes(bs[1..]);
      forall k | 0 <= k < |e + rest|
        ensures IsUnescaped((e + rest)[k]) || (e + rest)[k] == '%'
      {
        if k >= |e| {
          assert (e + rest)[k] == rest[k - |e|];
        }
      }
    }
  }

  /** The empty string is the only string encoding to nothing. */
  lemma EncodeEmpty(s: string)
    ensures (PercentEncode(s) == []) == (s == [])
  {
    if s != [] {
      assert |EncodeChar(s[0])| >= 1;
    }
  }
}
