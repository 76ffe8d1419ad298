/**
 * The base 64 encoding of section 4 of RFC 4648: every 3 bytes become 4
 * characters of the 64-character alphabet, and a final group of 1 or 2 bytes
 * is padded with "==" or "=". Decoding is strict: the length must be a
 * multiple of 4, padding may only end the text, the pad bits must be zero
 * (section 3.5 of RFC 4648) and no other character is skipped.
 */
module Base64 {
  import opened Wrappers

  type byte = x: int | 0 <= x < 256
  type sextet = x: int | 0 <= x < 64

  const Pad: char := '='

  /** A character of the alphabet of Table 1 of RFC 4648 (not the pad). */
  predicate IsAlphabetChar(c: char) {
    ('A' <= c <= 'Z') || ('a' <= c <= 'z') || ('0' <= c <= '9') || c == '+' || c == '/'
  }

  /** Table 1 of RFC 4648, from value to character. */
  function EncodeSextet(v: sextet): (c: char)
    ensures IsAlphabetChar(c)
  {
    if v < 26 then ('A' as int + v) as char
    else if v < 52 then ('a' as int + (v - 26)) as char
    else if v < 62 then ('0' as int + (v - 52)) as char
    else if v == 62 then '+'
    else '/'
  }

  /** Table 1 of RFC 4648, from character to value: the inverse of `EncodeSextet`. */
  function DecodeSextet(c: char): (v: sextet)
    requires IsAlphabetChar(c)
    ensures EncodeSextet(v) == c
  {
    if 'A' <= c <= 'Z' then c as int - 'A' as int
    else if 'a' <= c <= 'z' then c as int - 'a' as int + 26
    else if '0' <= c <= '9' then c as int - '0' as int + 52
    else if c == '+' then 62
    else 63
  }

  /** Each value through the table, character by character. */
  function Chars(vs: seq<sextet>): (s: string)
    ensures |s| == |vs|
    ensures forall k :: 0 <= k < |s| ==> IsAlphabetChar(s[k])
  {
    if vs == [] then [] else [EncodeSextet(vs[0])] + Chars(vs[1..])
  }

  /** Each character back through the table; `None` if any character is outside the alphabet. */
  function DecodeChars(s: string): (r: Option<seq<sextet>>)
    ensures r.Some? ==> |r.value| == |s|
    ensures r.Some? <==> forall k :: 0 <= k < |s| ==> IsAlphabetChar(s[k])
  {
    if s == [] then Some([])
    else if !IsAlphabetChar(s[0]) then None
    else
      match DecodeChars(s[1..])
      case None => None
      case Some(rest) => Some([DecodeSextet(s[0])] + rest)
  }

  lemma {:induction false} DecodeCharsOfChars(vs: seq<sextet>)
    ensures DecodeChars(Chars(vs)) == Some(vs)
  {
    if vs != [] {
      var s := Chars(vs);
      assert s[1..] == Chars(vs[1..]);
      DecodeCharsOfChars(vs[1..]);
      assert DecodeSextet(EncodeSextet(vs[0])) == vs[0];
      assert [vs[0]] + vs[1..] == vs;
    }
  }

  lemma {:induction false} CharsOfDecodeChars(s: string)
    requires DecodeChars(s).Some?
    ensures Chars(DecodeChars(s).value) == s
  {
    if s != [] {
      var vs := DecodeChars(s).value;
      CharsOfDecodeChars(s[1..]);
      assert vs[1..] == DecodeChars(s[1..]).value;
      assert [s[0]] + s[1..] == s;
    }
  }

  /** The bit layout of section 4 of RFC 4648: 1, 2 or 3 bytes cut into 2, 3 or 4 six-bit groups, zero-filled. */
  function Sextets(b: seq<byte>): (vs: seq<sextet>)
    requires 1 <= |b| <= 3
    ensures |vs| == |b| + 1
  {
    if |b| == 1 then [b[0] / 4, (b[0] % 4) * 16]
    else if |b| == 2 then [b[0] / 4, (b[0] % 4) * 16 + b[1] / 16, (b[1] % 16) * 4]
    else [b[0] / 4, (b[0] % 4) * 16 + b[1] / 16, (b[1] % 16) * 4 + b[2] / 64, b[2] % 64]
  }

  /** The six-bit groups joined back into bytes; the bits past the last whole byte are dropped. */
  function Unsextets(vs: seq<sextet>): (b: seq<byte>)
    requires 2 <= |vs| <= 4
    ensures |b| == |vs| - 1
  {
    var b0: byte := vs[0] as int * 4 + vs[1] / 16;
    if |vs| == 2 then [b0]
    else
      var b1: byte := (vs[1] % 16) as int * 16 + vs[2] / 4;
      if |vs| == 3 then [b0, b1]
      else
        var b2: byte := (vs[2] % 4) as int * 64 + vs[3];
        [b0, b1, b2]
  }

  /** The dropped bits are zero, as an encoder leaves them (section 3.5 of RFC 4648). */
  predicate ZeroPadBits(vs: seq<sextet>)
    requires 2 <= |vs| <= 4
  {
    (|vs| == 2 ==> vs[1] % 16 == 0) && (|vs| == 3 ==> vs[2] % 4 == 0)
  }

  /** Bits put side by side are taken apart again by division and remainder. */
  lemma Recombine16(hi: int, lo: int)
    requires 0 <= lo < 16 && 0 <= hi
    ensures (hi * 16 + lo) / 16 == hi && (hi * 16 + lo) % 16 == lo
  {
  }

  lemma Recombine4(hi: int, lo: int)
    requires 0 <= lo < 4 && 0 <= hi
    ensures (hi * 4 + lo) / 4 == hi && (hi * 4 + lo) % 4 == lo
  {
  }

  lemma UnsextetsOfSextets(b: seq<byte>)
    requires 1 <= |b| <= 3
    ensures ZeroPadBits(Sextets(b)) && Unsextets(Sextets(b)) == b
  {
    var vs := Sextets(b);
    Recombine16(b[0] % 4, if |b| == 1 then 0 else b[1] / 16);
    assert Unsextets(vs)[0] == b[0];
    if |b| >= 2 {
      Recombine4(b[1] % 16, if |b| == 2 then 0 else b[2] / 64);
      assert Unsextets(vs)[1] == b[1];
    }
    if |b| == 3 {
      assert Unsextets(vs)[2] == b[2];
    }
  }

  lemma SextetsOfUnsextets(vs: seq<sextet>)
    requires 2 <= |vs| <= 4 && ZeroPadBits(vs)
    ensures Sextets(Unsextets(vs)) == vs
  {
    var b := Unsextets(vs);
    assert b[0] / 4 == vs[0] && b[0] % 4 == vs[1] / 16;
    if |vs| >= 3 {
      assert b[1] / 16 == vs[1] % 16 && b[1] % 16 == vs[2] / 4;
    }
    if |vs| == 4 {
      assert b[2] / 64 == vs[2] % 4 && b[2] % 64 == vs[3];
    }
  }

  /** `n` pad characters. */
  function Pads(n: nat): (s: string)
    ensures |s| == n && forall k :: 0 <= k < n ==> s[k] == Pad
  {
    seq(n, _ => Pad)
  }

  /** One quantum: 1, 2 or 3 bytes become 4 characters, padded with "==", "=" or nothing. */
  function EncodeQuantum(b: seq<byte>): (s: string)
    requires 1 <= |b| <= 3
    ensures |s| == 4
  {
    Chars(Sextets(b)) + Pads(3 - |b|)
  }

  /** `Convert.ToBase64String`: 4 characters per started group of 3 bytes. */
  function Encode(b: seq<byte>): (s: string)
    ensures |s| == 4 * ((|b| + 2) / 3)
    decreases |b|
  {
    if |b| == 0 then []
    else if |b| <= 3 then EncodeQuantum(b)
    else EncodeQuantum(b[..3]) + Encode(b[3..])
  }

  /** The number of pad characters that end the encoding of `n` bytes. */
  function Padding(n: nat): (p: nat)
    ensures p <= 2
  {
    if n % 3 == 0 then 0 else 3 - n % 3
  }

  /** A quantum is `|b| + 1` alphabet characters and then pad characters. */
  lemma QuantumShape(b: seq<byte>)
    requires 1 <= |b| <= 3
    ensures forall k :: 0 <= k < |b| + 1 ==> IsAlphabetChar(EncodeQuantum(b)[k])
    ensures forall k :: |b| + 1 <= k < 4 ==> EncodeQuantum(b)[k] == Pad
  {
    var cs, ps := Chars(Sextets(b)), Pads(3 - |b|);
    assert EncodeQuantum(b) == cs + ps;
  }

  /** An encoding is alphabet characters followed by exactly `Padding(|b|)` pad characters. */
  lemma {:induction false} EncodeShape(b: seq<byte>)
    ensures forall k :: 0 <= k < |Encode(b)| - Padding(|b|) ==> IsAlphabetChar(Encode(b)[k])
    ensures forall k :: |Encode(b)| - Padding(|b|) <= k < |Encode(b)| ==> Encode(b)[k] == Pad
    decreases |b|
  {
    if 1 <= |b| <= 3 {
      QuantumShape(b);
      assert |Encode(b)| - Padding(|b|) == |b| + 1;
    } else if |b| > 3 {
      var q, t := EncodeQuantum(b[..3]), Encode(b[3..]);
      EncodeShape(b[3..]);
      QuantumShape(b[..3]);
      assert Encode(b) == q + t;
      assert |Encode(b)| - Padding(|b|) == 4 + |t| - Padding(|b[3..]|);
    }
  }

  /** How many of the last two characters of a final quantum are padding. */
  function PadCount(q: string): (p: nat)
    requires |q| == 4
    ensures p <= 2
  {
    if q[3] == Pad then (if q[2] == Pad then 2 else 1) else 0
  }

  /** One quantum back to bytes. Only the final quantum may carry padding. */
  function DecodeQuantum(q: string, final: bool): (r: Option<seq<byte>>)
    requires |q| == 4
  {
    var p := if final then PadCount(q) else 0;
    match DecodeChars(q[..4 - p])
    case None => None
    case Some(vs) => if ZeroPadBits(vs) then Some(Unsextets(vs)) else None
  }

  /** `Convert.FromBase64String`, strict: `None` where .NET throws a `FormatException`. */
  function Decode(s: string): (r: Option<seq<byte>>)
    decreases |s|
  {
    if |s| == 0 then Some([])
    else if |s| < 4 then None
    else if |s| == 4 then DecodeQuantum(s, true)
    else
      match DecodeQuantum(s[..4], false)
      case None => None
      case Some(q) =>
        match Decode(s[4..])
        case None => None
        case Some(rest) => Some(q + rest)
  }

  lemma DecodeEncodeQuantum(b: seq<byte>, final: bool)
    requires 1 <= |b| <= 3 && (final || |b| == 3)
    ensures DecodeQuantum(EncodeQuantum(b), final) == Some(b)
  {
    var q := EncodeQuantum(b);
    var cs := Chars(Sextets(b));
    assert q[..|b| + 1] == cs;
    if final {
      assert PadCount(q) == 3 - |b|;
    }
    DecodeCharsOfChars(Sextets(b));
    UnsextetsOfSextets(b);
  }

  lemma EncodeDecodeQuantum(q: string, final: bool)
    requires |q| == 4 && DecodeQuantum(q, final).Some?
    ensures EncodeQuantum(DecodeQuantum(q, final).value) == q
    ensures !final ==> |DecodeQuantum(q, final).value| == 3
  {
    var p := if final then PadCount(q) else 0;
    var vs := DecodeChars(q[..4 - p]).value;
    CharsOfDecodeChars(q[..4 - p]);
    SextetsOfUnsextets(vs);
    var e := EncodeQuantum(Unsextets(vs));
    assert e == q[..4 - p] + Pads(p);
    assert q == q[..4 - p] + q[4 - p..];
    assert q[4 - p..] == Pads(p);
  }

  /** Round trip: decoding an encoding gives the bytes back. */
  lemma {:induction false} DecodeEncode(b: seq<byte>)
    ensures Decode(Encode(b)) == Some(b)
    decreases |b|
  {
    if |b| == 0 {
    } else if |b| <= 3 {
      DecodeEncodeQuantum(b, true);
    } else {
      var s := Encode(b);
      var q := EncodeQuantum(b[..3]);
      assert s[..4] == q && s[4..] == Encode(b[3..]);
      DecodeEncodeQuantum(b[..3], false);
      DecodeEncode(b[3..]);
      assert b[..3] + b[3..] == b;
    }
  }

  /** Strictness: only the canonical encoding of some bytes decodes, and it decodes to those bytes. */
  lemma {:induction false} EncodeDecode(s: string)
    requires Decode(s).Some?
    ensures Encode(Decode(s).value) == s
    decreases |s|
  {
    if |s| == 4 {
      EncodeDecodeQuantum(s, true);
    } else if |s| > 4 {
      var q := DecodeQuantum(s[..4], false).value;
      var rest := Decode(s[4..]).value;
      EncodeDecode(s[4..]);
      EncodeDecodeQuantum(s[..4], false);
      assert (q + rest)[..3] == q && (q + rest)[3..] == rest;
      assert s == s[..4] + s[4..];
    }
  }

  /** Neither the alphabet nor the pad contains `c`, so no encoding does. */
  lemma EncodeAvoids(b: seq<byte>, c: char)
    requires !IsAlphabetChar(c) && c != Pad
    ensures c !in Encode(b)
  {
    EncodeShape(b);
  }
}
