/**
 * UTF-8 (RFC 3629, section 3): Go's `[]byte(s)` of a string, with a strict
 * decoder as its partner.
 */
module Utf8 {
  import opened Wrappers
  import opened Bytes

  /** The UTF-8 encoding of one Unicode scalar value. */
  function EncodeRune(c: char): (r: seq<byte>)
    ensures 1 <= |r| <= 4
    ensures c as int < 0x80 ==> r == [c as int]
    ensures c as int >= 0x80 ==> forall k :: 0 <= k < |r| ==> r[k] >= 0x80
  {
    var n := c as int;
    if n < 0x80 then [n]
    else if n < 0x800 then [0xC0 + n / 0x40, 0x80 + n % 0x40]
    else if n < 0x1_0000 then [0xE0 + n / 0x1000, 0x80 + (n / 0x40) % 0x40, 0x80 + n % 0x40]
    else [0xF0 + n / 0x4_0000, 0x80 + (n / 0x1000) % 0x40, 0x80 + (n / 0x40) % 0x40, 0x80 + n % 0x40]
  }

  /** The UTF-8 encoding of a string: its runes' encodings, in order. */
  function Encode(s: string): (r: seq<byte>)
    ensures |s| <= |r| <= 4 * |s|
  {
    if s == [] then [] else EncodeRune(s[0]) + Encode(s[1..])
  }

  /** Encoding is a homomorphism from string concatenation to byte concatenation. */
  lemma {:induction false} EncodeConcat(a: string, b: string)
    ensures Encode(a + b) == Encode(a) + Encode(b)
  {
    if a == [] {
      assert a + b == b;
    } else {
      assert (a + b)[0] == a[0];
      assert (a + b)[1..] == a[1..] + b;
      EncodeConcat(a[1..], b);
    }
  }

  /** An ASCII string encodes to its character codes, byte for byte. */
  lemma {:induction false} EncodeAscii(s: string)
    requires forall k :: 0 <= k < |s| ==> s[k] as int < 0x80
    ensures |Encode(s)| == |s|
    ensures forall k :: 0 <= k < |s| ==> Encode(s)[k] == s[k] as int
  {
    if s != [] {
      EncodeAscii(s[1..]);
      assert forall k :: 1 <= k < |s| ==> s[k] == s[1..][k - 1];
    }
  }

  // ------------------------------------------------------------- decoding

  /** The length of the sequence a lead byte starts, or 0 when it cannot start one. */
  function SequenceLength(lead: byte): nat {
    if lead < 0x80 then 1
    else if lead < 0xC0 then 0
    else if lead < 0xE0 then 2
    else if lead < 0xF0 then 3
    else if lead < 0xF8 then 4
    else 0
  }

  predicate IsContinuation(b: byte) {
    0x80 <= b < 0xC0
  }

  /** The value bits of the first `len` bytes, six per continuation byte. */
  function Assemble(b: seq<byte>, len: nat): int
    requires 1 <= len <= 4 && len <= |b|
  {
    if len == 1 then b[0]
    else if len == 2 then (b[0] as int - 0xC0) * 0x40 + (b[1] as int - 0x80)
    else if len == 3 then ((b[0] as int - 0xE0) * 0x40 + (b[1] as int - 0x80)) * 0x40 + (b[2] as int - 0x80)
    else (((b[0] as int - 0xF0) * 0x40 + (b[1] as int - 0x80)) * 0x40 + (b[2] as int - 0x80)) * 0x40
         + (b[3] as int - 0x80)
  }

  /** The least value that needs `len` bytes; a longer form of a smaller value is overlong. */
  function MinValue(len: nat): int {
    if len <= 1 then 0 else if len == 2 then 0x80 else if len == 3 then 0x800 else 0x1_0000
  }

  /**
   * The first rune of a byte sequence and the number of bytes it takes, or
   * None when the sequence does not start with a well-formed, shortest
   * encoding of a scalar value.
   */
  function DecodeRune(b: seq<byte>): (r: Option<(char, nat)>)
    requires b != []
    ensures r.Some? ==> 1 <= r.value.1 <= |b|
  {
    var len := SequenceLength(b[0]);
    if len == 0 || |b| < len then None
    else if !(forall k :: 1 <= k < len ==> IsContinuation(b[k])) then None
    else
      var n := Assemble(b, len);
      if n < MinValue(len) || (0xD800 <= n < 0xE000) || n >= 0x11_0000 then None
      else Some((n as char, len))
  }

  /** The string a byte sequence encodes, or None when it is not well-formed UTF-8. */
  function Decode(b: seq<byte>): (r: Option<string>)
    decreases |b|
  {
    if b == [] then Some([])
    else
      match DecodeRune(b)
      case None => None
      case Some((c, len)) =>
        match Decode(b[len..])
        case None => None
        case Some(rest) => Some([c] + rest)
  }

  lemma DivDiv(n: nat)
    ensures n / 0x1000 == (n / 0x40) / 0x40
    ensures n / 0x4_0000 == ((n / 0x40) / 0x40) / 0x40
  {
  }

  /** A rune's encoding, whatever follows it, decodes back to the rune and its length. */
  lemma DecodeRuneEncode(c: char, rest: seq<byte>)
    ensures DecodeRune(EncodeRune(c) + rest) == Some((c, |EncodeRune(c)|))
  {
    var n, e := c as int, EncodeRune(c);
    var b := e + rest;
    assert b[..|e|] == e;
    DivDiv(n);
  }

  /** Decoding the encoding of a string gives back the string. */
  lemma {:induction false} DecodeEncode(s: string)
    ensures Decode(Encode(s)) == Some(s)
  {
    if s != [] {
      var e, rest := EncodeRune(s[0]), Encode(s[1..]);
      var b := e + rest;
      DecodeRuneEncode(s[0], rest);
      assert b[|e|..] == rest;
      DecodeEncode(s[1..]);
      assert [s[0]] + s[1..] == s;
    }
  }

  /** Different strings have different encodings. */
  lemma EncodeInjective(s: string, t: string)
    requires Encode(s) == Encode(t)
    ensures s == t
  {
    DecodeEncode(s);
    DecodeEncode(t);
  }
}
