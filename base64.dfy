/**
 * The standard, padded Base64 encoding of section 4 of RFC 4648 (Go's
 * `base64.StdEncoding.EncodeToString`), with a strict decoder as its partner.
 */
module Base64 {
  import opened Wrappers
  import opened Bytes

  /** The Base64 alphabet of RFC 4648, section 4, Table 1: sextet value to character. */
  function SextetChar(v: int): (c: char)
    requires 0 <= v < 64
  {
    if v < 26 then ('A' as int + v) as char
    else if v < 52 then ('a' as int + (v - 26)) as char
    else if v < 62 then ('0' as int + (v - 52)) as char
    else if v == 62 then '+'
    else '/'
  }

  /** The inverse of the alphabet: None for a character outside it (the pad `=` included). */
  function CharSextet(c: char): (r: Option<int>)
    ensures r.Some? ==> 0 <= r.value < 64 && SextetChar(r.value) == c
  {
    if 'A' <= c <= 'Z' then Some(c as int - 'A' as int)
    else if 'a' <= c <= 'z' then Some(c as int - 'a' as int + 26)
    else if '0' <= c <= '9' then Some(c as int - '0' as int + 52)
    else if c == '+' then Some(62)
    else if c == '/' then Some(63)
    else None
  }

  predicate IsAlphabetChar(c: char) {
    CharSextet(c).Some?
  }

  lemma SextetRoundTrip(v: int)
    requires 0 <= v < 64
    ensures CharSextet(SextetChar(v)) == Some(v)
  {
  }

  const Pad: char := '='

  /** The four sextets of a full 24-bit input group, most significant first. */
  function Quantum(b0: byte, b1: byte, b2: byte): (s: string)
    ensures |s| == 4
  {
    [SextetChar(b0 / 4), SextetChar((b0 % 4) * 16 + b1 / 16),
     SextetChar((b1 % 16) * 4 + b2 / 64), SextetChar(b2 % 64)]
  }

  /** A quantum is made of alphabet characters only. */
  lemma QuantumAlphabet(b0: byte, b1: byte, b2: byte)
    ensures forall k :: 0 <= k < 4 ==> IsAlphabetChar(Quantum(b0, b1, b2)[k])
  {
    SextetRoundTrip(b0 / 4);
    SextetRoundTrip((b0 % 4) * 16 + b1 / 16);
    SextetRoundTrip((b1 % 16) * 4 + b2 / 64);
    SextetRoundTrip(b2 % 64);
  }

  /**
   * The last, partial input group of zero, one or two bytes: padded with zero
   * bits to whole sextets and then with `==` or `=` to a full quantum.
   */
  function EncodeFinal(b: seq<byte>): (s: string)
    requires |b| < 3
    ensures |s| == if b == [] then 0 else 4
  {
    if |b| == 0 then ""
    else if |b| == 1 then
      var q := Quantum(b[0], 0, 0);
      [q[0], q[1], Pad, Pad]
    else
      var q := Quantum(b[0], b[1], 0);
      [q[0], q[1], q[2], Pad]
  }

  /**
   * Standard Base64 with padding (section 4 of RFC 4648): each group of three
   * bytes becomes four characters of the alphabet, and the last group is
   * encoded by EncodeFinal.
   */
  function Encode(b: seq<byte>): (s: string)
    ensures |s| == 4 * ((|b| + 2) / 3)
    decreases |b|
  {
    if |b| < 3 then EncodeFinal(b)
    else
      var rest := Encode(b[3..]);
      assert (|b| - 3 + 2) / 3 == (|b| + 2) / 3 - 1;
      Quantum(b[0], b[1], b[2]) + rest
  }

  /** Every character of an encoding but the last two is in the alphabet. */
  lemma {:induction false} EncodeAlphabet(b: seq<byte>)
    ensures forall k :: 0 <= k < |Encode(b)| - 2 ==> IsAlphabetChar(Encode(b)[k])
    decreases |b|
  {
    if |b| < 3 {
      if |b| > 0 {
        QuantumAlphabet(b[0], if |b| == 2 then b[1] else 0, 0);
      }
    } else {
      var q, rest := Quantum(b[0], b[1], b[2]), Encode(b[3..]);
      QuantumAlphabet(b[0], b[1], b[2]);
      EncodeAlphabet(b[3..]);
      var s := q + rest;
      assert Encode(b) == s;
      forall k | 0 <= k < |s| - 2
        ensures IsAlphabetChar(s[k])
      {
        if k >= 4 {
          assert 0 <= k - 4 < |rest| - 2;
          assert IsAlphabetChar(rest[k - 4]);
          assert s[k] == rest[k - 4];
        } else {
          assert s[k] == q[k];
        }
      }
    }
  }

  /**
   * Padding: the last quantum ends in `==` when one byte is left over, in a
   * single `=` when two are, and there is no padding otherwise.
   */
  lemma {:induction false} EncodePadding(b: seq<byte>)
    ensures var s := Encode(b);
      && (|b| % 3 == 0 && s != [] ==> IsAlphabetChar(s[|s| - 2]) && IsAlphabetChar(s[|s| - 1]))
      && (|b| % 3 == 1 ==> s[|s| - 2] == Pad && s[|s| - 1] == Pad)
      && (|b| % 3 == 2 ==> IsAlphabetChar(s[|s| - 2]) && s[|s| - 1] == Pad)
    decreases |b|
  {
    if |b| >= 3 {
      assert |b[3..]| % 3 == |b| % 3;
      if |b| == 3 {
        QuantumTail(b);
      } else {
        EncodePadding(b[3..]);
        EncodeEnds(b);
      }
    } else if |b| == 2 {
      QuantumAlphabet(b[0], b[1], 0);
    }
  }

  /** The encoding of exactly three bytes is one quantum, so it ends in two alphabet characters. */
  lemma QuantumTail(b: seq<byte>)
    requires |b| == 3
    ensures var s := Encode(b); IsAlphabetChar(s[2]) && IsAlphabetChar(s[3])
  {
    QuantumAlphabet(b[0], b[1], b[2]);
    assert b[3..] == [];
    assert Encode(b) == Quantum(b[0], b[1], b[2]) + [];
  }

  /** Beyond the first group, an encoding ends as the encoding of the remaining bytes does. */
  lemma EncodeEnds(b: seq<byte>)
    requires |b| > 3
    ensures var s, rest := Encode(b), Encode(b[3..]);
      |rest| >= 2 && s[|s| - 2] == rest[|rest| - 2] && s[|s| - 1] == rest[|rest| - 1]
  {
    var q, rest := Quantum(b[0], b[1], b[2]), Encode(b[3..]);
    assert Encode(b) == q + rest;
    assert (q + rest)[|q + rest| - 2] == rest[|rest| - 2];
    assert (q + rest)[|q + rest| - 1] == rest[|rest| - 1];
  }

  /** The three bytes a full quantum of sextets `x0 x1 x2 x3` stands for. */
  function Bytes3(x0: int, x1: int, x2: int, x3: int): (r: seq<byte>)
    requires 0 <= x0 < 64 && 0 <= x1 < 64 && 0 <= x2 < 64 && 0 <= x3 < 64
    ensures |r| == 3
  {
    [x0 * 4 + x1 / 16, (x1 % 16) * 16 + x2 / 4, (x2 % 4) * 64 + x3]
  }

  /** Decodes one unpadded quantum. */
  function DecodeQuantum(q: string): (r: Option<seq<byte>>)
    requires |q| == 4
    ensures r.Some? ==> |r.value| == 3
  {
    match (CharSextet(q[0]), CharSextet(q[1]), CharSextet(q[2]), CharSextet(q[3]))
    case (Some(x0), Some(x1), Some(x2), Some(x3)) => Some(Bytes3(x0, x1, x2, x3))
    case _ => None
  }

  /**
   * Decodes the last quantum, which may end in `==` (one byte) or `=` (two
   * bytes); the pad bits of the last sextet before the padding must be zero
   * (RFC 4648, section 3.5).
   */
  function DecodeFinal(q: string): (r: Option<seq<byte>>)
    requires |q| == 4
    ensures r.Some? ==> 1 <= |r.value| <= 3
  {
    if q[2] == Pad && q[3] == Pad then
      match (CharSextet(q[0]), CharSextet(q[1]))
      case (Some(x0), Some(x1)) => if x1 % 16 == 0 then Some(Bytes3(x0, x1, 0, 0)[..1]) else None
      case _ => None
    else if q[3] == Pad then
      match (CharSextet(q[0]), CharSextet(q[1]), CharSextet(q[2]))
      case (Some(x0), Some(x1), Some(x2)) => if x2 % 4 == 0 then Some(Bytes3(x0, x1, x2, 0)[..2]) else None
      case _ => None
    else DecodeQuantum(q)
  }

  /** Standard padded Base64 decoding, the inverse of Encode. */
  function Decode(s: string): (r: Option<seq<byte>>)
    decreases |s|
  {
    if s == [] then Some([])
    else if |s| < 4 then None
    else if |s| == 4 then DecodeFinal(s)
    else
      var head, tail := DecodeQuantum(s[..4]), Decode(s[4..]);
      if head.Some? && tail.Some? then Some(head.value + tail.value) else None
  }

  /** Decoding the sextets of a quantum gives back its three bytes. */
  lemma QuantumRoundTrip(b0: byte, b1: byte, b2: byte)
    ensures DecodeQuantum(Quantum(b0, b1, b2)) == Some([b0, b1, b2])
  {
    var x0, x1, x2, x3 := b0 / 4, (b0 % 4) * 16 + b1 / 16, (b1 % 16) * 4 + b2 / 64, b2 % 64;
    SextetRoundTrip(x0);
    SextetRoundTrip(x1);
    SextetRoundTrip(x2);
    SextetRoundTrip(x3);
    assert x1 / 16 == b0 % 4 && x1 % 16 == b1 / 16;
    assert x2 / 4 == b1 % 16 && x2 % 4 == b2 / 64;
    assert Bytes3(x0, x1, x2, x3) == [b0, b1, b2];
  }

  /** A final group of one byte survives encoding followed by decoding. */
  lemma DecodeEncodeOne(b0: byte)
    ensures Decode(Encode([b0])) == Some([b0])
  {
    var x0, x1 := b0 / 4, (b0 % 4) * 16;
    SextetRoundTrip(x0);
    SextetRoundTrip(x1);
    var s := Encode([b0]);
    assert s == EncodeFinal([b0]) == [SextetChar(x0), SextetChar(x1), Pad, Pad];
    assert DecodeFinal(s) == Some(Bytes3(x0, x1, 0, 0)[..1]);
    assert Bytes3(x0, x1, 0, 0)[..1] == [b0];
  }

  /** A final group of two bytes survives encoding followed by decoding. */
  lemma DecodeEncodeTwo(b0: byte, b1: byte)
    ensures Decode(Encode([b0, b1])) == Some([b0, b1])
  {
    var x0, x1, x2 := b0 / 4, (b0 % 4) * 16 + b1 / 16, (b1 % 16) * 4;
    SextetRoundTrip(x0);
    SextetRoundTrip(x1);
    SextetRoundTrip(x2);
    var s := Encode([b0, b1]);
    assert s == EncodeFinal([b0, b1]) == [SextetChar(x0), SextetChar(x1), SextetChar(x2), Pad];
    assert DecodeFinal(s) == Some(Bytes3(x0, x1, x2, 0)[..2]);
    assert x1 / 16 == b0 % 4 && x1 % 16 == b1 / 16;
    assert Bytes3(x0, x1, x2, 0)[..2] == [b0, b1];
  }

  /** RFC 4648 Base64 is decodable: decoding an encoding gives back the bytes. */
  lemma {:induction false} DecodeEncode(b: seq<byte>)
    ensures Decode(Encode(b)) == Some(b)
    decreases |b|
  {
    if |b| == 1 {
      assert b == [b[0]];
      DecodeEncodeOne(b[0]);
    } else if |b| == 2 {
      assert b == [b[0], b[1]];
      DecodeEncodeTwo(b[0], b[1]);
    } else if |b| == 3 {
      assert b == [b[0], b[1], b[2]];
      DecodeEncodeThree(b[0], b[1], b[2]);
    } else if |b| > 3 {
      DecodeEncode(b[3..]);
      DecodeEncodeStep(b);
    }
  }

  /** A single full group survives encoding followed by decoding. */
  lemma DecodeEncodeThree(b0: byte, b1: byte, b2: byte)
    ensures Decode(Encode([b0, b1, b2])) == Some([b0, b1, b2])
  {
    var b := [b0, b1, b2];
    var q := Quantum(b0, b1, b2);
    assert b[3..] == [];
    assert Encode(b) == q + [] == q;
    QuantumRoundTrip(b0, b1, b2);
    assert q[3] != Pad;
  }

  /** Decoding an encoding of more than one group decodes the first quantum, then the rest. */
  lemma DecodeEncodeStep(b: seq<byte>)
    requires |b| > 3
    requires Decode(Encode(b[3..])) == Some(b[3..])
    ensures Decode(Encode(b)) == Some(b)
  {
    var q, rest := Quantum(b[0], b[1], b[2]), Encode(b[3..]);
    assert Encode(b) == q + rest;
    QuantumRoundTrip(b[0], b[1], b[2]);
    DecodeQuantumThenRest(q, rest);
    SplitGroup(b);
  }

  lemma SplitGroup(b: seq<byte>)
    requires |b| >= 3
    ensures b == [b[0], b[1], b[2]] + b[3..]
  {
  }

  /** Decoding more than one quantum decodes the first one and then the rest. */
  lemma DecodeQuantumThenRest(q: string, rest: string)
    requires |q| == 4 && rest != []
    ensures Decode(q + rest) ==
      if DecodeQuantum(q).Some? && Decode(rest).Some? then Some(DecodeQuantum(q).value + Decode(rest).value)
      else None
  {
    assert (q + rest)[..4] == q && (q + rest)[4..] == rest;
  }

  /** Encoding is injective: different byte strings have different encodings. */
  lemma EncodeInjective(a: seq<byte>, b: seq<byte>)
    requires Encode(a) == Encode(b)
    ensures a == b
  {
    DecodeEncode(a);
    DecodeEncode(b);
  }

  // ------------------------------------------------- the other direction

  /** Re-encoding the bytes of a full quantum of sextets gives back the sextets. */
  lemma QuantumOfBytes(x0: int, x1: int, x2: int, x3: int)
    requires 0 <= x0 < 64 && 0 <= x1 < 64 && 0 <= x2 < 64 && 0 <= x3 < 64
    ensures var b := Bytes3(x0, x1, x2, x3);
      Quantum(b[0], b[1], b[2]) == [SextetChar(x0), SextetChar(x1), SextetChar(x2), SextetChar(x3)]
  {
    var b := Bytes3(x0, x1, x2, x3);
    assert b[0] / 4 == x0 && b[0] % 4 == x1 / 16;
    assert b[1] / 16 == x1 % 16 && b[1] % 16 == x2 / 4;
    assert b[2] / 64 == x2 % 4 && b[2] % 64 == x3;
  }

  /** A quantum that decodes is the encoding of what it decodes to. */
  lemma DecodeQuantumInverse(q: string)
    requires |q| == 4 && DecodeQuantum(q).Some?
    ensures var b := DecodeQuantum(q).value; Quantum(b[0], b[1], b[2]) == q
  {
    var x0, x1, x2, x3 := CharSextet(q[0]).value, CharSextet(q[1]).value, CharSextet(q[2]).value, CharSextet(q[3]).value;
    QuantumOfBytes(x0, x1, x2, x3);
  }

  /** A last quantum ending in `==` that decodes is the encoding of its one byte. */
  lemma DecodeOnePadInverse(q: string)
    requires |q| == 4 && q[2] == Pad && q[3] == Pad && DecodeFinal(q).Some?
    ensures Encode(DecodeFinal(q).value) == q
  {
    var x0, x1 := CharSextet(q[0]).value, CharSextet(q[1]).value;
    QuantumOfBytes(x0, x1, 0, 0);
    var c := Bytes3(x0, x1, 0, 0);
    assert DecodeFinal(q).value == [c[0]];
    assert Quantum(c[0], 0, 0) == [SextetChar(x0), SextetChar(x1), SextetChar(0), SextetChar(0)];
  }

  /** A last quantum ending in a single `=` that decodes is the encoding of its two bytes. */
  lemma DecodeTwoPadInverse(q: string)
    requires |q| == 4 && q[2] != Pad && q[3] == Pad && DecodeFinal(q).Some?
    ensures Encode(DecodeFinal(q).value) == q
  {
    var x0, x1, x2 := CharSextet(q[0]).value, CharSextet(q[1]).value, CharSextet(q[2]).value;
    QuantumOfBytes(x0, x1, x2, 0);
    var c := Bytes3(x0, x1, x2, 0);
    assert DecodeFinal(q).value == [c[0], c[1]];
    assert Quantum(c[0], c[1], 0) == [SextetChar(x0), SextetChar(x1), SextetChar(x2), SextetChar(0)];
  }

  /** A last quantum that decodes is the encoding of what it decodes to. */
  lemma DecodeFinalInverse(q: string)
    requires |q| == 4 && DecodeFinal(q).Some?
    ensures Encode(DecodeFinal(q).value) == q
  {
    if q[3] != Pad {
      DecodeQuantumInverse(q);
      assert DecodeFinal(q).value[3..] == [];
    } else if q[2] == Pad {
      DecodeOnePadInverse(q);
    } else {
      DecodeTwoPadInverse(q);
    }
  }

  /**
   * The decoder accepts only canonical encodings: whatever decodes is the
   * encoding of what it decodes to.
   */
  lemma {:induction false} EncodeDecode(s: string)
    requires Decode(s).Some?
    ensures Encode(Decode(s).value) == s
    decreases |s|
  {
    if |s| == 4 {
      DecodeFinalInverse(s);
    } else if |s| > 4 {
      var head, tail := DecodeQuantum(s[..4]).value, Decode(s[4..]).value;
      var b := head + tail;
      EncodeDecode(s[4..]);
      DecodeQuantumInverse(s[..4]);
      assert b[..3] == head && b[3..] == tail;
      assert Encode(b) == Quantum(b[0], b[1], b[2]) + Encode(tail);
      assert s == s[..4] + s[4..];
    }
  }

  /** The decoder is injective on what it accepts. */
  lemma DecodeInjective(s: string, t: string)
    requires Decode(s).Some? && Decode(s) == Decode(t)
    ensures s == t
  {
    EncodeDecode(s);
    EncodeDecode(t);
  }

  /** The pad bits before `==` must be zero: `QR==` is refused, `QQ==` is the encoding of `A`. */
  lemma PadBitsChecked()
    ensures Decode("QQ==") == Some([0x41]) && Decode("QR==") == None
  {
    var good, bad := "QQ==", "QR==";
    assert good[0] == 'Q' && good[1] == 'Q' && good[2] == Pad && good[3] == Pad;
    assert bad[0] == 'Q' && bad[1] == 'R' && bad[2] == Pad && bad[3] == Pad;
    assert CharSextet('Q') == Some(16) && CharSextet('R') == Some(17);
    assert DecodeFinal(good) == Some(Bytes3(16, 16, 0, 0)[..1]);
    assert Bytes3(16, 16, 0, 0)[..1] == [0x41];
    assert DecodeFinal(bad) == None;
  }
}
