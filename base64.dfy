/** Standard base64 (section 4 of RFC 4648) over ASCII byte codes, as Go's
    `base64.StdEncoding` writes it and as `base64.NewDecoder` reads it back:
    the decoder skips CR and LF, requires padded 4-character quanta, refuses
    padding anywhere but at the end, and ignores the unused low bits of the
    last quantum (the encoding is not in strict mode). */
module Base64 {
  import opened Types

  /** The padding character '='. */
  const Pad: byte := 61

  /** The character of the standard alphabet for the sextet `i`:
      'A'..'Z', 'a'..'z', '0'..'9', '+', '/'. */
  function Symbol(i: int): (c: byte)
    requires 0 <= i < 64
  {
    if i < 26 then 65 + i
    else if i < 52 then 97 + (i - 26)
    else if i < 62 then 48 + (i - 52)
    else if i == 62 then 43
    else 47
  }

  /** The sextet a character stands for, or None outside the alphabet. */
  function Value(c: byte): (v: Option<int>)
    ensures v.Some? ==> 0 <= v.value < 64 && Symbol(v.value) == c
  {
    if 65 <= c <= 90 then Some(c - 65)
    else if 97 <= c <= 122 then Some(c - 97 + 26)
    else if 48 <= c <= 57 then Some(c - 48 + 52)
    else if c == 43 then Some(62)
    else if c == 47 then Some(63)
    else None
  }

  predicate IsSymbol(c: byte) {
    Value(c).Some?
  }

  lemma ValueOfSymbol(i: int)
    requires 0 <= i < 64
    ensures Value(Symbol(i)) == Some(i)
  {
  }

  /** Three input bytes as four characters. */
  function EncodeQuantum(b0: byte, b1: byte, b2: byte): Bytes {
    [Symbol(b0 / 4), Symbol((b0 % 4) * 16 + b1 / 16), Symbol((b1 % 16) * 4 + b2 / 64), Symbol(b2 % 64)]
  }

  /** The standard encoding, padded with '=' to a multiple of four characters. */
  function Encode(b: Bytes): Bytes
    decreases |b|
  {
    if |b| == 0 then []
    else if |b| == 1 then [Symbol(b[0] / 4), Symbol((b[0] % 4) * 16), Pad, Pad]
    else if |b| == 2 then [Symbol(b[0] / 4), Symbol((b[0] % 4) * 16 + b[1] / 16), Symbol((b[1] % 16) * 4), Pad]
    else EncodeQuantum(b[0], b[1], b[2]) + Encode(b[3..])
  }

  /** Go's decoder drops CR and LF before decoding. */
  function StripNewlines(s: Bytes): (r: Bytes)
    ensures |r| <= |s|
    ensures forall i :: 0 <= i < |r| ==> r[i] != 10 && r[i] != 13
  {
    if |s| == 0 then []
    else if s[0] == 10 || s[0] == 13 then StripNewlines(s[1..])
    else [s[0]] + StripNewlines(s[1..])
  }

  /** Four characters that all belong to the alphabet, as three bytes. */
  function DecodeFull(a: byte, b: byte, c: byte, d: byte): Option<Bytes> {
    match (Value(a), Value(b), Value(c), Value(d))
    case (Some(va), Some(vb), Some(vc), Some(vd)) =>
      Some([va * 4 + vb / 16, (vb % 16) * 16 + vc / 4, (vc % 4) * 64 + vd])
    case _ => None
  }

  /** The last quantum, which alone may end in "=" or "==". */
  function DecodeFinal(a: byte, b: byte, c: byte, d: byte): Option<Bytes> {
    if d == Pad && c == Pad then
      match (Value(a), Value(b))
      case (Some(va), Some(vb)) => Some([va * 4 + vb / 16])
      case _ => None
    else if d == Pad then
      match (Value(a), Value(b), Value(c))
      case (Some(va), Some(vb), Some(vc)) => Some([va * 4 + vb / 16, (vb % 16) * 16 + vc / 4])
      case _ => None
    else DecodeFull(a, b, c, d)
  }

  function DecodeQuanta(s: Bytes): Option<Bytes>
    decreases |s|
  {
    if |s| == 0 then Some([])
    else if |s| < 4 then None
    else if |s| == 4 then DecodeFinal(s[0], s[1], s[2], s[3])
    else
      match DecodeFull(s[0], s[1], s[2], s[3])
      case None => None
      case Some(q) =>
        match DecodeQuanta(s[4..])
        case None => None
        case Some(r) => Some(q + r)
  }

  /** Decoding; None stands for Go's CorruptInputError. */
  function Decode(s: Bytes): Option<Bytes> {
    DecodeQuanta(StripNewlines(s))
  }

  /** The output is padded to whole quanta: four characters per started
      group of three input bytes. */
  lemma {:induction false} EncodeLength(b: Bytes)
    ensures |Encode(b)| == 4 * ((|b| + 2) / 3)
    ensures |Encode(b)| % 4 == 0
    decreases |b|
  {
    if |b| >= 3 {
      EncodeLength(b[3..]);
      QuantaStep(|b| - 1);
    }
  }

  lemma QuantaStep(x: nat)
    ensures (x + 3) / 3 == x / 3 + 1
  {
  }

  /** Every output character is in the alphabet or is '=', and '=' only
      occurs in the last two positions. */
  lemma EncodeAlphabet(b: Bytes)
    ensures forall i :: 0 <= i < |Encode(b)| ==> IsSymbol(Encode(b)[i]) || Encode(b)[i] == Pad
    ensures forall i :: 0 <= i < |Encode(b)| - 2 ==> IsSymbol(Encode(b)[i])
  {
    forall i | 0 <= i < |Encode(b)|
      ensures IsSymbol(Encode(b)[i]) || Encode(b)[i] == Pad
      ensures i < |Encode(b)| - 2 ==> IsSymbol(Encode(b)[i])
    {
      EncodeSymbolAt(b, i);
    }
  }

  /** One character of the encoding: a symbol, or padding in the last two
      places. */
  lemma {:induction false} EncodeSymbolAt(b: Bytes, i: nat)
    requires i < |Encode(b)|
    ensures IsSymbol(Encode(b)[i]) || Encode(b)[i] == Pad
    ensures i < |Encode(b)| - 2 ==> IsSymbol(Encode(b)[i])
    decreases |b|
  {
    if |b| >= 3 {
      var q := EncodeQuantum(b[0], b[1], b[2]);
      var e := Encode(b[3..]);
      assert Encode(b) == q + e;
      if i < 4 {
        assert (q + e)[i] == q[i];
      } else {
        EncodeLength(b[3..]);
        assert (q + e)[i] == e[i - 4];
        EncodeSymbolAt(b[3..], i - 4);
      }
    }
  }

  lemma {:induction false} StripNewlinesNoop(s: Bytes)
    requires forall i :: 0 <= i < |s| ==> s[i] != 10 && s[i] != 13
    ensures StripNewlines(s) == s
    decreases |s|
  {
    if |s| > 0 {
      StripNewlinesNoop(s[1..]);
    }
  }

  lemma DecodeQuantumOfEncode(b0: byte, b1: byte, b2: byte)
    ensures DecodeFull(Symbol(b0 / 4), Symbol((b0 % 4) * 16 + b1 / 16),
                       Symbol((b1 % 16) * 4 + b2 / 64), Symbol(b2 % 64)) == Some([b0, b1, b2])
  {
    var s0, s1, s2, s3 := b0 / 4, (b0 % 4) * 16 + b1 / 16, (b1 % 16) * 4 + b2 / 64, b2 % 64;
    ValueOfSymbol(s0); ValueOfSymbol(s1); ValueOfSymbol(s2); ValueOfSymbol(s3);
    assert s1 / 16 == b0 % 4 && s1 % 16 == b1 / 16;
    assert s2 / 4 == b1 % 16 && s2 % 4 == b2 / 64;
  }

  lemma DecodeOneByte(b0: byte)
    ensures DecodeQuanta(Encode([b0])) == Some([b0])
  {
    var s0, s1 := b0 / 4, (b0 % 4) * 16;
    ValueOfSymbol(s0); ValueOfSymbol(s1);
    assert s1 / 16 == b0 % 4;
    assert Encode([b0]) == [Symbol(s0), Symbol(s1), Pad, Pad];
  }

  lemma DecodeTwoBytes(b0: byte, b1: byte)
    ensures DecodeQuanta(Encode([b0, b1])) == Some([b0, b1])
  {
    var s0, s1, s2 := b0 / 4, (b0 % 4) * 16 + b1 / 16, (b1 % 16) * 4;
    ValueOfSymbol(s0); ValueOfSymbol(s1); ValueOfSymbol(s2);
    assert s1 / 16 == b0 % 4 && s1 % 16 == b1 / 16;
    assert s2 / 4 == b1 % 16;
    assert Encode([b0, b1]) == [Symbol(s0), Symbol(s1), Symbol(s2), Pad];
  }

  lemma DecodeQuantaPrepend(q: Bytes, e: Bytes, x: Bytes, y: Bytes)
    requires |q| == 4 && |e| > 0
    requires DecodeFull(q[0], q[1], q[2], q[3]) == Some(x)
    requires DecodeQuanta(e) == Some(y)
    ensures DecodeQuanta(q + e) == Some(x + y)
  {
    assert (q + e)[4..] == e;
    assert (q + e)[0] == q[0] && (q + e)[1] == q[1] && (q + e)[2] == q[2] && (q + e)[3] == q[3];
  }

  lemma DecodeThreeBytes(b0: byte, b1: byte, b2: byte)
    ensures DecodeQuanta(EncodeQuantum(b0, b1, b2)) == Some([b0, b1, b2])
  {
    DecodeQuantumOfEncode(b0, b1, b2);
    var q := EncodeQuantum(b0, b1, b2);
    assert q[3] != Pad by { ValueOfSymbol(b2 % 64); }
  }

  lemma {:induction false} DecodeQuantaOfEncode(b: Bytes)
    ensures DecodeQuanta(Encode(b)) == Some(b)
    decreases |b|
  {
    if |b| <= 3 {
      DecodeShort(b);
    } else {
      DecodeQuantaOfEncode(b[3..]);
      DecodeLong(b);
    }
  }

  /** The last quantum: one, two or three bytes (or none). */
  lemma {:induction false} DecodeShort(b: Bytes)
    requires |b| <= 3
    ensures DecodeQuanta(Encode(b)) == Some(b)
  {
    if |b| == 1 {
      assert b == [b[0]];
      DecodeOneByte(b[0]);
    } else if |b| == 2 {
      assert b == [b[0], b[1]];
      DecodeTwoBytes(b[0], b[1]);
    } else if |b| == 3 {
      var q := EncodeQuantum(b[0], b[1], b[2]);
      assert Encode(b) == q + Encode(b[3..]);
      assert Encode(b[3..]) == [];
      assert q + [] == q;
      assert b == [b[0], b[1], b[2]];
      DecodeThreeBytes(b[0], b[1], b[2]);
    }
  }

  /** A full quantum in front of an encoding that decodes. */
  lemma {:induction false} DecodeLong(b: Bytes)
    requires |b| > 3
    requires DecodeQuanta(Encode(b[3..])) == Some(b[3..])
    ensures DecodeQuanta(Encode(b)) == Some(b)
  {
    var q := EncodeQuantum(b[0], b[1], b[2]);
    var e := Encode(b[3..]);
    assert Encode(b) == q + e;
    EncodeLength(b[3..]);
    DecodeQuantumOfEncode(b[0], b[1], b[2]);
    DecodeQuantaPrepend(q, e, [b[0], b[1], b[2]], b[3..]);
    assert b == [b[0], b[1], b[2]] + b[3..];
  }

  /** Decoding inverts encoding for every byte sequence, the empty one included. */
  lemma DecodeEncode(b: Bytes)
    ensures Decode(Encode(b)) == Some(b)
  {
    EncodeAlphabet(b);
    var e := Encode(b);
    forall i | 0 <= i < |e| ensures e[i] != 10 && e[i] != 13 {
      assert IsSymbol(e[i]) || e[i] == Pad;
    }
    StripNewlinesNoop(e);
    DecodeQuantaOfEncode(b);
  }

  /** A decodable text, stripped of line breaks, is a whole number of quanta. */
  lemma {:induction false} DecodeNeedsQuanta(s: Bytes)
    requires DecodeQuanta(s).Some?
    ensures |s| % 4 == 0
    decreases |s|
  {
    if |s| > 4 {
      DecodeNeedsQuanta(s[4..]);
    }
  }
}
