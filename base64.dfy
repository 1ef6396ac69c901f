/** Base 64 with the standard alphabet and padding (section 4 of RFC 4648),
    as `Buffer.prototype.toString("base64")` writes it. */
module Base64 {
  import opened Wrappers
  import opened Bytes

  /** The alphabet character for a 6-bit value: A-Z, a-z, 0-9, '+', '/'. */
  function Symbol(v: nat): (c: char)
    requires v < 64
    ensures SymbolValue(c) == Some(v)
  {
    if v < 26 then (65 + v) as char
    else if v < 52 then (97 + v - 26) as char
    else if v < 62 then (48 + v - 52) as char
    else if v == 62 then '+'
    else '/'
  }

  /** The 6-bit value of an alphabet character; '=' and every other character have none. */
  function SymbolValue(c: char): (r: Option<nat>)
    ensures r.Some? ==> r.value < 64
  {
    if 'A' <= c <= 'Z' then Some(c as int - 65)
    else if 'a' <= c <= 'z' then Some(c as int - 97 + 26)
    else if '0' <= c <= '9' then Some(c as int - 48 + 52)
    else if c == '+' then Some(62)
    else if c == '/' then Some(63)
    else None
  }

  predicate IsEncodingChar(c: char) { SymbolValue(c).Some? || c == '=' }

  /** Three bytes as four symbols: the 24 bits cut into 6-bit groups, most significant first. */
  function Quantum(b0: byte, b1: byte, b2: byte): (s: string)
    ensures |s| == 4 && forall i :: 0 <= i < 4 ==> IsEncodingChar(s[i])
  {
    var v1: nat := (b0 % 4) * 16 + b1 / 16;
    var v2: nat := (b1 % 16) * 4 + b2 / 64;
    assert v1 < 64 && v2 < 64;
    [Symbol(b0 / 4), Symbol(v1), Symbol(v2), Symbol(b2 % 64)]
  }

  /** Two final bytes: three symbols, the last with two zero bits, and one '='. */
  function QuantumOfTwo(b0: byte, b1: byte): (s: string)
    ensures |s| == 4 && forall i :: 0 <= i < 4 ==> IsEncodingChar(s[i])
  {
    var v1: nat := (b0 % 4) * 16 + b1 / 16;
    assert v1 < 64 && (b1 % 16) * 4 < 64;
    [Symbol(b0 / 4), Symbol(v1), Symbol((b1 % 16) * 4), '=']
  }

  /** One final byte: two symbols, the last with four zero bits, and "==". */
  function QuantumOfOne(b0: byte): (s: string)
    ensures |s| == 4 && forall i :: 0 <= i < 4 ==> IsEncodingChar(s[i])
  {
    assert (b0 % 4) * 16 < 64;
    [Symbol(b0 / 4), Symbol((b0 % 4) * 16), '=', '=']
  }

  /** The base 64 text of `b`: whole quanta first, then a final one or two
      bytes padded with "=" or "==". */
  function Encode(b: seq<byte>): (s: string)
    ensures |s| == 4 * ((|b| + 2) / 3)
    ensures forall i :: 0 <= i < |s| ==> IsEncodingChar(s[i])
    decreases |b|
  {
    if |b| >= 3 then
      assert (|b| + 2) / 3 == (|b[3..]| + 2) / 3 + 1;
      Quantum(b[0], b[1], b[2]) + Encode(b[3..])
    else if |b| == 2 then QuantumOfTwo(b[0], b[1])
    else if |b| == 1 then QuantumOfOne(b[0])
    else []
  }

  /** The bytes of one four-character group, if it is well formed: padding
      only at the end, and the bits below the last symbol of a padded group
      zero (section 3.5 of RFC 4648). */
  function DecodeGroup(g: string): Option<seq<byte>>
    requires |g| == 4
  {
    match (SymbolValue(g[0]), SymbolValue(g[1]), SymbolValue(g[2]), SymbolValue(g[3]))
    case (Some(v0), Some(v1), Some(v2), Some(v3)) =>
      Some([v0 * 4 + v1 / 16, (v1 % 16) * 16 + v2 / 4, (v2 % 4) * 64 + v3])
    case (Some(v0), Some(v1), Some(v2), None) =>
      if g[3] == '=' && v2 % 4 == 0 then Some([v0 * 4 + v1 / 16, (v1 % 16) * 16 + v2 / 4]) else None
    case (Some(v0), Some(v1), None, None) =>
      if g[2] == '=' && g[3] == '=' && v1 % 16 == 0 then Some([v0 * 4 + v1 / 16]) else None
    case _ => None
  }

  /** The bytes a base 64 text denotes, or None when it is not one. Padding may
      end only the last group. */
  function Decode(s: string): Option<seq<byte>>
    decreases |s|
  {
    if s == [] then Some([])
    else if |s| < 4 then None
    else match (DecodeGroup(s[..4]), Decode(s[4..]))
      case (Some(g), Some(rest)) => if |g| < 3 && rest != [] then None else Some(g + rest)
      case _ => None
  }

  /** Splitting a value into a high and a low part by a constant divisor and
      joining them again are inverse. */
  lemma Join16(hi: nat, lo: nat)
    requires lo < 16
    ensures (hi * 16 + lo) / 16 == hi && (hi * 16 + lo) % 16 == lo
  {
  }

  lemma Join4(hi: nat, lo: nat)
    requires lo < 4
    ensures (hi * 4 + lo) / 4 == hi && (hi * 4 + lo) % 4 == lo
  {
  }

  /** The decoder's arithmetic undoes the encoder's on a whole quantum. */
  lemma QuantumArithmetic(b0: byte, b1: byte, b2: byte)
    ensures var v0, v1, v2, v3 := b0 / 4, (b0 % 4) * 16 + b1 / 16, (b1 % 16) * 4 + b2 / 64, b2 % 64;
      v0 * 4 + v1 / 16 == b0 && (v1 % 16) * 16 + v2 / 4 == b1 && (v2 % 4) * 64 + v3 == b2
  {
    Join16(b0 % 4, b1 / 16);
    Join4(b1 % 16, b2 / 64);
  }

  lemma DecodeQuantum(b0: byte, b1: byte, b2: byte)
    ensures DecodeGroup(Quantum(b0, b1, b2)) == Some([b0, b1, b2])
  {
    var v0, v1, v2, v3 := b0 / 4, (b0 % 4) * 16 + b1 / 16, (b1 % 16) * 4 + b2 / 64, b2 % 64;
    QuantumArithmetic(b0, b1, b2);
    var g := Quantum(b0, b1, b2);
    assert SymbolValue(g[0]) == Some(v0) && SymbolValue(g[1]) == Some(v1);
    assert SymbolValue(g[2]) == Some(v2) && SymbolValue(g[3]) == Some(v3);
  }

  lemma PairArithmetic(b0: byte, b1: byte)
    ensures var v0, v1, v2 := b0 / 4, (b0 % 4) * 16 + b1 / 16, (b1 % 16) * 4;
      v0 * 4 + v1 / 16 == b0 && (v1 % 16) * 16 + v2 / 4 == b1
  {
    Join16(b0 % 4, b1 / 16);
    Join4(b1 % 16, 0);
  }

  lemma DecodePair(b0: byte, b1: byte)
    ensures DecodeGroup(QuantumOfTwo(b0, b1)) == Some([b0, b1])
  {
    var v0, v1, v2 := b0 / 4, (b0 % 4) * 16 + b1 / 16, (b1 % 16) * 4;
    PairArithmetic(b0, b1);
    var g := QuantumOfTwo(b0, b1);
    assert SymbolValue(g[0]) == Some(v0) && SymbolValue(g[1]) == Some(v1);
    assert SymbolValue(g[2]) == Some(v2) && SymbolValue(g[3]) == None && g[3] == '=';
  }

  lemma DecodeSingle(b0: byte)
    ensures DecodeGroup(QuantumOfOne(b0)) == Some([b0])
  {
    Join16(b0 % 4, 0);
    assert (b0 / 4) * 4 + ((b0 % 4) * 16) / 16 == b0;
  }

  /** A text of one well-formed group decodes as that group. */
  lemma DecodeOneGroup(s: string)
    requires |s| == 4 && DecodeGroup(s).Some?
    ensures Decode(s) == DecodeGroup(s)
  {
    assert s[..4] == s && s[4..] == [];
    assert Decode(s[4..]) == Some([]);
    assert DecodeGroup(s).value + [] == DecodeGroup(s).value;
  }

  /** A final group of one or two bytes decodes to those bytes. */
  lemma DecodeLastGroup(b: seq<byte>)
    requires 1 <= |b| <= 2
    ensures Decode(Encode(b)) == Some(b)
  {
    if |b| == 2 {
      DecodePair(b[0], b[1]);
      DecodeOneGroup(QuantumOfTwo(b[0], b[1]));
      assert b == [b[0], b[1]];
    } else {
      DecodeSingle(b[0]);
      DecodeOneGroup(QuantumOfOne(b[0]));
      assert b == [b[0]];
    }
  }

  /** Decoding gives back the encoded bytes. */
  lemma {:induction false} DecodeEncode(b: seq<byte>)
    ensures Decode(Encode(b)) == Some(b)
    decreases |b|
  {
    if |b| >= 3 {
      var s := Encode(b);
      assert s[..4] == Quantum(b[0], b[1], b[2]);
      assert s[4..] == Encode(b[3..]);
      DecodeQuantum(b[0], b[1], b[2]);
      DecodeEncode(b[3..]);
      assert [b[0], b[1], b[2]] + b[3..] == b;
    } else if |b| > 0 {
      DecodeLastGroup(b);
    }
  }
}
