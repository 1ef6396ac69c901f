/** UTF-8 (RFC 3629), the encoding `Buffer.from(string)` and
    `encodeURIComponent` apply to text before they work on bytes. A Dafny
    `char` is a Unicode scalar value, so every string here is well formed. */
module Utf8 {
  import opened Wrappers
  import opened Bytes

  /** Whether `v` is a Unicode scalar value (a code point that is not a surrogate). */
  predicate IsScalar(v: int) {
    0 <= v < 0xD800 || 0xE000 <= v < 0x11_0000
  }

  predicate IsContinuation(b: byte) { 0x80 <= b < 0xC0 }

  /** The number of bytes of the sequence a lead byte starts, or 0 for a byte
      that cannot start one. */
  function SequenceLength(lead: byte): nat {
    if lead < 0x80 then 1
    else if 0xC2 <= lead < 0xE0 then 2
    else if 0xE0 <= lead < 0xF0 then 3
    else if 0xF0 <= lead < 0xF5 then 4
    else 0
  }

  /** The encoding of one scalar value: one to four bytes, the first of which
      announces the length and the rest of which are continuation bytes. */
  function EncodeChar(c: char): (b: seq<byte>)
    ensures 1 <= |b| <= 4 && SequenceLength(b[0]) == |b|
    ensures forall i :: 1 <= i < |b| ==> IsContinuation(b[i])
    ensures |b| == 1 <==> c as int < 0x80
    ensures |b| == 1 ==> b[0] == c as int
    ensures forall i :: 0 <= i < |b| ==> (b[i] < 0x80 <==> c as int < 0x80)
  {
    var v := c as int;
    if v < 0x80 then [v]
    else if v < 0x800 then [0xC0 + v / 64, 0x80 + v % 64]
    else if v < 0x1_0000 then [0xE0 + v / 4096, 0x80 + (v / 64) % 64, 0x80 + v % 64]
    else [0xF0 + v / 262144, 0x80 + (v / 4096) % 64, 0x80 + (v / 64) % 64, 0x80 + v % 64]
  }

  /** The encoding of a string: the encodings of its characters, in order. */
  function Encode(s: string): (b: seq<byte>)
    ensures |b| >= |s|
  {
    if s == [] then [] else EncodeChar(s[0]) + Encode(s[1..])
  }

  /** The least value a sequence of `n` bytes may carry: anything smaller has
      a shorter form, and the longer (overlong) one is not UTF-8. */
  function MinimumValue(n: nat): nat {
    if n <= 1 then 0 else if n == 2 then 0x80 else if n == 3 then 0x800 else 0x1_0000
  }

  /** The scalar value of one complete byte sequence, if it denotes one in its
      shortest form. */
  function DecodeChar(b: seq<byte>): (r: Option<char>)
    requires 1 <= |b| <= 4
  {
    var v: int :=
      if |b| == 1 then b[0]
      else if |b| == 2 then (b[0] as int - 0xC0) * 64 + (b[1] as int % 64)
      else if |b| == 3 then (b[0] as int - 0xE0) * 4096 + (b[1] as int % 64) * 64 + (b[2] as int % 64)
      else (b[0] as int - 0xF0) * 262144 + (b[1] as int % 64) * 4096 + (b[2] as int % 64) * 64 + (b[3] as int % 64);
    if SequenceLength(b[0]) == |b| && (forall i | 1 <= i < |b| :: IsContinuation(b[i])) && IsScalar(v) &&
       v >= MinimumValue(|b|)
    then Some(v as char)
    else None
  }

  /** The string a byte sequence encodes, or None when it is not UTF-8. */
  function Decode(b: seq<byte>): Option<string>
    decreases |b|
  {
    if b == [] then Some([])
    else
      var n := SequenceLength(b[0]);
      if n == 0 || |b| < n then None
      else match (DecodeChar(b[..n]), Decode(b[n..]))
        case (Some(c), Some(rest)) => Some([c] + rest)
        case _ => None
  }

  /** A value below 2^24 is rebuilt from its three 6-bit groups and the rest. */
  lemma SixBitGroups(v: nat)
    ensures (v / 64) * 64 + v % 64 == v
    ensures (v / 4096) * 4096 + ((v / 64) % 64) * 64 + v % 64 == v
    ensures (v / 262144) * 262144 + ((v / 4096) % 64) * 4096 + ((v / 64) % 64) * 64 + v % 64 == v
  {
    var q := v / 64;
    var q2 := q / 64;
    assert v / 4096 == q2;
    assert v / 262144 == q2 / 64;
  }

  lemma DecodeEncodeTwo(c: char)
    requires 0x80 <= c as int < 0x800
    ensures DecodeChar(EncodeChar(c)) == Some(c)
  {
    var v := c as int;
    SixBitGroups(v);
    Payload(v % 64);
    var b := EncodeChar(c);
    assert b == [0xC0 + v / 64, 0x80 + v % 64];
  }

  lemma ThreeByteValue(v: nat)
    ensures (0xE0 + v / 4096 - 0xE0) * 4096 + ((0x80 + (v / 64) % 64) % 64) * 64 + (0x80 + v % 64) % 64 == v
  {
    SixBitGroups(v);
    Payload((v / 64) % 64);
    Payload(v % 64);
  }

  lemma DecodeEncodeThree(c: char)
    requires 0x800 <= c as int < 0x1_0000
    ensures DecodeChar(EncodeChar(c)) == Some(c)
  {
    var v := c as int;
    ThreeByteValue(v);
    var b := EncodeChar(c);
    assert b == [0xE0 + v / 4096, 0x80 + (v / 64) % 64, 0x80 + v % 64];
  }

  /** A continuation byte carries its six payload bits unchanged. */
  lemma Payload(x: nat)
    requires x < 64
    ensures (0x80 + x) % 64 == x
  {
  }

  lemma FourByteValue(v: nat)
    ensures (0xF0 + v / 262144 - 0xF0) * 262144 + ((0x80 + (v / 4096) % 64) % 64) * 4096 +
      ((0x80 + (v / 64) % 64) % 64) * 64 + (0x80 + v % 64) % 64 == v
  {
    SixBitGroups(v);
    Payload((v / 4096) % 64);
    Payload((v / 64) % 64);
    Payload(v % 64);
  }

  lemma DecodeEncodeFour(c: char)
    requires 0x1_0000 <= c as int
    ensures DecodeChar(EncodeChar(c)) == Some(c)
  {
    var v := c as int;
    FourByteValue(v);
    var b := EncodeChar(c);
    assert b == [0xF0 + v / 262144, 0x80 + (v / 4096) % 64, 0x80 + (v / 64) % 64, 0x80 + v % 64];
  }

  /** Each character's bytes decode to that character. */
  lemma DecodeEncodeChar(c: char)
    ensures DecodeChar(EncodeChar(c)) == Some(c)
  {
    var v := c as int;
    if v < 0x80 {
    } else if v < 0x800 {
      DecodeEncodeTwo(c);
    } else if v < 0x1_0000 {
      DecodeEncodeThree(c);
    } else {
      DecodeEncodeFour(c);
    }
  }

  /** Decoding inverts encoding, so two strings with the same encoding are equal. */
  lemma {:induction false} DecodeEncode(s: string)
    ensures Decode(Encode(s)) == Some(s)
  {
    if s != [] {
      var e := EncodeChar(s[0]);
      var b := Encode(s);
      assert b == e + Encode(s[1..]);
      assert b[..|e|] == e;
      assert b[|e|..] == Encode(s[1..]);
      DecodeEncodeChar(s[0]);
      DecodeEncode(s[1..]);
      assert [s[0]] + s[1..] == s;
    }
  }

  lemma EncodeInjective(s: string, t: string)
    requires Encode(s) == Encode(t)
    ensures s == t
  {
    DecodeEncode(s);
    DecodeEncode(t);
  }

  /** Encoding distributes over concatenation. */
  lemma {:induction false} EncodeAppend(s: string, t: string)
    ensures Encode(s + t) == Encode(s) + Encode(t)
  {
    if s != [] {
      assert (s + t)[0] == s[0];
      assert (s + t)[1..] == s[1..] + t;
      EncodeAppend(s[1..], t);
      assert Encode(s + t) == EncodeChar(s[0]) + (Encode(s[1..]) + Encode(t));
    } else {
      assert s + t == t;
    }
  }

  /** An ASCII string encodes as its own character codes. */
  lemma {:induction false} EncodeAscii(s: string)
    requires forall i :: 0 <= i < |s| ==> s[i] as int < 0x80
    ensures |Encode(s)| == |s|
    ensures forall i :: 0 <= i < |s| ==> Encode(s)[i] == s[i] as int
  {
    if s != [] {
      EncodeAscii(s[1..]);
    }
  }
}
