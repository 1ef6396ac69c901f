/** `encodeURIComponent` of ECMA-262 (its Encode abstract operation with no
    extra unescaped characters): every character outside A-Z a-z 0-9
    and - _ . ! ~ * ' ( ) is replaced by its UTF-8 bytes, each written as '%'
    and two upper-case hexadecimal digits. A partner reader recovers the text. */
module UriComponent {
  import opened Wrappers
  import opened Bytes
  import Utf8

  /** The characters `encodeURIComponent` leaves as they are. */
  predicate IsUnreserved(c: char) {
    ('A' <= c <= 'Z') || ('a' <= c <= 'z') || ('0' <= c <= '9') ||
    c == '-' || c == '_' || c == '.' || c == '!' || c == '~' ||
    c == '*' || c == '\'' || c == '(' || c == ')'
  }

  /** One byte as '%' and two upper-case hexadecimal digits. */
  function PercentEscape(b: byte): (s: string)
    ensures |s| == 3 && s[0] == '%' && IsUnreserved(s[1]) && IsUnreserved(s[2])
  {
    ['%', HexDigit(b / 16, true), HexDigit(b % 16, true)]
  }

  function PercentEscapeAll(b: seq<byte>): (s: string)
    ensures forall i :: 0 <= i < |s| ==> IsUnreserved(s[i]) || s[i] == '%'
  {
    if b == [] then [] else PercentEscape(b[0]) + PercentEscapeAll(b[1..])
  }

  function EncodeChar(c: char): string {
    if IsUnreserved(c) then [c] else PercentEscapeAll(Utf8.EncodeChar(c))
  }

  /** The encoded component, character by character as ECMA-262 states it.
      Only unreserved characters and '%' occur in it, so it contains no
      '&', '=', '?', '#', '+' or space. */
  function EncodeURIComponent(s: string): (e: string)
    ensures forall i :: 0 <= i < |e| ==> IsUnreserved(e[i]) || e[i] == '%'
  {
    if s == [] then [] else EncodeChar(s[0]) + EncodeURIComponent(s[1..])
  }

  /** The same encoding stated on bytes: an ASCII byte of an unreserved
      character is written as that character, every other byte escaped. */
  function EscapeByte(x: byte): string {
    if x < 0x80 && IsUnreserved(x as char) then [x as char] else PercentEscape(x)
  }

  function EscapeBytes(b: seq<byte>): string {
    if b == [] then [] else EscapeByte(b[0]) + EscapeBytes(b[1..])
  }

  lemma {:induction false} EscapeBytesAppend(x: seq<byte>, y: seq<byte>)
    ensures EscapeBytes(x + y) == EscapeBytes(x) + EscapeBytes(y)
  {
    if x == [] {
      assert x + y == y;
    } else {
      assert (x + y)[0] == x[0] && (x + y)[1..] == x[1..] + y;
      EscapeBytesAppend(x[1..], y);
    }
  }

  /** Bytes that all lie outside ASCII are escaped one by one. */
  lemma {:induction false} EscapeBytesHigh(b: seq<byte>)
    requires forall i :: 0 <= i < |b| ==> b[i] >= 0x80
    ensures EscapeBytes(b) == PercentEscapeAll(b)
  {
    if b != [] {
      EscapeBytesHigh(b[1..]);
    }
  }

  /** The character-wise definition equals escaping the UTF-8 bytes of the text. */
  lemma {:induction false} EncodeAsBytes(s: string)
    ensures EncodeURIComponent(s) == EscapeBytes(Utf8.Encode(s))
  {
    if s != [] {
      var c := s[0];
      var e := Utf8.EncodeChar(c);
      EscapeBytesAppend(e, Utf8.Encode(s[1..]));
      EncodeAsBytes(s[1..]);
      if c as int < 0x80 {
        assert e == [c as int];
        assert (c as int) as char == c;
        if !IsUnreserved(c) {
          assert PercentEscapeAll(e) == PercentEscape(e[0]) + PercentEscapeAll([]);
        }
      } else {
        EscapeBytesHigh(e);
      }
    }
  }

  /** The bytes behind a percent-encoded text: each "%XY" is the byte with
      hexadecimal digits X and Y, each other ASCII character its own code.
      A '%' without two digits after it, or a character outside ASCII, is
      not accepted. */
  function PercentDecode(s: string): Option<seq<byte>>
    decreases |s|
  {
    if s == [] then Some([])
    else if s[0] == '%' then
      if |s| < 3 then None
      else match (HexValue(s[1]), HexValue(s[2]), PercentDecode(s[3..]))
        case (Some(hi), Some(lo), Some(rest)) => Some([hi * 16 + lo] + rest)
        case _ => None
    else if s[0] as int < 0x80 then
      match PercentDecode(s[1..])
      case Some(rest) => Some([s[0] as int] + rest)
      case None => None
    else None
  }

  lemma {:induction false} PercentDecodeEscapeBytes(b: seq<byte>)
    ensures PercentDecode(EscapeBytes(b)) == Some(b)
  {
    if b != [] {
      var x := b[0];
      var t := EscapeBytes(b[1..]);
      PercentDecodeEscapeBytes(b[1..]);
      if x < 0x80 && IsUnreserved(x as char) {
        assert EscapeBytes(b) == [x as char] + t;
        assert ([x as char] + t)[1..] == t;
      } else {
        var p := PercentEscape(x);
        assert EscapeBytes(b) == p + t;
        assert (p + t)[3..] == t;
        assert (x / 16) * 16 + x % 16 == x;
      }
      assert [x] + b[1..] == b;
    }
  }

  /** The text a percent-encoded component stands for, if any. */
  function DecodeComponent(e: string): Option<string> {
    match PercentDecode(e)
    case Some(b) => Utf8.Decode(b)
    case None => None
  }

  /** Decoding the encoded component gives back the original text, so no two
      texts share an encoding. */
  lemma DecodeEncode(s: string)
    ensures DecodeComponent(EncodeURIComponent(s)) == Some(s)
  {
    EncodeAsBytes(s);
    PercentDecodeEscapeBytes(Utf8.Encode(s));
    Utf8.DecodeEncode(s);
  }

  /** The encoding holds none of the characters that delimit a URL or its
      query, so it can sit inside one query value. */
  lemma EncodeHasNoDelimiters(s: string)
    ensures var e := EncodeURIComponent(s);
      '&' !in e && '=' !in e && '?' !in e && '#' !in e && ' ' !in e
  {
    var e := EncodeURIComponent(s);
    forall i | 0 <= i < |e|
      ensures e[i] != '&' && e[i] != '=' && e[i] != '?' && e[i] != '#' && e[i] != ' '
    {
      NotDelimiter(e[i]);
    }
  }

  lemma NotDelimiter(c: char)
    requires IsUnreserved(c) || c == '%'
    ensures c != '&' && c != '=' && c != '?' && c != '#' && c != ' '
  {
  }

  /** Text made only of unreserved characters is left as it is. */
  lemma {:induction false} EncodeUnreserved(s: string)
    requires forall i :: 0 <= i < |s| ==> IsUnreserved(s[i])
    ensures EncodeURIComponent(s) == s
  {
    if s != [] {
      EncodeUnreserved(s[1..]);
      assert [s[0]] + s[1..] == s;
    }
  }
}
