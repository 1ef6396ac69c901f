/** The JSON text of a string (the QuoteJSONString operation of ECMA-262)
    and of the one-field error object `{ error: message }` that `JSON.stringify`
    writes, with readers that recover the message. */
module JsonString {
  import opened Wrappers
  import opened Bytes

  /** The escape for one character: the short escapes for backspace, tab,
      line feed, form feed, carriage return, quotation mark and reverse
      solidus; "\u00xy" in lower-case hexadecimal for the other control
      characters; the character itself otherwise. */
  function EscapeChar(c: char): (s: string)
    ensures 1 <= |s| <= 6
    ensures |s| == 1 <==> (c != '"' && c != '\\' && c as int >= 0x20)
    ensures |s| == 1 ==> s == [c]
    ensures |s| > 1 ==> s[0] == '\\'
  {
    if c == '\U{8}' then "\\b"
    else if c == '\t' then "\\t"
    else if c == '\n' then "\\n"
    else if c == '\U{C}' then "\\f"
    else if c == '\r' then "\\r"
    else if c == '"' then "\\\""
    else if c == '\\' then "\\\\"
    else if c as int < 0x20 then
      ['\\', 'u', '0', '0', HexDigit(c as int / 16, false), HexDigit(c as int % 16, false)]
    else [c]
  }

  function EscapeAll(s: string): (t: string)
    ensures forall i :: 0 <= i < |t| ==> t[i] as int >= 0x20
  {
    if s == [] then [] else EscapeChar(s[0]) + EscapeAll(s[1..])
  }

  /** The JSON string literal for `s`. */
  function Quote(s: string): (t: string)
    ensures |t| >= 2 && t[0] == '"' && t[|t| - 1] == '"'
  {
    "\"" + EscapeAll(s) + "\""
  }

  /** The characters the body of a JSON string literal stands for; None on a
      raw quotation mark, a raw control character or a malformed escape. */
  function Unescape(t: string): Option<string>
    decreases |t|
  {
    if t == [] then Some([])
    else if t[0] == '\\' then
      if |t| < 2 then None
      else if t[1] == 'u' then
        if |t| < 6 then None
        else match (HexValue(t[2]), HexValue(t[3]), HexValue(t[4]), HexValue(t[5]), Unescape(t[6..]))
          case (Some(a), Some(b), Some(c), Some(d), Some(rest)) =>
            var v := ((a * 16 + b) * 16 + c) * 16 + d;
            if 0xD800 <= v < 0xE000 then None else Some([v as char] + rest)
          case _ => None
      else
        var c :=
          if t[1] == 'b' then Some('\U{8}') else if t[1] == 't' then Some('\t')
          else if t[1] == 'n' then Some('\n') else if t[1] == 'f' then Some('\U{C}')
          else if t[1] == 'r' then Some('\r') else if t[1] == '"' then Some('"')
          else if t[1] == '\\' then Some('\\') else if t[1] == '/' then Some('/')
          else None;
        match (c, Unescape(t[2..]))
        case (Some(x), Some(rest)) => Some([x] + rest)
        case _ => None
    else if t[0] == '"' || t[0] as int < 0x20 then None
    else match Unescape(t[1..])
      case Some(rest) => Some([t[0]] + rest)
      case None => None
  }

  /** The string a JSON string literal denotes, if `t` is one. */
  function Unquote(t: string): Option<string> {
    if |t| >= 2 && t[0] == '"' && t[|t| - 1] == '"' then Unescape(t[1..|t| - 1]) else None
  }

  lemma UnescapeEscapeChar(c: char, rest: string)
    ensures Unescape(EscapeChar(c) + rest) ==
      match Unescape(rest) case Some(r) => Some([c] + r) case None => None
  {
    var e := EscapeChar(c);
    if |e| == 1 {
      assert (e + rest)[1..] == rest;
    } else if |e| == 2 {
      assert (e + rest)[2..] == rest;
    } else {
      assert (e + rest)[6..] == rest;
      var v := c as int;
      assert (v / 16) * 16 + v % 16 == v;
    }
  }

  lemma {:induction false} UnescapeEscapeAll(s: string)
    ensures Unescape(EscapeAll(s)) == Some(s)
  {
    if s != [] {
      UnescapeEscapeChar(s[0], EscapeAll(s[1..]));
      UnescapeEscapeAll(s[1..]);
      assert [s[0]] + s[1..] == s;
    }
  }

  /** Reading a quoted string gives back the original text. */
  lemma UnquoteQuote(s: string)
    ensures Unquote(Quote(s)) == Some(s)
  {
    var t := Quote(s);
    assert t[1..|t| - 1] == EscapeAll(s);
    UnescapeEscapeAll(s);
  }

  /** `JSON.stringify({ error: message })`. */
  function ErrorObject(message: string): string {
    "{\"error\":" + Quote(message) + "}"
  }

  /** The message of a serialised error object, if `body` is one. */
  function ErrorMessage(body: string): Option<string> {
    var prefix := "{\"error\":";
    if |body| >= |prefix| + 1 && body[..|prefix|] == prefix && body[|body| - 1] == '}'
    then Unquote(body[|prefix|..|body| - 1])
    else None
  }

  /** The error message is recovered from the body of an error response. */
  lemma ErrorMessageOfObject(message: string)
    ensures ErrorMessage(ErrorObject(message)) == Some(message)
  {
    var body := ErrorObject(message);
    var prefix := "{\"error\":";
    assert body == prefix + Quote(message) + "}";
    assert body[..|prefix|] == prefix;
    assert body[|prefix|..|body| - 1] == Quote(message);
    UnquoteQuote(message);
  }
}
