/**
  String tokens (RFC 8259, section 7): decoding as `serde_json::from_slice::<String>` does, encoding as
  `serde_json::to_vec` does, and the escape-tracking scan every lexical pass of the crate uses to find a closing quote.
 */
module JsonString {
  import opened Base

  // ----- UTF-8 -----

  predicate Continuation(b: byte) {
    0x80 <= b < 0xC0
  }

  /** Length of the well-formed UTF-8 sequence that starts `s` (RFC 3629, section 4), 0 when there is none. */
  function Utf8Width(s: bytes): (n: nat)
    ensures n <= |s| && n <= 4
  {
    if s == [] then 0
    else if s[0] < 0x80 then 1
    else if |s| < 2 || !Continuation(s[1]) then 0
    else if 0xC2 <= s[0] < 0xE0 then 2
    else if |s| < 3 || !Continuation(s[2]) then 0
    else if 0xE0 <= s[0] < 0xF0 then
      if (s[0] == 0xE0 && s[1] < 0xA0) || (s[0] == 0xED && s[1] >= 0xA0) then 0 else 3
    else if |s| < 4 || !Continuation(s[3]) || s[0] < 0xF0 || s[0] > 0xF4 then 0
    else if (s[0] == 0xF0 && s[1] < 0x90) || (s[0] == 0xF4 && s[1] >= 0x90) then 0
    else 4
  }

  /** `std::str::from_utf8(s).is_ok()`. */
  predicate Utf8(s: bytes)
    decreases |s|
  {
    s == [] || (Utf8Width(s) > 0 && Utf8(s[Utf8Width(s)..]))
  }

  lemma {:induction false} Utf8Append(a: bytes, b: bytes)
    requires Utf8(a) && Utf8(b)
    ensures Utf8(a + b)
    decreases |a|
  {
    hide Utf8Width;
    if a == [] {
      assert a + b == b;
    } else {
      var n := Utf8Width(a);
      Utf8WidthExtends(a, b);
      Utf8Append(a[n..], b);
      assert (a + b)[n..] == a[n..] + b;
    }
  }

  lemma Utf8WidthExtends(a: bytes, b: bytes)
    requires Utf8Width(a) > 0
    ensures Utf8Width(a + b) == Utf8Width(a)
  {
  }

  lemma Utf8Ascii(b: byte)
    requires b < 0x80
    ensures Utf8([b])
  {
    assert [b][1..] == [];
  }

  lemma {:induction false} AsciiUtf8(t: bytes)
    requires forall i :: 0 <= i < |t| ==> t[i] < 0x80
    ensures Utf8(t)
  {
    if t != [] {
      AsciiUtf8(t[1..]);
    }
  }

  // ----- Decoding -----

  function HexDigit(b: byte): Option<nat> {
    if 0x30 <= b <= 0x39 then Some(b - 0x30)
    else if 0x41 <= b <= 0x46 then Some(b - 0x41 + 10)
    else if 0x61 <= b <= 0x66 then Some(b - 0x61 + 10)
    else None
  }

  /** The code unit of `\uXXXX`, read from the four bytes after the `u`. */
  function Hex4(s: bytes): (r: Option<nat>)
    ensures r.Some? ==> |s| >= 4 && r.value < 0x1_0000
  {
    if |s| < 4 then None
    else
      match (HexDigit(s[0]), HexDigit(s[1]), HexDigit(s[2]), HexDigit(s[3]))
      case (Some(a), Some(b), Some(c), Some(d)) =>
        if a < 16 && b < 16 && c < 16 && d < 16 then Some(((a * 16 + b) * 16 + c) * 16 + d) else None
      case _ => None
  }

  function Utf8Encode(c: nat): bytes
    requires c < 0x11_0000
  {
    if c < 0x80 then [c]
    else if c < 0x800 then [0xC0 + c / 0x40, 0x80 + c % 0x40]
    else if c < 0x1_0000 then [0xE0 + c / 0x1000, 0x80 + c / 0x40 % 0x40, 0x80 + c % 0x40]
    else [0xF0 + c / 0x4_0000, 0x80 + c / 0x1000 % 0x40, 0x80 + c / 0x40 % 0x40, 0x80 + c % 0x40]
  }

  function SimpleEscape(b: byte): Option<byte> {
    if b == 0x22 || b == 0x5C || b == 0x2F then Some(b)
    else if b == 0x62 then Some(0x08)
    else if b == 0x66 then Some(0x0C)
    else if b == 0x6E then Some(0x0A)
    else if b == 0x72 then Some(0x0D)
    else if b == 0x74 then Some(0x09)
    else None
  }

  /** A `\u` escape, `s` starting after the `u`: the code point and the number of bytes it takes; a lone surrogate is an error. */
  function UnicodeEscape(s: bytes): (r: Option<(nat, nat)>)
    ensures r.Some? ==> r.value.0 < 0x11_0000 && (r.value.1 == 4 || r.value.1 == 10) && r.value.1 <= |s|
    ensures r.Some? ==> Hex4(s).Some?
    ensures r.Some? && r.value.1 == 10 ==> s[4] == BACKSLASH && s[5] == 0x75 && Hex4(s[6..]).Some?
  {
    match Hex4(s)
    case None => None
    case Some(u) =>
      if 0xDC00 <= u < 0xE000 then None
      else if 0xD800 <= u < 0xDC00 then
        if |s| < 10 || s[4] != BACKSLASH || s[5] != 0x75 then None
        else
          match Hex4(s[6..])
          case Some(v) =>
            if 0xDC00 <= v < 0xE000 then Some((0x1_0000 + (u - 0xD800) * 0x400 + (v - 0xDC00), 10)) else None
          case None => None
      else Some((u, 4))
  }

  /** The first character of a string body: its decoded bytes and how many bytes it took. */
  function Unit(body: bytes): (r: Option<(bytes, nat)>)
    ensures r.Some? ==> 0 < r.value.1 <= |body|
  {
    if body == [] then None
    else if body[0] == QUOTE || body[0] < 0x20 then None
    else if body[0] != BACKSLASH then Some(([body[0]], 1))
    else if |body| < 2 then None
    else if body[1] != 0x75 then
      match SimpleEscape(body[1])
      case Some(b) => Some(([b], 2))
      case None => None
    else
      match UnicodeEscape(body[2..])
      case Some((c, n)) => Some((Utf8Encode(c), n + 2))
      case None => None
  }

  function Unescape(body: bytes): Option<bytes>
    decreases |body|
  {
    if body == [] then Some([])
    else
      match Unit(body)
      case None => None
      case Some((text, n)) =>
        match Unescape(body[n..])
        case None => None
        case Some(tail) => Some(text + tail)
  }

  /** `serde_json::from_slice::<String>` on a bare token. */
  function DecodeString(token: bytes): (r: Option<bytes>)
    ensures r.Some? ==> |token| >= 2 && token[0] == QUOTE && token[|token| - 1] == QUOTE
  {
    if |token| < 2 || token[0] != QUOTE || token[|token| - 1] != QUOTE then None
    else
      match Unescape(token[1..|token| - 1])
      case None => None
      case Some(text) => if Utf8(text) then Some(text) else None
  }

  lemma {:induction false} UnescapeShorter(body: bytes)
    requires Unescape(body).Some?
    ensures |Unescape(body).value| <= |body|
    decreases |body|
  {
    if body != [] {
      UnescapeShorter(body[Unit(body).value.1..]);
    }
  }

  lemma DecodeShorter(token: bytes)
    requires DecodeString(token).Some?
    ensures |DecodeString(token).value| + 2 <= |token|
  {
    UnescapeShorter(token[1..|token| - 1]);
  }

  lemma DecodedUtf8(token: bytes)
    requires DecodeString(token).Some?
    ensures Utf8(DecodeString(token).value)
  {
  }

  // ----- White space around a token -----

  function TrimWs(s: bytes): (r: bytes)
    ensures |r| <= |s|
  {
    if s == [] then s
    else if JsonWs(s[0]) then TrimWs(s[1..])
    else if JsonWs(s[|s| - 1]) then TrimWs(s[..|s| - 1])
    else s
  }

  /** `serde_json::from_slice::<String>`: one string token, with any white space around it. */
  function ReadString(s: bytes): Option<bytes> {
    DecodeString(TrimWs(s))
  }

  lemma {:induction false} TrimPadded(before: bytes, token: bytes, after: bytes)
    requires AllWs(before) && AllWs(after) && token != [] && !JsonWs(token[0]) && !JsonWs(token[|token| - 1])
    ensures TrimWs(before + token + after) == token
    decreases |before| + |after|
  {
    var s := before + token + after;
    if before != [] {
      assert s[1..] == before[1..] + token + after;
      TrimPadded(before[1..], token, after);
    } else if after != [] {
      assert s[0] == token[0];
      assert s[..|s| - 1] == before + token + after[..|after| - 1];
      TrimPadded(before, token, after[..|after| - 1]);
    } else {
      assert s == token;
    }
  }

  lemma {:induction false} TrimCuts(s: bytes) returns (before: bytes, after: bytes)
    ensures AllWs(before) && AllWs(after) && s == before + TrimWs(s) + after
  {
    before, after := [], [];
    if s == [] {
    } else if JsonWs(s[0]) {
      var rest := s[1..];
      before, after := TrimCuts(rest);
      assert s == [s[0]] + rest;
      assert s == [s[0]] + before + TrimWs(rest) + after;
      before := [s[0]] + before;
    } else if JsonWs(s[|s| - 1]) {
      var rest, last := s[..|s| - 1], s[|s| - 1];
      before, after := TrimCuts(rest);
      assert s == rest + [last];
      assert s == before + TrimWs(rest) + (after + [last]);
      after := after + [last];
    }
  }

  /** `s` is `token` inside white space. */
  ghost predicate Padded(s: bytes, token: bytes) {
    exists before, after :: AllWs(before) && AllWs(after) && s == before + token + after
  }

  /** Bytes are read as a text exactly when they are a token of that text inside white space, and nothing else. */
  lemma ReadStringExactly(s: bytes, text: bytes)
    ensures ReadString(s) == Some(text) <==> exists token :: Padded(s, token) && DecodeString(token) == Some(text)
  {
    hide Unescape, Utf8, TrimWs;
    var before, after := TrimCuts(s);
    assert Padded(s, TrimWs(s));
    if token :| Padded(s, token) && DecodeString(token) == Some(text) {
      var b, a :| AllWs(b) && AllWs(a) && s == b + token + a;
      TrimPadded(b, token, a);
    }
  }

  lemma ReadShorter(s: bytes)
    requires ReadString(s).Some?
    ensures |ReadString(s).value| + 2 <= |s| && Utf8(ReadString(s).value)
  {
    DecodeShorter(TrimWs(s));
    DecodedUtf8(TrimWs(s));
  }

  // ----- Encoding -----

  function HexLower(n: nat): byte
    requires n < 16
  {
    if n < 10 then 0x30 + n else 0x61 + n - 10
  }

  function EscapeByte(b: byte): bytes {
    if b == 0x22 || b == 0x5C then [BACKSLASH, b]
    else if b == 0x08 then [BACKSLASH, 0x62]
    else if b == 0x0C then [BACKSLASH, 0x66]
    else if b == 0x0A then [BACKSLASH, 0x6E]
    else if b == 0x0D then [BACKSLASH, 0x72]
    else if b == 0x09 then [BACKSLASH, 0x74]
    else if b < 0x20 then [BACKSLASH, 0x75, 0x30, 0x30, HexLower(b / 16), HexLower(b % 16)]
    else [b]
  }

  function Escape(text: bytes): bytes {
    if text == [] then [] else EscapeByte(text[0]) + Escape(text[1..])
  }

  /** `serde_json::to_vec` on a `str`. */
  function EncodeString(text: bytes): bytes {
    [QUOTE] + Escape(text) + [QUOTE]
  }

  lemma UnitOfEscape(b: byte, rest: bytes)
    ensures Unit(EscapeByte(b) + rest) == Some(([b], |EscapeByte(b)|))
  {
    var e := EscapeByte(b);
    if |e| == 6 {
      assert (e + rest)[2..] == e[2..] + rest;
      assert Hex4((e + rest)[2..]) == Some(b);
    }
  }

  lemma {:induction false} UnescapeEscape(text: bytes)
    ensures Unescape(Escape(text)) == Some(text)
  {
    if text != [] {
      var e, tail := EscapeByte(text[0]), Escape(text[1..]);
      UnitOfEscape(text[0], tail);
      assert (e + tail)[|e|..] == tail;
      UnescapeEscape(text[1..]);
      assert [text[0]] + text[1..] == text;
    }
  }

  /** What the crate writes into an envelope is read back as the same text. */
  lemma DecodeEncode(text: bytes)
    requires Utf8(text)
    ensures DecodeString(EncodeString(text)) == Some(text)
  {
    UnescapeEscape(text);
    assert EncodeString(text)[1..|EncodeString(text)| - 1] == Escape(text);
  }

  // ----- The closing quote -----

  /** Bytes up to and including the closing quote, for a scan that starts inside the string. */
  function Body(s: bytes, escaped: bool): (r: Option<nat>)
    ensures r.Some? ==> 0 < r.value <= |s| && s[r.value - 1] == QUOTE
  {
    if s == [] then None
    else if !escaped && s[0] == QUOTE then Some(1)
    else
      match Body(s[1..], !escaped && s[0] == BACKSLASH)
      case None => None
      case Some(n) => Some(n + 1)
  }

  predicate Plain(s: bytes) {
    forall i :: 0 <= i < |s| ==> s[i] != QUOTE && s[i] != BACKSLASH
  }

  lemma {:induction false} BodyPlain(a: bytes, s: bytes)
    requires Plain(a)
    ensures Body(a + s, false) == (match Body(s, false) case None => None case Some(n) => Some(n + |a|))
  {
    if a == [] {
      assert a + s == s;
    } else {
      assert (a + s)[1..] == a[1..] + s;
      BodyPlain(a[1..], s);
    }
  }

  lemma HexPlain(s: bytes)
    requires Hex4(s).Some?
    ensures Plain(s[..4])
  {
  }

  /** An escape: the byte after the backslash is passed over. */
  lemma EscapeScan(s: bytes)
    requires |s| >= 2 && s[0] == BACKSLASH
    ensures Body(s, false) == (match Body(s[2..], false) case None => None case Some(m) => Some(m + 2))
  {
    assert s[1..][1..] == s[2..];
  }

  /** One character never hides or fakes the closing quote. */
  lemma UnitKeepsScan(body: bytes, s: bytes)
    requires Unit(body).Some?
    ensures var n := Unit(body).value.1;
            Body(body[..n] + s, false) == (match Body(s, false) case None => None case Some(m) => Some(m + n))
  {
    hide UnicodeEscape, SimpleEscape, Utf8Encode, Body;
    var n := Unit(body).value.1;
    var t := body[..n] + s;
    if n == 1 {
      BodyPlain(body[..1], s);
    } else {
      EscapeScan(t);
      if n == 2 {
        assert t[2..] == s;
      } else {
        UnicodeKeepsScan(body[2..], n - 2, s);
        assert t[2..] == body[2..][..n - 2] + s;
      }
    }
  }

  lemma UnicodeKeepsScan(hex: bytes, n: nat, s: bytes)
    requires UnicodeEscape(hex).Some? && UnicodeEscape(hex).value.1 == n
    ensures Body(hex[..n] + s, false) == (match Body(s, false) case None => None case Some(m) => Some(m + n))
  {
    hide Body;
    HexPlain(hex);
    if n == 4 {
      BodyPlain(hex[..4], s);
    } else {
      var low := hex[6..10];
      HexPlain(hex[6..]);
      assert hex[6..][..4] == low;
      BodyPlain(low, s);
      var mid := [BACKSLASH, 0x75] + (low + s);
      EscapeScan(mid);
      assert mid[2..] == low + s;
      assert hex[..n] + s == hex[..4] + mid;
      BodyPlain(hex[..4], mid);
    }
  }

  lemma {:induction false} UnescapedScan(body: bytes, rest: bytes)
    requires Unescape(body).Some?
    ensures Body(body + [QUOTE] + rest, false) == Some(|body| + 1)
    decreases |body|
  {
    if body == [] {
      assert body + [QUOTE] + rest == [QUOTE] + rest;
    } else {
      var n := Unit(body).value.1;
      UnitKeepsScan(body, body[n..] + [QUOTE] + rest);
      assert body[..n] + (body[n..] + [QUOTE] + rest) == body + [QUOTE] + rest;
      UnescapedScan(body[n..], rest);
    }
  }

  /** The scan that follows an opening quote ends exactly at the end of the token. */
  lemma TokenScan(token: bytes, rest: bytes)
    requires DecodeString(token).Some?
    ensures Body((token + rest)[1..], false) == Some(|token| - 1)
  {
    var body := token[1..|token| - 1];
    assert (token + rest)[1..] == body + [QUOTE] + rest;
    UnescapedScan(body, rest);
  }
}
