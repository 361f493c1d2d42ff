/** The inverse of encodeUrl, as the receiving side reads an encoded URI:
    `+` is a space, `%XY` escapes are bytes grouped into UTF-8 sequences, every
    other character stands for itself. Proving that it undoes encodeUrl shows
    that encodeUrl loses nothing: two different inputs never encode alike. */
module UrlDecoding {
  import opened Outcomes
  import opened UrlEncoding

  /** The byte of the escape at the front of t, if t starts with one. */
  function EscapedByte(t: string): (r: Option<byte>)
    ensures r.Some? ==> 3 <= |t|
  {
    if 3 <= |t| && t[0] == '%' && IsUpperHex(t[1]) && IsUpperHex(t[2])
    then Some(HexValue(t[1]) * 16 + HexValue(t[2]))
    else None
  }

  /** The bytes of n consecutive escapes at the front of t. */
  function EscapedBytes(t: string, n: nat): (r: Option<seq<byte>>)
    ensures r.Some? ==> |r.value| == n && 3 * n <= |t|
    decreases n
  {
    if n == 0 then Some([])
    else
      match EscapedByte(t)
      case None => None
      case Some(b) =>
        match EscapedBytes(t[3..], n - 1)
        case None => None
        case Some(bs) => Some([b] + bs)
  }

  /** The length of the UTF-8 sequence a lead byte opens, 0 for a byte that
      cannot lead one. */
  function SequenceLength(lead: byte): nat
  {
    if lead < 0x80 then 1
    else if 0xC0 <= lead < 0xE0 then 2
    else if 0xE0 <= lead < 0xF0 then 3
    else if 0xF0 <= lead < 0xF8 then 4
    else 0
  }

  predicate IsScalarValue(n: int)
  {
    0 <= n < 0xD800 || 0xE000 <= n < 0x11_0000
  }

  function Prepend(c: char, rest: Option<string>): Option<string>
  {
    match rest
    case None => None
    case Some(s) => Some([c] + s)
  }

  function DecodeUrl(t: string): Option<string>
    decreases |t|
  {
    if t == [] then Some([])
    else if t[0] != '%' then Prepend(if t[0] == '+' then ' ' else t[0], DecodeUrl(t[1..]))
    else
      match EscapedByte(t)
      case None => None
      case Some(lead) =>
        var n := SequenceLength(lead);
        if n == 0 then None
        else
          match EscapedBytes(t, n)
          case None => None
          case Some(bs) =>
            var code := Utf8Value(bs);
            if IsScalarValue(code) then Prepend(code as char, DecodeUrl(t[3 * n..])) else None
  }

  lemma EscapeReads(t: string, b: byte)
    requires 3 <= |t| && t[..3] == RenderUnit(Esc(b))
    ensures EscapedByte(t) == Some(b)
  {
    assert t[0] == '%' && t[1] == HexDigit(b / 16) && t[2] == HexDigit(b % 16) by {
      assert t[..3][0] == t[0] && t[..3][1] == t[1] && t[..3][2] == t[2];
    }
    HexRoundTrip(b / 16);
    HexRoundTrip(b % 16);
  }

  /** Escapes rendered from bytes read back as those bytes. */
  lemma {:induction false} EscapesRead(bs: seq<byte>, rest: string)
    ensures EscapedBytes(Render(Escapes(bs)) + rest, |bs|) == Some(bs)
    decreases |bs|
  {
    if bs != [] {
      var t := Render(Escapes(bs)) + rest;
      var tail := Render(Escapes(bs[1..])) + rest;
      EscapesCons(bs, rest);
      assert t[..3] == RenderUnit(Esc(bs[0])) && t[3..] == tail;
      EscapeReads(t, bs[0]);
      EscapesRead(bs[1..], rest);
      assert [bs[0]] + bs[1..] == bs;
    }
  }

  /** A character's encoding followed by more text decodes to the character
      followed by the decoding of that text. */
  lemma DecodeUrlChar(c: char, rest: string)
    ensures DecodeUrl(UrlChar(c) + rest) == Prepend(c, DecodeUrl(rest))
  {
    var t := UrlChar(c) + rest;
    UrlCharCases(c);
    if IsSafe(c) || IsStructural(c) || c == ' ' {
      assert t[1..] == rest;
    } else {
      var bs := Utf8(c);
      assert UrlChar(c) == Render(Escapes(bs));
      EscapesCons(bs, rest);
      assert t[..3] == RenderUnit(Esc(bs[0]));
      EscapeReads(t, bs[0]);
      EscapesRead(bs, rest);
      assert SequenceLength(bs[0]) == |bs|;
      Utf8RoundTrip(c);
      assert t[3 * |bs|..] == rest;
    }
  }

  /** Decoding recovers the input of encodeUrl. */
  lemma {:induction false} DecodeEncode(url: string)
    ensures DecodeUrl(EncodeUrl(url)) == Some(url)
    decreases |url|
  {
    EncodeUrlIsCharwise(url);
    if url != [] {
      var rest := EncodeUrlCharwise(url[1..]);
      DecodeUrlChar(url[0], rest);
      DecodeEncode(url[1..]);
      EncodeUrlIsCharwise(url[1..]);
      assert EncodeUrlCharwise(url) == UrlChar(url[0]) + rest;
      assert DecodeUrl(rest) == Some(url[1..]);
      assert [url[0]] + url[1..] == url;
    }
  }

  /** Different inputs have different encodings. */
  lemma EncodeUrlInjective(a: string, b: string)
    requires EncodeUrl(a) == EncodeUrl(b)
    ensures a == b
  {
    DecodeEncode(a);
    DecodeEncode(b);
  }
}
