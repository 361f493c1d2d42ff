/** `DatahubDataContext.encodeUrl`: the whole string is form-urlencoded
    (`URLEncoder.encode(url, "UTF-8")`, the application/x-www-form-urlencoded
    format of section 17.13.4.1 of HTML 4.01), then the escapes of the five
    structural characters `:` `/` `?` `=` `&` are turned back into the
    characters, one literal replaceAll after the other. */
module UrlEncoding {
  import opened Text

  type byte = b: int | 0 <= b < 256

  /** Characters URLEncoder leaves as they are. */
  predicate IsSafe(c: char)
  {
    || 'a' <= c <= 'z' || 'A' <= c <= 'Z' || '0' <= c <= '9'
    || c == '.' || c == '-' || c == '*' || c == '_'
  }

  /** The characters whose escapes encodeUrl restores. */
  predicate IsStructural(c: char)
  {
    c == ':' || c == '/' || c == '?' || c == '=' || c == '&'
  }

  predicate IsUpperHex(c: char)
  {
    '0' <= c <= '9' || 'A' <= c <= 'F'
  }

  /** The characters an encoded URL is made of. */
  predicate InUrlAlphabet(c: char)
  {
    IsSafe(c) || IsStructural(c) || c == '+' || c == '%'
  }

  /** URLEncoder writes hex digits in upper case (section 2.1 of RFC 3986). */
  function HexDigit(d: int): (h: char)
    requires 0 <= d < 16
    ensures IsUpperHex(h) && IsSafe(h)
  {
    if d < 10 then (48 + d) as char else (55 + d) as char
  }

  function HexValue(h: char): (d: int)
    requires IsUpperHex(h)
    ensures 0 <= d < 16
  {
    if h <= '9' then h as int - 48 else h as int - 55
  }

  lemma HexRoundTrip(d: int)
    requires 0 <= d < 16
    ensures HexValue(HexDigit(d)) == d
  {
  }

  /** The UTF-8 encoding of one Unicode scalar value. */
  function Utf8(c: char): (bs: seq<byte>)
    ensures 1 <= |bs| <= 4
    ensures |bs| == 1 <==> c as int < 0x80
    ensures |bs| == 2 <==> 0x80 <= c as int < 0x800
    ensures |bs| == 3 <==> 0x800 <= c as int < 0x1_0000
    ensures |bs| == 4 <==> 0x1_0000 <= c as int
    ensures |bs| == 1 ==> bs[0] == c as int
    ensures |bs| == 2 ==> 0xC0 <= bs[0] < 0xE0
    ensures |bs| == 3 ==> 0xE0 <= bs[0] < 0xF0
    ensures |bs| == 4 ==> 0xF0 <= bs[0] < 0xF8
    ensures forall k :: 0 < k < |bs| ==> 0x80 <= bs[k] < 0xC0
  {
    var n := c as int;
    if n < 0x80 then [n]
    else if n < 0x800 then [0xC0 + n / 0x40, 0x80 + n % 0x40]
    else if n < 0x1_0000 then [0xE0 + n / 0x1000, 0x80 + (n / 0x40) % 0x40, 0x80 + n % 0x40]
    else [0xF0 + n / 0x4_0000, 0x80 + (n / 0x1000) % 0x40, 0x80 + (n / 0x40) % 0x40, 0x80 + n % 0x40]
  }

  /** The code point a well-formed UTF-8 sequence of one to four bytes stands for. */
  function Utf8Value(bs: seq<byte>): int
    requires 1 <= |bs| <= 4
  {
    if |bs| == 1 then bs[0]
    else if |bs| == 2 then (bs[0] as int - 0xC0) * 0x40 + (bs[1] as int - 0x80)
    else if |bs| == 3 then
      (bs[0] as int - 0xE0) * 0x1000 + (bs[1] as int - 0x80) * 0x40 + (bs[2] as int - 0x80)
    else
      (bs[0] as int - 0xF0) * 0x4_0000 + (bs[1] as int - 0x80) * 0x1000
      + (bs[2] as int - 0x80) * 0x40 + (bs[3] as int - 0x80)
  }

  lemma Utf8RoundTrip2(c: char)
    requires 0x80 <= c as int < 0x800
    ensures Utf8Value(Utf8(c)) == c as int
  {
    var n := c as int;
    assert Utf8(c) == [0xC0 + n / 0x40, 0x80 + n % 0x40];
  }

  lemma Utf8RoundTrip3(c: char)
    requires 0x800 <= c as int < 0x1_0000
    ensures Utf8Value(Utf8(c)) == c as int
  {
    var n := c as int;
    var hi, mid, lo := n / 0x1000, (n / 0x40) % 0x40, n % 0x40;
    assert Utf8(c) == [0xE0 + hi, 0x80 + mid, 0x80 + lo];
    assert n == hi * 0x1000 + mid * 0x40 + lo;
  }

  lemma Utf8RoundTrip4(c: char)
    requires 0x1_0000 <= c as int
    ensures Utf8Value(Utf8(c)) == c as int
  {
    var n := c as int;
    var q1 := n / 0x40;
    var q2 := q1 / 0x40;
    assert n == q1 * 0x40 + n % 0x40;
    assert q1 == q2 * 0x40 + q1 % 0x40;
    assert q2 == (q2 / 0x40) * 0x40 + q2 % 0x40;
    assert n / 0x1000 == q2;
    assert n / 0x4_0000 == q2 / 0x40;
    var top, hi, mid, lo := n / 0x4_0000, (n / 0x1000) % 0x40, (n / 0x40) % 0x40, n % 0x40;
    assert Utf8(c) == [0xF0 + top, 0x80 + hi, 0x80 + mid, 0x80 + lo];
  }

  /** Decoding the bytes Utf8 produces gives back the code point. */
  lemma Utf8RoundTrip(c: char)
    ensures Utf8Value(Utf8(c)) == c as int
  {
    var n := c as int;
    if 0x80 <= n < 0x800 {
      Utf8RoundTrip2(c);
    } else if 0x800 <= n < 0x1_0000 {
      Utf8RoundTrip3(c);
    } else if 0x1_0000 <= n {
      Utf8RoundTrip4(c);
    }
  }

  /** The encoded text is a sequence of units: a character written as it is, or a
      percent escape `%XY` of one byte. */
  datatype Unit = Lit(c: char) | Esc(b: byte)

  function RenderUnit(u: Unit): string
  {
    match u
    case Lit(c) => [c]
    case Esc(b) => ['%', HexDigit(b / 16), HexDigit(b % 16)]
  }

  function Render(us: seq<Unit>): string
  {
    if us == [] then [] else RenderUnit(us[0]) + Render(us[1..])
  }

  function Escapes(bs: seq<byte>): (us: seq<Unit>)
    ensures |us| == |bs|
    ensures forall k :: 0 <= k < |bs| ==> us[k] == Esc(bs[k])
  {
    seq(|bs|, k requires 0 <= k < |bs| => Esc(bs[k]))
  }

  /** How URLEncoder writes one character. */
  function CharUnits(c: char): seq<Unit>
  {
    if IsSafe(c) then [Lit(c)]
    else if c == ' ' then [Lit('+')]
    else Escapes(Utf8(c))
  }

  function FormEncodeChar(c: char): string
  {
    Render(CharUnits(c))
  }

  /** `URLEncoder.encode(s, "UTF-8")`. The encoder converts runs of unsafe
      characters to bytes together; UTF-8 encodes each scalar value on its own,
      so this is the same as encoding character by character. */
  function FormEncode(s: string): string
  {
    if s == [] then [] else FormEncodeChar(s[0]) + FormEncode(s[1..])
  }

  /** `encodeUrl` (DatahubDataContext.java:72-85). */
  function EncodeUrl(url: string): string
  {
    var value := FormEncode(url);
    var value := ReplaceAll(value, "%3A", ":");
    var value := ReplaceAll(value, "%2F", "/");
    var value := ReplaceAll(value, "%3F", "?");
    var value := ReplaceAll(value, "%3D", "=");
    ReplaceAll(value, "%26", "&")
  }

  // ----- the reference definition: encode character by character -----

  /** A structural character stays literal, every other one is form-encoded. */
  function UrlChar(c: char): string
  {
    if IsStructural(c) then [c] else FormEncodeChar(c)
  }

  function EncodeUrlCharwise(s: string): string
  {
    if s == [] then [] else UrlChar(s[0]) + EncodeUrlCharwise(s[1..])
  }

  // ----- unit-level view of the five replacements -----

  predicate NoLiteralPercent(us: seq<Unit>)
  {
    forall k :: 0 <= k < |us| ==> us[k] != Lit('%')
  }

  function SubstituteUnit(u: Unit, b: byte, c: char): Unit
  {
    if u == Esc(b) then Lit(c) else u
  }

  /** Every escape of byte `b` becomes the literal `c`. */
  function Substitute(us: seq<Unit>, b: byte, c: char): (r: seq<Unit>)
    ensures |r| == |us|
    ensures forall k :: 0 <= k < |us| ==> r[k] == SubstituteUnit(us[k], b, c)
  {
    seq(|us|, k requires 0 <= k < |us| => SubstituteUnit(us[k], b, c))
  }

  /** The escape of a structural character turned back into it. */
  function Restore(u: Unit): Unit
  {
    match u
    case Lit(_) => u
    case Esc(b) =>
      if b == 0x3A then Lit(':')
      else if b == 0x2F then Lit('/')
      else if b == 0x3F then Lit('?')
      else if b == 0x3D then Lit('=')
      else if b == 0x26 then Lit('&')
      else u
  }

  function RestoreAll(us: seq<Unit>): (r: seq<Unit>)
    ensures |r| == |us|
    ensures forall k :: 0 <= k < |us| ==> r[k] == Restore(us[k])
  {
    seq(|us|, k requires 0 <= k < |us| => Restore(us[k]))
  }

  function FormUnits(s: string): seq<Unit>
  {
    if s == [] then [] else CharUnits(s[0]) + FormUnits(s[1..])
  }

  function UrlUnits(c: char): seq<Unit>
  {
    if IsStructural(c) then [Lit(c)] else CharUnits(c)
  }

  function UrlUnitsOf(s: string): seq<Unit>
  {
    if s == [] then [] else UrlUnits(s[0]) + UrlUnitsOf(s[1..])
  }

  lemma {:induction false} RenderConcat(a: seq<Unit>, b: seq<Unit>)
    ensures Render(a + b) == Render(a) + Render(b)
    decreases |a|
  {
    if a != [] {
      assert (a + b)[0] == a[0];
      assert (a + b)[1..] == a[1..] + b;
      RenderConcat(a[1..], b);
      calc {
        Render(a + b);
        RenderUnit(a[0]) + Render(a[1..] + b);
        RenderUnit(a[0]) + (Render(a[1..]) + Render(b));
        (RenderUnit(a[0]) + Render(a[1..])) + Render(b);
      }
    } else {
      assert a + b == b;
    }
  }

  lemma {:induction false} FormEncodeRendersUnits(s: string)
    ensures FormEncode(s) == Render(FormUnits(s))
    decreases |s|
  {
    if s != [] {
      FormEncodeRendersUnits(s[1..]);
      RenderConcat(CharUnits(s[0]), FormUnits(s[1..]));
    }
  }

  lemma {:induction false} CharwiseRendersUnits(s: string)
    ensures EncodeUrlCharwise(s) == Render(UrlUnitsOf(s))
    decreases |s|
  {
    if s != [] {
      CharwiseRendersUnits(s[1..]);
      RenderConcat(UrlUnits(s[0]), UrlUnitsOf(s[1..]));
    }
  }

  lemma FormUnitsNoLiteralPercent(s: string)
    ensures NoLiteralPercent(FormUnits(s))
    decreases |s|
  {
    if s != [] {
      FormUnitsNoLiteralPercent(s[1..]);
    }
  }

  lemma PercentFreeHead(x: char, t: string, pat: string, rep: string)
    requires |pat| > 0 && pat[0] == '%' && x != '%'
    ensures ReplaceAll([x] + t, pat, rep) == [x] + ReplaceAll(t, pat, rep)
  {
    assert ([x] + t)[1..] == t;
  }

  /** The escape being replaced matches at the front and is replaced. */
  lemma EscapeReplaced(b: byte, rest: string, c: char)
    ensures ReplaceAll(RenderUnit(Esc(b)) + rest, RenderUnit(Esc(b)), [c]) == [c] + ReplaceAll(rest, RenderUnit(Esc(b)), [c])
  {
    var pat := RenderUnit(Esc(b));
    assert pat <= pat + rest;
    assert (pat + rest)[|pat|..] == rest;
  }

  /** Escapes of different bytes are different texts. */
  lemma EscapesDiffer(b: byte, b': byte)
    requires b != b'
    ensures RenderUnit(Esc(b)) != RenderUnit(Esc(b'))
  {
    HexRoundTrip(b / 16); HexRoundTrip(b % 16);
    HexRoundTrip(b' / 16); HexRoundTrip(b' % 16);
  }

  /** Another escape neither matches nor lets a match start inside it. */
  lemma EscapeSkipped(b: byte, b': byte, rest: string, c: char)
    requires b != b'
    ensures ReplaceAll(RenderUnit(Esc(b')) + rest, RenderUnit(Esc(b)), [c])
         == RenderUnit(Esc(b')) + ReplaceAll(rest, RenderUnit(Esc(b)), [c])
  {
    var pat := RenderUnit(Esc(b));
    var h, l := HexDigit(b' / 16), HexDigit(b' % 16);
    EscapesDiffer(b, b');
    var t := ['%', h, l] + rest;
    assert t[..3] == ['%', h, l];
    assert !(pat <= t);
    assert t[1..] == [h] + ([l] + rest);
    PercentFreeHead(h, [l] + rest, pat, [c]);
    PercentFreeHead(l, rest, pat, [c]);
  }

  /** One unit in front of the rest: replacing acts on it alone. */
  lemma UnitReplaced(u: Unit, rest: string, b: byte, c: char)
    requires u != Lit('%')
    ensures ReplaceAll(RenderUnit(u) + rest, RenderUnit(Esc(b)), [c])
         == RenderUnit(SubstituteUnit(u, b, c)) + ReplaceAll(rest, RenderUnit(Esc(b)), [c])
  {
    match u
    case Lit(x) =>
      PercentFreeHead(x, rest, RenderUnit(Esc(b)), [c]);
    case Esc(b') =>
      if b' == b {
        EscapeReplaced(b, rest, c);
      } else {
        EscapeSkipped(b, b', rest, c);
      }
  }

  /** Replacing the literal text of one escape acts unit by unit, because no
      literal unit is a `%` that a match could start at. */
  lemma {:induction false} ReplaceEscape(us: seq<Unit>, b: byte, c: char)
    requires NoLiteralPercent(us)
    ensures ReplaceAll(Render(us), RenderUnit(Esc(b)), [c]) == Render(Substitute(us, b, c))
    decreases |us|
  {
    if us != [] {
      assert NoLiteralPercent(us[1..]) by {
        forall k | 0 <= k < |us[1..]| ensures us[1..][k] != Lit('%') { assert us[1..][k] == us[k + 1]; }
      }
      ReplaceEscape(us[1..], b, c);
      UnitReplaced(us[0], Render(us[1..]), b, c);
      assert Substitute(us, b, c) == [SubstituteUnit(us[0], b, c)] + Substitute(us[1..], b, c);
    }
  }

  lemma SubstitutePercentFree(us: seq<Unit>, b: byte, c: char)
    requires NoLiteralPercent(us) && c != '%'
    ensures NoLiteralPercent(Substitute(us, b, c))
  {
  }

  /** The five substitutions in encodeUrl's order. */
  function SubstituteStructural(us: seq<Unit>): seq<Unit>
  {
    var w1 := Substitute(us, 0x3A, ':');
    var w2 := Substitute(w1, 0x2F, '/');
    var w3 := Substitute(w2, 0x3F, '?');
    var w4 := Substitute(w3, 0x3D, '=');
    Substitute(w4, 0x26, '&')
  }

  lemma StructuralPatterns()
    ensures RenderUnit(Esc(0x3A)) == "%3A"
    ensures RenderUnit(Esc(0x2F)) == "%2F"
    ensures RenderUnit(Esc(0x3F)) == "%3F"
    ensures RenderUnit(Esc(0x3D)) == "%3D"
    ensures RenderUnit(Esc(0x26)) == "%26"
  {
  }

  lemma ReplaceStructural(us: seq<Unit>)
    requires NoLiteralPercent(us)
    ensures
      var value := ReplaceAll(Render(us), "%3A", ":");
      var value := ReplaceAll(value, "%2F", "/");
      var value := ReplaceAll(value, "%3F", "?");
      var value := ReplaceAll(value, "%3D", "=");
      ReplaceAll(value, "%26", "&") == Render(SubstituteStructural(us))
  {
    StructuralPatterns();
    ReplaceEscape(us, 0x3A, ':');
    var w1 := Substitute(us, 0x3A, ':');
    ReplaceEscape(w1, 0x2F, '/');
    var w2 := Substitute(w1, 0x2F, '/');
    ReplaceEscape(w2, 0x3F, '?');
    var w3 := Substitute(w2, 0x3F, '?');
    ReplaceEscape(w3, 0x3D, '=');
    var w4 := Substitute(w3, 0x3D, '=');
    ReplaceEscape(w4, 0x26, '&');
  }

  lemma SubstituteStructuralIsRestore(us: seq<Unit>)
    ensures SubstituteStructural(us) == RestoreAll(us)
  {
    var r := SubstituteStructural(us);
    forall k | 0 <= k < |us|
      ensures r[k] == Restore(us[k])
    {
    }
  }

  lemma EncodeUrlRendersUnits(url: string)
    ensures EncodeUrl(url) == Render(RestoreAll(FormUnits(url)))
  {
    FormEncodeRendersUnits(url);
    FormUnitsNoLiteralPercent(url);
    ReplaceStructural(FormUnits(url));
    SubstituteStructuralIsRestore(FormUnits(url));
  }

  lemma RestoreAllConcat(a: seq<Unit>, b: seq<Unit>)
    ensures RestoreAll(a + b) == RestoreAll(a) + RestoreAll(b)
  {
  }

  /** A character's own escapes contain a structural byte only when the
      character is structural, and the bytes of a structural character are its
      one escape. */
  lemma RestoreCharUnits(c: char)
    ensures RestoreAll(CharUnits(c)) == UrlUnits(c)
  {
    if IsStructural(c) {
      assert CharUnits(c) == [Esc(c as int)];
    } else if !IsSafe(c) && c != ' ' {
      var bs := Utf8(c);
      forall k | 0 <= k < |bs|
        ensures Restore(Esc(bs[k])) == Esc(bs[k])
      {
        if |bs| == 1 {
          assert bs[k] == c as int;
        }
      }
    }
  }

  lemma {:induction false} RestoreFormUnits(s: string)
    ensures RestoreAll(FormUnits(s)) == UrlUnitsOf(s)
    decreases |s|
  {
    if s != [] {
      RestoreAllConcat(CharUnits(s[0]), FormUnits(s[1..]));
      RestoreCharUnits(s[0]);
      RestoreFormUnits(s[1..]);
    }
  }

  // ----- properties of encodeUrl -----

  /** encodeUrl is character-by-character form-urlencoding in which the five
      structural characters are kept literal. */
  lemma EncodeUrlIsCharwise(url: string)
    ensures EncodeUrl(url) == EncodeUrlCharwise(url)
  {
    EncodeUrlRendersUnits(url);
    RestoreFormUnits(url);
    CharwiseRendersUnits(url);
  }

  /** What each character turns into. */
  lemma UrlCharCases(c: char)
    ensures IsSafe(c) || IsStructural(c) ==> UrlChar(c) == [c]
    ensures c == ' ' ==> UrlChar(c) == "+"
    ensures !IsSafe(c) && !IsStructural(c) && c != ' ' ==>
      && |UrlChar(c)| == 3 * |Utf8(c)|
      && forall k :: 0 <= k < |Utf8(c)| ==>
           UrlChar(c)[3 * k..3 * k + 3] == ['%', HexDigit(Utf8(c)[k] / 16), HexDigit(Utf8(c)[k] % 16)]
  {
    if IsSafe(c) && !IsStructural(c) {
      assert UrlChar(c) == Render([Lit(c)]) == [c] + Render([]);
    } else if c == ' ' {
      assert UrlChar(c) == Render([Lit('+')]) == ['+'] + Render([]);
    } else if !IsSafe(c) && !IsStructural(c) {
      EscapesRender(Utf8(c));
    }
  }

  /** The first escape of a rendered byte sequence, split off. */
  lemma EscapesCons(bs: seq<byte>, rest: string)
    requires bs != []
    ensures Render(Escapes(bs)) + rest == RenderUnit(Esc(bs[0])) + (Render(Escapes(bs[1..])) + rest)
  {
    assert Escapes(bs) == [Esc(bs[0])] + Escapes(bs[1..]);
    RenderConcat([Esc(bs[0])], Escapes(bs[1..]));
    assert Render([Esc(bs[0])]) == RenderUnit(Esc(bs[0])) + Render([]);
  }

  lemma SliceBefore<T>(p: seq<T>, q: seq<T>)
    ensures (p + q)[0..|p|] == p
  {
  }

  lemma SliceAfter<T>(p: seq<T>, q: seq<T>, i: nat, j: nat)
    requires |p| <= i <= j <= |p| + |q|
    ensures (p + q)[i..j] == q[i - |p|..j - |p|]
  {
  }

  lemma {:induction false} EscapesLength(bs: seq<byte>)
    ensures |Render(Escapes(bs))| == 3 * |bs|
    decreases |bs|
  {
    if bs != [] {
      EscapesCons(bs, []);
      assert Render(Escapes(bs)) + [] == Render(Escapes(bs));
      assert Render(Escapes(bs[1..])) + [] == Render(Escapes(bs[1..]));
      EscapesLength(bs[1..]);
    }
  }

  lemma {:induction false} EscapeAt(bs: seq<byte>, k: nat)
    requires k < |bs|
    ensures 3 * k + 3 <= |Render(Escapes(bs))|
    ensures Render(Escapes(bs))[3 * k..3 * k + 3] == RenderUnit(Esc(bs[k]))
    decreases k
  {
    var head, tail := RenderUnit(Esc(bs[0])), Render(Escapes(bs[1..]));
    EscapesCons(bs, []);
    assert Render(Escapes(bs)) + [] == Render(Escapes(bs)) && tail + [] == tail;
    EscapesLength(bs[1..]);
    if k == 0 {
      SliceBefore(head, tail);
    } else {
      EscapeAt(bs[1..], k - 1);
      SliceAfter(head, tail, 3 * k, 3 * k + 3);
      assert bs[1..][k - 1] == bs[k];
    }
  }

  lemma EscapesRender(bs: seq<byte>)
    ensures |Render(Escapes(bs))| == 3 * |bs|
    ensures forall k :: 0 <= k < |bs| ==>
      Render(Escapes(bs))[3 * k..3 * k + 3] == ['%', HexDigit(bs[k] / 16), HexDigit(bs[k] % 16)]
  {
    EscapesLength(bs);
    forall k | 0 <= k < |bs|
      ensures Render(Escapes(bs))[3 * k..3 * k + 3] == ['%', HexDigit(bs[k] / 16), HexDigit(bs[k] % 16)]
    {
      EscapeAt(bs, k);
    }
  }

  lemma {:induction false} CharwiseConcat(a: string, b: string)
    ensures EncodeUrlCharwise(a + b) == EncodeUrlCharwise(a) + EncodeUrlCharwise(b)
    decreases |a|
  {
    if a != [] {
      assert (a + b)[0] == a[0];
      assert (a + b)[1..] == a[1..] + b;
      CharwiseConcat(a[1..], b);
      calc {
        EncodeUrlCharwise(a + b);
        UrlChar(a[0]) + EncodeUrlCharwise(a[1..] + b);
        UrlChar(a[0]) + (EncodeUrlCharwise(a[1..]) + EncodeUrlCharwise(b));
        (UrlChar(a[0]) + EncodeUrlCharwise(a[1..])) + EncodeUrlCharwise(b);
      }
    } else {
      assert a + b == b;
    }
  }

  /** Encoding distributes over concatenation. */
  lemma EncodeUrlConcat(a: string, b: string)
    ensures EncodeUrl(a + b) == EncodeUrl(a) + EncodeUrl(b)
  {
    EncodeUrlIsCharwise(a + b);
    EncodeUrlIsCharwise(a);
    EncodeUrlIsCharwise(b);
    CharwiseConcat(a, b);
  }

  /** Text that encodeUrl writes as it is. */
  predicate KeptLiteral(s: string)
  {
    forall k :: 0 <= k < |s| ==> IsSafe(s[k]) || IsStructural(s[k])
  }

  lemma {:induction false} CharwiseFixedPoint(s: string)
    requires KeptLiteral(s)
    ensures EncodeUrlCharwise(s) == s
    decreases |s|
  {
    if s != [] {
      assert KeptLiteral(s[1..]) by {
        forall k | 0 <= k < |s[1..]| ensures IsSafe(s[1..][k]) || IsStructural(s[1..][k]) {
          assert s[1..][k] == s[k + 1];
        }
      }
      CharwiseFixedPoint(s[1..]);
      UrlCharCases(s[0]);
    }
  }

  /** An input made only of safe and structural characters comes back as it is. */
  lemma EncodeUrlFixedPoint(url: string)
    requires KeptLiteral(url)
    ensures EncodeUrl(url) == url
  {
    EncodeUrlIsCharwise(url);
    CharwiseFixedPoint(url);
  }

  lemma Associate(a: string, b: string, c: string, d: string)
    ensures a + b + c + d == a + (b + (c + d))
  {
  }

  lemma CharwiseAround(prefix: string, segment: string, name: string, suffix: string)
    requires KeptLiteral(segment) && KeptLiteral(suffix)
    ensures EncodeUrlCharwise(prefix + (segment + (name + suffix)))
      == EncodeUrlCharwise(prefix) + (segment + (EncodeUrlCharwise(name) + suffix))
  {
    CharwiseConcat(prefix, segment + (name + suffix));
    CharwiseConcat(segment, name + suffix);
    CharwiseConcat(name, suffix);
    CharwiseFixedPoint(segment);
    CharwiseFixedPoint(suffix);
  }

  /** Literal segments around two encoded parts survive: a URI built as
      `prefix + segment + name + suffix` encodes part by part. */
  lemma EncodeUrlAround(prefix: string, segment: string, name: string, suffix: string)
    requires KeptLiteral(segment) && KeptLiteral(suffix)
    ensures EncodeUrl(prefix + segment + name + suffix)
      == EncodeUrl(prefix) + segment + EncodeUrl(name) + suffix
  {
    Associate(prefix, segment, name, suffix);
    Associate(EncodeUrl(prefix), segment, EncodeUrl(name), suffix);
    CharwiseAround(prefix, segment, name, suffix);
    EncodeUrlIsCharwise(prefix + (segment + (name + suffix)));
    EncodeUrlIsCharwise(prefix);
    EncodeUrlIsCharwise(name);
  }

  /** Every `%` in a text starts an escape of two upper-case hex digits. */
  predicate WellEscaped(s: string)
  {
    forall k :: 0 <= k < |s| && s[k] == '%' ==> k + 2 < |s| && IsUpperHex(s[k + 1]) && IsUpperHex(s[k + 2])
  }

  lemma WellEscapedConcat(a: string, b: string)
    requires WellEscaped(a) && WellEscaped(b)
    ensures WellEscaped(a + b)
  {
    var s := a + b;
    forall k | 0 <= k < |s| && s[k] == '%'
      ensures k + 2 < |s| && IsUpperHex(s[k + 1]) && IsUpperHex(s[k + 2])
    {
      if k >= |a| {
        assert b[k - |a|] == '%';
      }
    }
  }

  lemma {:induction false} RenderWellEscaped(us: seq<Unit>)
    requires NoLiteralPercent(us)
    ensures WellEscaped(Render(us))
    decreases |us|
  {
    if us != [] {
      assert NoLiteralPercent(us[1..]) by {
        forall k | 0 <= k < |us[1..]| ensures us[1..][k] != Lit('%') { assert us[1..][k] == us[k + 1]; }
      }
      RenderWellEscaped(us[1..]);
      WellEscapedConcat(RenderUnit(us[0]), Render(us[1..]));
    }
  }

  /** In the output every `%` begins a `%XY` escape with upper-case hex digits. */
  lemma EncodeUrlWellEscaped(url: string)
    ensures WellEscaped(EncodeUrl(url))
  {
    EncodeUrlRendersUnits(url);
    FormUnitsNoLiteralPercent(url);
    RenderWellEscaped(RestoreAll(FormUnits(url)));
  }

  /** The alphabet every encoded character belongs to. */
  predicate InAlphabet(s: string)
  {
    forall k :: 0 <= k < |s| ==> InUrlAlphabet(s[k])
  }

  lemma {:induction false} EscapesInAlphabet(bs: seq<byte>)
    ensures InAlphabet(Render(Escapes(bs)))
    decreases |bs|
  {
    if bs != [] {
      assert Escapes(bs) == [Esc(bs[0])] + Escapes(bs[1..]);
      RenderConcat([Esc(bs[0])], Escapes(bs[1..]));
      EscapesInAlphabet(bs[1..]);
    }
  }

  lemma {:induction false} CharwiseInAlphabet(s: string)
    ensures InAlphabet(EncodeUrlCharwise(s))
    decreases |s|
  {
    if s != [] {
      CharwiseInAlphabet(s[1..]);
      if !IsSafe(s[0]) && !IsStructural(s[0]) && s[0] != ' ' {
        EscapesInAlphabet(Utf8(s[0]));
      }
    }
  }

  /** Nothing but letters, digits, `. - * _`, the structural characters, `+`
      and `%` reaches the output. */
  lemma EncodeUrlAlphabet(url: string)
    ensures InAlphabet(EncodeUrl(url))
  {
    EncodeUrlIsCharwise(url);
    CharwiseInAlphabet(url);
  }

  predicate GrowsWhenEncoded(c: char)
  {
    c == '%' || c == '+'
  }

  lemma {:induction false} CharwiseLength(s: string)
    ensures |EncodeUrlCharwise(s)| >= |s|
    ensures (exists k :: 0 <= k < |s| && GrowsWhenEncoded(s[k])) ==> |EncodeUrlCharwise(s)| > |s|
    decreases |s|
  {
    if s != [] {
      CharwiseLength(s[1..]);
      var c := s[0];
      if !IsSafe(c) && !IsStructural(c) && c != ' ' {
        EscapesRender(Utf8(c));
      }
      if exists k :: 0 <= k < |s| && GrowsWhenEncoded(s[k]) {
        var k :| 0 <= k < |s| && GrowsWhenEncoded(s[k]);
        if k > 0 {
          assert GrowsWhenEncoded(s[1..][k - 1]);
        }
      }
    }
  }

  /** Encoding never shortens a text, and lengthens one holding `%` or `+`. */
  lemma EncodeUrlLength(url: string)
    ensures |EncodeUrl(url)| >= |url|
    ensures (exists k :: 0 <= k < |url| && GrowsWhenEncoded(url[k])) ==> |EncodeUrl(url)| > |url|
  {
    EncodeUrlIsCharwise(url);
    CharwiseLength(url);
  }

  lemma EncodeUrlAt(url: string, k: nat)
    requires k < |url|
    ensures EncodeUrl(url) == EncodeUrl(url[..k]) + UrlChar(url[k]) + EncodeUrl(url[k + 1..])
  {
    var a, c, b := url[..k], url[k], url[k + 1..];
    SplitAt(url, k);
    EncodeUrlIsCharwise(url);
    EncodeUrlIsCharwise(a);
    EncodeUrlIsCharwise(b);
    CharwiseAt(a, c, b);
  }

  lemma CharwiseAt(a: string, c: char, b: string)
    ensures EncodeUrlCharwise(a + ([c] + b)) == EncodeUrlCharwise(a) + UrlChar(c) + EncodeUrlCharwise(b)
  {
    CharwiseSplit(a, c, b);
    CharwiseSingle(c);
    var x, y, z := EncodeUrlCharwise(a), UrlChar(c), EncodeUrlCharwise(b);
    assert x + (y + z) == x + y + z;
  }

  lemma SplitAt<T>(s: seq<T>, k: nat)
    requires k < |s|
    ensures s == s[..k] + ([s[k]] + s[k + 1..])
  {
  }

  lemma CharwiseSplit(a: string, c: char, b: string)
    ensures EncodeUrlCharwise(a + ([c] + b))
         == EncodeUrlCharwise(a) + (EncodeUrlCharwise([c]) + EncodeUrlCharwise(b))
  {
    CharwiseConcat(a, [c] + b);
    CharwiseConcat([c], b);
  }

  lemma CharwiseSingle(c: char)
    ensures EncodeUrlCharwise([c]) == UrlChar(c)
  {
    assert [c][1..] == [];
  }

  /** Applying encodeUrl a second time changes a text that holds a character
      it does not keep: a space has become `+` and every other such character
      has become an escape, and `+` and `%` are escaped again. */
  lemma EncodeUrlNotIdempotent(url: string, k: nat)
    requires k < |url| && !IsSafe(url[k]) && !IsStructural(url[k])
    ensures EncodeUrl(EncodeUrl(url)) != EncodeUrl(url)
  {
    var t := EncodeUrl(url);
    EncodeUrlAt(url, k);
    var j := |EncodeUrl(url[..k])|;
    UrlCharCases(url[k]);
    if url[k] == ' ' {
      assert t[j] == UrlChar(url[k])[0] == '+';
    } else {
      assert UrlChar(url[k])[0] == UrlChar(url[k])[0..3][0] == '%';
      assert t[j] == UrlChar(url[k])[0];
    }
    assert GrowsWhenEncoded(t[j]);
    EncodeUrlLength(t);
  }

  /** encodeUrl is idempotent on exactly the texts it leaves unchanged: those
      made of letters, digits, `. - * _` and the five structural characters. */
  lemma EncodeUrlIdempotentIff(url: string)
    ensures EncodeUrl(EncodeUrl(url)) == EncodeUrl(url) <==> KeptLiteral(url)
  {
    if KeptLiteral(url) {
      EncodeUrlFixedPoint(url);
    } else {
      var k :| 0 <= k < |url| && !IsSafe(url[k]) && !IsStructural(url[k]);
      EncodeUrlNotIdempotent(url, k);
    }
  }

  /** An ASCII character that is neither kept, structural nor a space becomes
      one `%XY` escape of its own code. */
  lemma AsciiEscape(c: char)
    requires c as int < 0x80 && !IsSafe(c) && !IsStructural(c) && c != ' '
    ensures UrlChar(c) == ['%', HexDigit(c as int / 16), HexDigit(c as int % 16)]
  {
    UrlCharCases(c);
    assert UrlChar(c) == UrlChar(c)[0..3];
  }

  lemma EncodeUrlEmpty()
    ensures EncodeUrl([]) == []
  {
    EncodeUrlIsCharwise([]);
  }

  /** A literal `%` is escaped as `%25` and the escape is never restored, so
      an escape already present in the input is escaped once more: `%3A` becomes
      `%253A`, not `:`. */
  lemma PercentEscaped(s: string)
    ensures EncodeUrl(['%'] + s) == "%25" + EncodeUrl(s)
  {
    EncodeUrlCons('%', s);
    AsciiEscape('%');
  }

  /** The first character is encoded on its own, in front of the rest. */
  lemma EncodeUrlCons(c: char, s: string)
    ensures EncodeUrl([c] + s) == UrlChar(c) + EncodeUrl(s)
  {
    EncodeUrlIsCharwise([c] + s);
    EncodeUrlIsCharwise(s);
    assert ([c] + s)[1..] == s;
  }

  lemma EscapedPercentExample(url: string)
    requires url == "%3A"
    ensures EncodeUrl(url) == "%253A"
  {
    var rest := url[1..];
    assert url == ['%'] + rest;
    PercentEscaped(rest);
    EncodeUrlFixedPoint(rest);
  }

  lemma CharwiseInfix(a: string, c: char, b: string)
    requires KeptLiteral(a) && KeptLiteral(b)
    ensures EncodeUrlCharwise(a + ([c] + b)) == a + (UrlChar(c) + b)
  {
    CharwiseSplit(a, c, b);
    CharwiseSingle(c);
    CharwiseFixedPoint(a);
    CharwiseFixedPoint(b);
  }

  /** One character between two literal texts is the only part encoded. */
  lemma EncodeUrlInfix(a: string, c: char, b: string)
    requires KeptLiteral(a) && KeptLiteral(b)
    ensures EncodeUrl(a + [c] + b) == a + UrlChar(c) + b
  {
    assert a + [c] + b == a + ([c] + b);
    CharwiseInfix(a, c, b);
    EncodeUrlIsCharwise(a + ([c] + b));
  }

  /** Even without any structural character encodeUrl is not idempotent: a
      space becomes `+` and, encoded again, `%2B`. */
  lemma SpaceEncodedTwice(a: string, b: string)
    requires KeptLiteral(a) && KeptLiteral(b)
    ensures EncodeUrl(a + " " + b) == a + "+" + b
    ensures EncodeUrl(EncodeUrl(a + " " + b)) == a + "%2B" + b
  {
    SpaceEncoded(a, b);
    PlusEncoded(a, b);
  }

  lemma SpaceEncoded(a: string, b: string)
    requires KeptLiteral(a) && KeptLiteral(b)
    ensures EncodeUrl(a + " " + b) == a + "+" + b
  {
    EncodeUrlInfix(a, ' ', b);
    SpaceIsPlus();
  }

  lemma PlusEncoded(a: string, b: string)
    requires KeptLiteral(a) && KeptLiteral(b)
    ensures EncodeUrl(a + "+" + b) == a + "%2B" + b
  {
    EncodeUrlInfix(a, '+', b);
    AsciiEscape('+');
  }

  lemma SpaceIsPlus()
    ensures UrlChar(' ') == "+"
  {
    assert Render([Lit('+')]) == ['+'] + Render([]);
  }
}
