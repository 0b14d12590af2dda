/** Base64 as the platform encodes and forgivingly decodes it, and the URL-safe form built on it. */
module Base64 {
  import opened Common

  // ---------------------------------------------------------------- the alphabet

  /** Table 1 of RFC 4648. */
  function Symbol(i: nat): char
    requires i < 64
  {
    if i < 26 then (i + 'A' as int) as char
    else if i < 52 then (i - 26 + 'a' as int) as char
    else if i < 62 then (i - 52 + '0' as int) as char
    else if i == 62 then '+'
    else '/'
  }

  function Value(c: char): (v: Option<nat>)
    ensures v.Some? ==> v.value < 64
  {
    if 'A' <= c <= 'Z' then Some(c as int - 'A' as int)
    else if 'a' <= c <= 'z' then Some(c as int - 'a' as int + 26)
    else if '0' <= c <= '9' then Some(c as int - '0' as int + 52)
    else if c == '+' then Some(62)
    else if c == '/' then Some(63)
    else None
  }

  // ---------------------------------------------------------------- encoding

  /** Three bytes as four symbols. */
  function Three(a: byte, b: byte, c: byte): string {
    [Symbol(Six1(a)), Symbol(Six2(a, b)), Symbol(Six3(b, c)), Symbol(Six4(c))]
  }

  function Six1(a: byte): (v: nat)
    ensures v < 64
  {
    a as int / 4
  }

  function Six2(a: byte, b: byte): (v: nat)
    ensures v < 64
  {
    a as int % 4 * 16 + b as int / 16
  }

  function Six3(b: byte, c: byte): (v: nat)
    ensures v < 64
  {
    b as int % 16 * 4 + c as int / 64
  }

  function Six4(c: byte): (v: nat)
    ensures v < 64
  {
    c as int % 64
  }

  /** One byte takes two symbols, two take three. */
  function BareTail(bytes: Bytes): string
    requires |bytes| < 3
  {
    if bytes == [] then "" else if |bytes| == 1 then Three(bytes[0], 0, 0)[..2] else Three(bytes[0], bytes[1], 0)[..3]
  }

  /** Groups of three bytes; the last group is padded to four characters. */
  function Encode(bytes: Bytes): string {
    if |bytes| < 3 then BareTail(bytes) + (if bytes == [] then "" else if |bytes| == 1 then "==" else "=")
    else Three(bytes[0], bytes[1], bytes[2]) + Encode(bytes[3..])
  }

  function UrlChar(c: char): char {
    if c == '+' then '-' else if c == '/' then '_' else c
  }

  function PlainChar(c: char): char {
    if c == '-' then '+' else if c == '_' then '/' else c
  }

  function Mapped(f: char -> char, s: string): string {
    seq(|s|, i requires 0 <= i < |s| => f(s[i]))
  }

  function WithoutPadding(s: string): string {
    if s != [] && s[|s| - 1] == '=' then WithoutPadding(s[..|s| - 1]) else s
  }

  function UrlEncode(bytes: Bytes): string {
    WithoutPadding(Mapped(UrlChar, Encode(bytes)))
  }

  // ---------------------------------------------------------------- decoding

  function Byte1(a: nat, b: nat): byte
    requires a < 64 && b < 64
  {
    (a * 4 + b / 16) as byte
  }

  function Byte2(b: nat, c: nat): byte
    requires b < 64 && c < 64
  {
    (b % 16 * 16 + c / 4) as byte
  }

  function Byte3(c: nat, d: nat): byte
    requires c < 64 && d < 64
  {
    (c % 4 * 64 + d) as byte
  }

  predicate Alphabetic(s: string) {
    forall i :: 0 <= i < |s| ==> Value(s[i]).Some?
  }

  function Quad(s: string): Bytes
    requires |s| == 4 && Alphabetic(s)
  {
    var a, b, c, d := Value(s[0]).value, Value(s[1]).value, Value(s[2]).value, Value(s[3]).value;
    [Byte1(a, b), Byte2(b, c), Byte3(c, d)]
  }

  /** Of two or three symbols left over the spare bits are dropped; one alone stands for nothing. */
  function Tail(s: string): Option<Bytes>
    requires |s| < 4 && Alphabetic(s)
  {
    if s == [] then Some([])
    else if |s| == 1 then None
    else
      var a, b := Value(s[0]).value, Value(s[1]).value;
      if |s| == 2 then Some([Byte1(a, b)]) else Some([Byte1(a, b), Byte2(b, Value(s[2]).value)])
  }

  function Quads(s: string): Option<Bytes>
    requires Alphabetic(s)
  {
    if |s| < 4 then Tail(s)
    else
      var rest := Quads(s[4..]);
      if rest.None? then None else Some(Quad(s[..4]) + rest.value)
  }

  function Symbols(s: string): Option<Bytes> {
    if Alphabetic(s) then Quads(s) else None
  }

  predicate AsciiSpace(c: char) {
    c == ' ' || c == '\t' || c == '\n' || c == '\r' || c == '\U{0c}'
  }

  function WithoutSpace(s: string): string {
    if s == [] then [] else (if AsciiSpace(s[0]) then [] else [s[0]]) + WithoutSpace(s[1..])
  }

  /** Of a multiple of four characters, one or two closing equals signs are dropped. */
  function Unpadded(s: string): string {
    if |s| % 4 != 0 || s == [] || s[|s| - 1] != '=' then s
    else if s[|s| - 2] != '=' then s[..|s| - 1]
    else s[..|s| - 2]
  }

  /** The forgiving decoder of the Infra standard. */
  function Decode(text: string): Option<Bytes> {
    Symbols(Unpadded(WithoutSpace(text)))
  }

  function Padding(n: nat): string {
    if n % 4 == 0 then "" else if n % 4 == 3 then "=" else if n % 4 == 2 then "==" else "==="
  }

  function UrlDecode(text: string): Option<Bytes> {
    var plain := Mapped(PlainChar, text);
    Decode(plain + Padding(|plain|))
  }

  // ---------------------------------------------------------------- round trips

  /** The encoding without its padding. */
  function Bare(bytes: Bytes): string {
    if |bytes| < 3 then BareTail(bytes) else Three(bytes[0], bytes[1], bytes[2]) + Bare(bytes[3..])
  }

  lemma ThreeValues(a: byte, b: byte, c: byte)
    ensures var s := Three(a, b, c);
      && Alphabetic(s) && Value(s[0]) == Some(Six1(a)) && Value(s[1]) == Some(Six2(a, b))
      && Value(s[2]) == Some(Six3(b, c)) && Value(s[3]) == Some(Six4(c))
  {
  }

  lemma SixesMakeBytes(a: byte, b: byte, c: byte)
    ensures Byte1(Six1(a), Six2(a, b)) == a
    ensures Byte2(Six2(a, b), Six3(b, c)) == b
    ensures Byte3(Six3(b, c), Six4(c)) == c
  {
  }

  /** The first byte needs two symbols, the first two need three, whatever comes after them. */
  lemma StartDecodes(a: byte, b: byte, c: byte)
    ensures var s := Three(a, b, c);
      && Alphabetic(s[..2]) && Tail(s[..2]) == Some([a])
      && Alphabetic(s[..3]) && Tail(s[..3]) == Some([a, b])
  {
    ThreeValues(a, b, c);
    SixesMakeBytes(a, b, c);
    var s := Three(a, b, c);
    assert s[..2][0] == s[0] && s[..2][1] == s[1];
    assert s[..3][0] == s[0] && s[..3][1] == s[1] && s[..3][2] == s[2];
  }

  lemma TailDecodes(bytes: Bytes)
    requires |bytes| < 3
    ensures Alphabetic(BareTail(bytes)) && Tail(BareTail(bytes)) == Some(bytes)
  {
    if |bytes| == 1 {
      StartDecodes(bytes[0], 0, 0);
      assert bytes == [bytes[0]];
    } else if |bytes| == 2 {
      StartDecodes(bytes[0], bytes[1], 0);
      assert bytes == [bytes[0], bytes[1]];
    }
  }

  lemma ThreeDecodes(a: byte, b: byte, c: byte)
    ensures Alphabetic(Three(a, b, c)) && Quad(Three(a, b, c)) == [a, b, c]
  {
    ThreeValues(a, b, c);
    SixesMakeBytes(a, b, c);
  }

  lemma {:induction false} BareDecodes(bytes: Bytes)
    ensures Alphabetic(Bare(bytes)) && Quads(Bare(bytes)) == Some(bytes)
  {
    if |bytes| < 3 {
      TailDecodes(bytes);
    } else {
      ThreeDecodes(bytes[0], bytes[1], bytes[2]);
      BareDecodes(bytes[3..]);
      var front := Three(bytes[0], bytes[1], bytes[2]);
      assert Bare(bytes)[..4] == front && Bare(bytes)[4..] == Bare(bytes[3..]);
      assert bytes == [bytes[0], bytes[1], bytes[2]] + bytes[3..];
    }
  }

  lemma PaddingAfterQuad(n: nat)
    ensures Padding(n + 4) == Padding(n) && (n + 4) % 4 == n % 4
  {
  }

  lemma {:induction false} EncodeIsBarePadded(bytes: Bytes)
    ensures Encode(bytes) == Bare(bytes) + Padding(|Bare(bytes)|)
    ensures |Bare(bytes)| % 4 != 1
  {
    if |bytes| >= 3 {
      EncodeIsBarePadded(bytes[3..]);
      PaddingAfterQuad(|Bare(bytes[3..])|);
      assert |Bare(bytes)| == |Bare(bytes[3..])| + 4;
    }
  }

  lemma {:induction false} NoSpaceToDrop(s: string)
    requires forall i :: 0 <= i < |s| ==> !AsciiSpace(s[i])
    ensures WithoutSpace(s) == s
  {
    if s != [] {
      NoSpaceToDrop(s[1..]);
    }
  }

  lemma PaddedLength(n: nat)
    requires n % 4 != 1
    ensures (n + |Padding(n)|) % 4 == 0 && |Padding(n)| <= 2
  {
  }

  lemma PaddingDropped(bare: string)
    requires bare == [] || bare[|bare| - 1] != '='
    requires |bare| % 4 != 1
    ensures Unpadded(bare + Padding(|bare|)) == bare
  {
    PaddedLength(|bare|);
    var p := Padding(|bare|);
    assert p == "" || p == "=" || p == "==";
    assert (bare + p)[..|bare|] == bare;
  }

  lemma AlphabeticClean(bare: string)
    requires Alphabetic(bare)
    ensures forall i :: 0 <= i < |bare| ==> !AsciiSpace(bare[i]) && bare[i] != '=' && bare[i] != '-' && bare[i] != '_'
  {
    forall i | 0 <= i < |bare|
      ensures !AsciiSpace(bare[i]) && bare[i] != '=' && bare[i] != '-' && bare[i] != '_'
    {
    }
  }

  /** Padding made for the length is what the decoder takes off again. */
  lemma PaddedDecodes(bare: string)
    requires Alphabetic(bare) && |bare| % 4 != 1
    ensures Decode(bare + Padding(|bare|)) == Quads(bare)
  {
    var s := bare + Padding(|bare|);
    AlphabeticClean(bare);
    NoSpaceToDrop(s);
    PaddingDropped(bare);
  }

  /** Decoding undoes encoding. */
  lemma RoundTrip(bytes: Bytes)
    ensures Decode(Encode(bytes)) == Some(bytes)
  {
    EncodeIsBarePadded(bytes);
    BareDecodes(bytes);
    PaddedDecodes(Bare(bytes));
  }

  lemma {:induction false} PaddingDrops(s: string, n: nat)
    requires s == [] || s[|s| - 1] != '='
    ensures WithoutPadding(s + Padding(n)) == s
  {
    var p := Padding(n);
    assert (s + p)[..|s|] == s;
    if |p| >= 1 {
      assert WithoutPadding((s + p)[..|s| + 1]) == s by {
        assert (s + p)[..|s| + 1][..|s|] == s;
      }
    }
    if |p| >= 2 {
      assert WithoutPadding((s + p)[..|s| + 2]) == s by {
        assert (s + p)[..|s| + 2][..|s| + 1] == (s + p)[..|s| + 1];
      }
    }
    assert (s + p)[..|s| + |p|] == s + p;
    if |p| == 3 {
      assert (s + p)[..|s| + 2] == (s + p)[..|s + p| - 1];
    }
  }

  /** The URL-safe text is the unpadded encoding with two symbols exchanged. */
  lemma UrlEncodeIsBare(bytes: Bytes)
    ensures UrlEncode(bytes) == Mapped(UrlChar, Bare(bytes))
  {
    EncodeIsBarePadded(bytes);
    var bare := Bare(bytes);
    BareDecodes(bytes);
    var url := Mapped(UrlChar, bare);
    assert Mapped(UrlChar, bare + Padding(|bare|)) == url + Padding(|bare|);
    AlphabeticClean(bare);
    assert bare != [] ==> url[|bare| - 1] == UrlChar(bare[|bare| - 1]);
    PaddingDrops(url, |bare|);
  }

  lemma MappedBack(bare: string)
    requires Alphabetic(bare)
    ensures Mapped(PlainChar, Mapped(UrlChar, bare)) == bare
  {
    forall i | 0 <= i < |bare|
      ensures PlainChar(UrlChar(bare[i])) == bare[i]
    {
    }
  }

  /** The URL-safe decoder takes back what the URL-safe encoder wrote. */
  lemma UrlRoundTrip(bytes: Bytes)
    ensures UrlDecode(UrlEncode(bytes)) == Some(bytes)
  {
    UrlEncodeIsBare(bytes);
    EncodeIsBarePadded(bytes);
    var bare := Bare(bytes);
    BareDecodes(bytes);
    MappedBack(bare);
    PaddedDecodes(bare);
  }

  /** It also takes the plain encoding, padding and all. */
  lemma UrlDecodesPlain(bytes: Bytes)
    ensures UrlDecode(Encode(bytes)) == Some(bytes)
  {
    var s := Encode(bytes);
    EncodedClean(bytes);
    assert Mapped(PlainChar, s) == s by {
      assert forall i :: 0 <= i < |s| ==> PlainChar(s[i]) == s[i];
    }
    EncodeIsBarePadded(bytes);
    PaddedLength(|Bare(bytes)|);
    assert |s| % 4 == 0;
    assert s + "" == s;
    RoundTrip(bytes);
  }

  // ---------------------------------------------------------------- lines

  const BASE64_LINE: nat := 76

  /** Cut every 76 characters, joined by CRLF. */
  function Wrapped(s: string): string {
    if |s| <= BASE64_LINE then s else s[..BASE64_LINE] + "\r\n" + Wrapped(s[BASE64_LINE..])
  }

  function Lines(bytes: Bytes): string {
    Wrapped(Encode(bytes))
  }

  lemma {:induction false} WithoutSpaceJoins(a: string, b: string)
    ensures WithoutSpace(a + b) == WithoutSpace(a) + WithoutSpace(b)
  {
    if a == [] {
      assert a + b == b;
    } else {
      assert (a + b)[1..] == a[1..] + b;
      WithoutSpaceJoins(a[1..], b);
    }
  }

  lemma {:induction false} WrappingUndone(s: string)
    requires forall i :: 0 <= i < |s| ==> !AsciiSpace(s[i])
    ensures WithoutSpace(Wrapped(s)) == s
    decreases |s|
  {
    if |s| <= BASE64_LINE {
      NoSpaceToDrop(s);
    } else {
      var head, tail := s[..BASE64_LINE], s[BASE64_LINE..];
      WrappingUndone(tail);
      NoSpaceToDrop(head);
      WithoutSpaceJoins(head + "\r\n", Wrapped(tail));
      WithoutSpaceJoins(head, "\r\n");
      assert WithoutSpace("\r\n") == "" by {
        assert "\r\n"[1..] == "\n";
        assert "\n"[1..] == "";
      }
    }
  }

  lemma EncodedClean(bytes: Bytes)
    ensures forall i :: 0 <= i < |Encode(bytes)| ==>
      !AsciiSpace(Encode(bytes)[i]) && Encode(bytes)[i] != '-' && Encode(bytes)[i] != '_'
  {
    EncodeIsBarePadded(bytes);
    BareDecodes(bytes);
    AlphabeticClean(Bare(bytes));
  }

  /** Section 6.8 of RFC 2045: line breaks are ignored, so the wrapped text decodes to the bytes. */
  lemma LinesRoundTrip(bytes: Bytes)
    ensures Decode(Lines(bytes)) == Some(bytes)
  {
    EncodedClean(bytes);
    WrappingUndone(Encode(bytes));
    NoSpaceToDrop(Encode(bytes));
    RoundTrip(bytes);
  }
}
