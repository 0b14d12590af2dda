/** UTF-8 of well-formed text, and cutting it to a byte limit without cutting a character. */
module Utf8 {
  import opened Common

  /** A Unicode scalar value. */
  type Point = p: nat | p < 0x11_0000 && !(0xD800 <= p < 0xE000)

  type Text = seq<Point>

  const BOM: Point := 0xFEFF

  // ---------------------------------------------------------------- characters and points

  function Points(s: string): Text {
    seq(|s|, i requires 0 <= i < |s| => PointOf(s[i]))
  }

  function PointOf(c: char): Point {
    c as int
  }

  function CharOf(p: Point): char {
    p as char
  }

  function Chars(text: Text): string {
    seq(|text|, i requires 0 <= i < |text| => CharOf(text[i]))
  }

  lemma CharsOfPoints(s: string)
    ensures Chars(Points(s)) == s
  {
  }

  // ---------------------------------------------------------------- encoding

  /** Section 3 of RFC 3629. */
  function EncodePoint(p: Point): (bytes: Bytes)
    ensures 1 <= |bytes| <= 4
  {
    if p < 0x80 then [p as byte]
    else if p < 0x800 then [(0xC0 + p / 64) as byte, Trail(p)]
    else if p < 0x1_0000 then [(0xE0 + p / 4096) as byte, Trail(p / 64), Trail(p)]
    else [(0xF0 + p / 26_2144) as byte, Trail(p / 4096), Trail(p / 64), Trail(p)]
  }

  function Trail(p: nat): (b: byte)
    ensures Continues(b) && b as int - 0x80 == p % 64
  {
    (0x80 + p % 64) as byte
  }

  /** The two high bits are 10. */
  predicate Continues(b: byte) {
    0x80 <= b < 0xC0
  }

  function Encode(text: Text): Bytes {
    if text == [] then [] else EncodePoint(text[0]) + Encode(text[1..])
  }

  // ---------------------------------------------------------------- decoding

  datatype Decoded = Decoded(point: Point, size: nat)

  function Low(b: byte): nat {
    b as int % 64
  }

  /** One character from the front; None where a decoder would report malformed input. */
  function DecodePoint(bytes: Bytes): Option<Decoded>
    requires bytes != []
  {
    var a := bytes[0] as int;
    if a < 0x80 then Some(Decoded(a, 1))
    else if 0xC2 <= a < 0xE0 then
      if |bytes| < 2 || !Continues(bytes[1]) then None else Some(Decoded((a - 0xC0) * 64 + Low(bytes[1]), 2))
    else if 0xE0 <= a < 0xF0 then
      if |bytes| < 3 || !Continues(bytes[1]) || !Continues(bytes[2]) then None
      else
        var p := (a - 0xE0) * 4096 + Low(bytes[1]) * 64 + Low(bytes[2]);
        if p < 0x800 || 0xD800 <= p < 0xE000 then None else Some(Decoded(p, 3))
    else if 0xF0 <= a < 0xF5 then
      if |bytes| < 4 || !Continues(bytes[1]) || !Continues(bytes[2]) || !Continues(bytes[3]) then None
      else
        var p := (a - 0xF0) * 26_2144 + Low(bytes[1]) * 4096 + Low(bytes[2]) * 64 + Low(bytes[3]);
        if p < 0x1_0000 || 0x11_0000 <= p then None else Some(Decoded(p, 4))
    else None
  }

  lemma DecodedFits(bytes: Bytes)
    requires bytes != [] && DecodePoint(bytes).Some?
    ensures 1 <= DecodePoint(bytes).value.size <= |bytes|
  {
  }

  function Decode(bytes: Bytes): Option<Text>
    decreases |bytes|
  {
    if bytes == [] then Some([])
    else
      var first := DecodePoint(bytes);
      if first.None? then None
      else
        DecodedFits(bytes);
        var rest := Decode(bytes[first.value.size..]);
        if rest.None? then None else Some([first.value.point] + rest.value)
  }

  /** What TextDecoder returns: a leading byte order mark is not part of the text. */
  function Read(bytes: Bytes): Option<Text> {
    var text := Decode(bytes);
    if text.Some? && text.value != [] && text.value[0] == BOM then Some(text.value[1..]) else text
  }

  lemma TwoSplit(p: nat)
    ensures p == p / 64 * 64 + p % 64
  {
  }

  lemma ThreeSplit(p: nat)
    ensures p == p / 4096 * 4096 + p / 64 % 64 * 64 + p % 64
  {
    assert p / 64 / 64 == p / 4096;
  }

  lemma FourSplit(p: nat)
    ensures p == p / 26_2144 * 26_2144 + p / 4096 % 64 * 4096 + p / 64 % 64 * 64 + p % 64
  {
    ThreeSplit(p);
    assert p / 4096 / 64 == p / 26_2144;
  }

  lemma ThreeRoundTrip(p: Point, rest: Bytes)
    requires 0x800 <= p < 0x1_0000
    ensures DecodePoint(EncodePoint(p) + rest) == Some(Decoded(p, 3))
  {
    ThreeSplit(p);
    var bytes := EncodePoint(p) + rest;
    assert bytes[0] as int == 0xE0 + p / 4096 && Low(bytes[1]) == p / 64 % 64 && Low(bytes[2]) == p % 64;
  }

  lemma FourRoundTrip(p: Point, rest: Bytes)
    requires 0x1_0000 <= p
    ensures DecodePoint(EncodePoint(p) + rest) == Some(Decoded(p, 4))
  {
    FourSplit(p);
    var bytes := EncodePoint(p) + rest;
    assert bytes[0] as int == 0xF0 + p / 26_2144 && Low(bytes[1]) == p / 4096 % 64;
    assert Low(bytes[2]) == p / 64 % 64 && Low(bytes[3]) == p % 64;
  }

  lemma PointRoundTrip(p: Point, rest: Bytes)
    ensures DecodePoint(EncodePoint(p) + rest) == Some(Decoded(p, |EncodePoint(p)|))
  {
    if 0x800 <= p < 0x1_0000 {
      ThreeRoundTrip(p, rest);
    } else if 0x1_0000 <= p {
      FourRoundTrip(p, rest);
    }
  }

  lemma {:induction false} RoundTrip(text: Text)
    ensures Decode(Encode(text)) == Some(text)
  {
    if text != [] {
      var bytes := Encode(text);
      PointRoundTrip(text[0], Encode(text[1..]));
      assert bytes[|EncodePoint(text[0])|..] == Encode(text[1..]);
      RoundTrip(text[1..]);
      assert text == [text[0]] + text[1..];
    }
  }

  lemma {:induction false} EncodeJoins(a: Text, b: Text)
    ensures Encode(a + b) == Encode(a) + Encode(b)
  {
    if a == [] {
      assert a + b == b;
    } else {
      assert (a + b)[1..] == a[1..] + b;
      EncodeJoins(a[1..], b);
    }
  }

  // ---------------------------------------------------------------- cutting at a limit

  /** A byte outside the buffer reads as zero. */
  predicate Starts(bytes: Bytes, index: int) {
    index <= 0 || index >= |bytes| || !Continues(bytes[index])
  }

  /** The first of the four probes that is not inside a character; none found counts as zero. */
  function Back(bytes: Bytes, limit: nat, offset: nat): nat
    decreases 4 - offset
  {
    if offset > 3 then 0
    else if Starts(bytes, limit - offset) then offset
    else Back(bytes, limit, offset + 1)
  }

  function CharacterBoundary(bytes: Bytes, limit: nat): int {
    limit - Back(bytes, limit, 0)
  }

  /** How many whole characters fit in that many bytes. */
  function Fitting(text: Text, limit: nat): (k: nat)
    ensures k <= |text|
  {
    if text == [] || |EncodePoint(text[0])| > limit then 0
    else 1 + Fitting(text[1..], limit - |EncodePoint(text[0])|)
  }

  /** That many fit, and one more would not. */
  lemma {:induction false} FittingIsMost(text: Text, limit: nat, k: nat)
    requires k <= |text|
    ensures |Encode(text[..k])| <= limit <==> k <= Fitting(text, limit)
  {
    if k > 0 {
      assert text[..k][1..] == text[1..][..k - 1];
      if |EncodePoint(text[0])| <= limit {
        FittingIsMost(text[1..], limit - |EncodePoint(text[0])|, k - 1);
      }
    }
  }

  lemma HeadStarts(p: Point)
    ensures !Continues(EncodePoint(p)[0])
    ensures forall i :: 0 < i < |EncodePoint(p)| ==> Continues(EncodePoint(p)[i])
  {
  }

  /** The place is where a character starts, and the limit lies before the next one starts. */
  ghost predicate LastStartAt(bytes: Bytes, at: nat, limit: nat) {
    && at <= limit < |bytes| && limit - at < 4 && !Continues(bytes[at])
    && forall i :: at < i <= limit ==> Continues(bytes[i])
  }

  lemma LastStartShifts(first: Bytes, rest: Bytes, at: nat, limit: nat)
    requires LastStartAt(rest, at, limit)
    ensures LastStartAt(first + rest, |first| + at, |first| + limit)
  {
    forall i | |first| + at < i <= |first| + limit
      ensures Continues((first + rest)[i])
    {
      assert (first + rest)[i] == rest[i - |first|];
    }
  }

  lemma EncodeFront(text: Text, k: nat)
    requires k < |text|
    ensures Encode(text[..k + 1]) == EncodePoint(text[0]) + Encode(text[1..][..k])
    ensures text[..0] == []
  {
    assert text[..k + 1][1..] == text[1..][..k];
  }

  /** Up to the limit, the last character start is where the fitting characters end. */
  lemma {:induction false} LastStart(text: Text, limit: nat)
    requires limit < |Encode(text)|
    ensures Fitting(text, limit) < |text|
    ensures LastStartAt(Encode(text), |Encode(text[..Fitting(text, limit)])|, limit)
  {
    var first := EncodePoint(text[0]);
    if |first| <= limit {
      var k := Fitting(text[1..], limit - |first|);
      LastStart(text[1..], limit - |first|);
      LastStartShifts(first, Encode(text[1..]), |Encode(text[1..][..k])|, limit - |first|);
      EncodeFront(text, k);
    } else {
      HeadStarts(text[0]);
      EncodeFront(text, 0);
      assert LastStartAt(Encode(text), 0, limit);
    }
  }

  /** On well-formed input one of the four probes is a boundary: the last one within the limit. */
  lemma BoundaryFound(text: Text, limit: nat)
    requires limit < |Encode(text)|
    ensures CharacterBoundary(Encode(text), limit) == |Encode(text[..Fitting(text, limit)])|
    ensures limit - CharacterBoundary(Encode(text), limit) < 4
    ensures Starts(Encode(text), CharacterBoundary(Encode(text), limit))
  {
    LastStart(text, limit);
    var bytes, at := Encode(text), |Encode(text[..Fitting(text, limit)])|;
    BackFinds(bytes, limit, at, 0);
  }

  lemma {:induction false} BackFinds(bytes: Bytes, limit: nat, at: nat, offset: nat)
    requires at + offset <= limit < |bytes| && limit - at < 4 && !Continues(bytes[at])
    requires forall i :: at < i <= limit ==> Continues(bytes[i])
    ensures Back(bytes, limit, offset) == limit - at
    decreases limit - offset
  {
    if at + offset < limit {
      BackFinds(bytes, limit, at, offset + 1);
    }
  }

  /** None where the source would put replacement characters. */
  function TruncateUtf8(text: Text, maxBytes: nat): Option<Text> {
    var bytes := Encode(text);
    if |bytes| <= maxBytes then Some(text)
    else
      var cut := CharacterBoundary(bytes, maxBytes);
      if cut < 0 || cut > |bytes| then None else Read(bytes[..cut])
  }

  /** The longest prefix of whole characters within the limit, less a byte order mark when it was cut. */
  lemma TruncatesToLongestPrefix(text: Text, maxBytes: nat)
    ensures var prefix := text[..Fitting(text, maxBytes)];
      TruncateUtf8(text, maxBytes) == Some(
        if prefix != text && prefix != [] && prefix[0] == BOM then prefix[1..] else prefix)
  {
    FittingIsMost(text, maxBytes, |text|);
    assert text[..|text|] == text;
    if |Encode(text)| > maxBytes {
      BoundaryFound(text, maxBytes);
      var prefix := text[..Fitting(text, maxBytes)];
      EncodeJoins(prefix, text[|prefix|..]);
      assert text == prefix + text[|prefix|..];
      assert Encode(text)[..|Encode(prefix)|] == Encode(prefix);
      RoundTrip(prefix);
    }
  }

  /** The result is the longest prefix exactly unless a marked text is over the limit and the mark alone is not. */
  lemma TruncationExact(text: Text, maxBytes: nat)
    ensures TruncateUtf8(text, maxBytes) == Some(text[..Fitting(text, maxBytes)])
       <==> !(|Encode(text)| > maxBytes >= 3 && text[0] == BOM)
  {
    TruncatesToLongestPrefix(text, maxBytes);
    FittingIsMost(text, maxBytes, |text|);
    assert text[..|text|] == text;
  }
}
