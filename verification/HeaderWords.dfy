/** Header text outside ASCII travels as encoded words; here is the writer, and the reader of RFC 2047. */
module HeaderWords {
  import opened Common
  import Base64
  import opened Crlf
  import opened HeaderFold
  import opened Text
  import Utf8

  const ENCODED_WORD_BYTES: nat := 30
  const PREFIX: string := "=?UTF-8?B?"
  const SUFFIX: string := "?="

  function Utf8Bytes(s: string): Bytes {
    Utf8.Encode(Utf8.Points(s))
  }

  function ByteLength(s: string): nat {
    |Utf8Bytes(s)|
  }

  lemma BytesJoin(a: string, b: string)
    ensures Utf8Bytes(a + b) == Utf8Bytes(a) + Utf8Bytes(b)
  {
    assert Utf8.Points(a + b) == Utf8.Points(a) + Utf8.Points(b);
    Utf8.EncodeJoins(Utf8.Points(a), Utf8.Points(b));
  }

  // ---------------------------------------------------------------- writing

  predicate IsAscii(s: string) {
    forall i :: 0 <= i < |s| ==> s[i] == '\t' || ' ' <= s[i] <= '~'
  }

  function EncodedWord(s: string): string {
    PREFIX + Base64.Encode(Utf8Bytes(s)) + SUFFIX
  }

  /** The last group takes each further character that keeps it within the limit. */
  function Group(group: string, chars: string): (groups: seq<string>)
    ensures groups != []
    decreases |chars|
  {
    if chars == [] then [group]
    else if ByteLength(group) + ByteLength(chars[..1]) > ENCODED_WORD_BYTES then [group] + Group(chars[..1], chars[1..])
    else Group(group + chars[..1], chars[1..])
  }

  function GroupPoints(s: string): seq<string> {
    if s == [] then [] else Group(s[..1], s[1..])
  }

  function EncodedWords(groups: seq<string>): seq<string> {
    seq(|groups|, i requires 0 <= i < |groups| => EncodedWord(groups[i]))
  }

  function EncodeHeaderText(value: string): string {
    if IsAscii(value) then value else Join(EncodedWords(GroupPoints(value)), FOLD)
  }

  function Concat(parts: seq<string>): string {
    if parts == [] then "" else parts[0] + Concat(parts[1..])
  }

  lemma {:induction false} GroupsKeepText(group: string, chars: string)
    ensures Concat(Group(group, chars)) == group + chars
    decreases |chars|
  {
    if chars == [] {
      assert Concat([group][1..]) == "";
    } else {
      assert chars == chars[..1] + chars[1..];
      if ByteLength(group) + ByteLength(chars[..1]) > ENCODED_WORD_BYTES {
        GroupsKeepText(chars[..1], chars[1..]);
        assert Group(group, chars)[1..] == Group(chars[..1], chars[1..]);
      } else {
        GroupsKeepText(group + chars[..1], chars[1..]);
        assert (group + chars[..1]) + chars[1..] == group + chars;
      }
    }
  }

  lemma OneCharFits(s: string)
    requires s != []
    ensures 1 <= ByteLength(s[..1]) <= 4
  {
    assert Utf8.Points(s[..1]) == [Utf8.PointOf(s[0])];
    assert Utf8.Encode([Utf8.PointOf(s[0])]) == Utf8.EncodePoint(Utf8.PointOf(s[0])) + Utf8.Encode([]);
  }

  lemma {:induction false} GroupsFit(group: string, chars: string)
    requires ByteLength(group) <= ENCODED_WORD_BYTES
    ensures forall g :: g in Group(group, chars) ==> ByteLength(g) <= ENCODED_WORD_BYTES
    decreases |chars|
  {
    if chars != [] {
      OneCharFits(chars);
      if ByteLength(group) + ByteLength(chars[..1]) > ENCODED_WORD_BYTES {
        GroupsFit(chars[..1], chars[1..]);
      } else {
        BytesJoin(group, chars[..1]);
        GroupsFit(group + chars[..1], chars[1..]);
      }
    }
  }

  lemma {:induction false} EncodedBound(bytes: Bytes, groups: nat)
    requires |bytes| <= 3 * groups
    ensures |Base64.Encode(bytes)| <= 4 * groups
  {
    if |bytes| >= 3 {
      EncodedBound(bytes[3..], groups - 1);
    }
  }

  lemma EncodedWordShort(g: string)
    requires ByteLength(g) <= ENCODED_WORD_BYTES
    ensures |EncodedWord(g)| <= 52
  {
    EncodedBound(Utf8Bytes(g), 10);
    EndLengths();
  }

  lemma EndLengths()
    ensures |PREFIX| == 10 && |SUFFIX| == 2
  {
  }

  lemma GroupPointsFit(value: string)
    ensures Concat(GroupPoints(value)) == value
    ensures forall g :: g in GroupPoints(value) ==> ByteLength(g) <= ENCODED_WORD_BYTES
  {
    if value != [] {
      GroupsKeepText(value[..1], value[1..]);
      assert value == value[..1] + value[1..];
      OneCharFits(value);
      GroupsFit(value[..1], value[1..]);
    }
  }

  /** Every encoded word holds whole characters and stays far below the 75 characters of section 2 of RFC 2047. */
  lemma EncodedWordsFit(value: string)
    ensures Concat(GroupPoints(value)) == value
    ensures forall g :: g in GroupPoints(value) ==> |EncodedWord(g)| <= 52
  {
    GroupPointsFit(value);
    forall g | g in GroupPoints(value)
      ensures |EncodedWord(g)| <= 52
    {
      EncodedWordShort(g);
    }
  }

  // ---------------------------------------------------------------- reading

  predicate Blank(c: char) {
    c == ' ' || c == '\t' || c == '\r' || c == '\n'
  }

  predicate UpperIs(s: string, upper: string) {
    |s| == |upper| && forall i :: 0 <= i < |s| ==> UpperChar(s[i]) == upper[i]
  }

  const Q_PREFIX: string := "=?UTF-8?Q?"

  predicate HasForm(word: string, prefix: string) {
    12 <= |word| <= 75 && UpperIs(word[..10], prefix) && word[|word| - 2..] == SUFFIX
  }

  function HexDigit(c: char): (v: Option<nat>)
    ensures v.Some? ==> v.value < 16
  {
    if '0' <= c <= '9' then Some(c as int - '0' as int)
    else if 'A' <= c <= 'F' then Some(c as int - 'A' as int + 10)
    else if 'a' <= c <= 'f' then Some(c as int - 'a' as int + 10)
    else None
  }

  /** Section 4.2 of RFC 2047: an underscore is a space, an equals sign takes two hexadecimal digits. */
  function QBytes(s: string): Option<Bytes> {
    if s == [] then Some([])
    else if s[0] == '=' then
      if |s| < 3 || HexDigit(s[1]).None? || HexDigit(s[2]).None? then None
      else
        var rest := QBytes(s[3..]);
        if rest.None? then None else Some([HexByte(HexDigit(s[1]).value, HexDigit(s[2]).value)] + rest.value)
    else if s[0] == '?' || !('!' <= s[0] <= '~') then None
    else
      var rest := QBytes(s[1..]);
      if rest.None? then None else Some([if s[0] == '_' then 0x20 else s[0] as byte] + rest.value)
  }

  function HexByte(high: nat, low: nat): byte
    requires high < 16 && low < 16
  {
    (high * 16 + low) as byte
  }

  /** How a reader takes a word that is neither of the two UTF-8 forms: other charsets, or forms it is lenient about. */
  type Others = string -> Option<string>

  ghost predicate Shortens(others: Others) {
    forall word :: others(word).Some? ==> |others(word).value| < |word|
  }

  function FromUtf8(bytes: Option<Bytes>): Option<string> {
    if bytes.None? then None
    else
      var text := Utf8.Decode(bytes.value);
      if text.None? then None else Some(Utf8.Chars(text.value))
  }

  /** Section 2 of RFC 2047: both encodings for UTF-8, and whatever else the reader knows; None for a plain word. */
  function DecodeWord(others: Others, word: string): Option<string> {
    if HasForm(word, PREFIX) then FromUtf8(Base64.Decode(word[10..|word| - 2]))
    else if HasForm(word, Q_PREFIX) then FromUtf8(QBytes(word[10..|word| - 2]))
    else others(word)
  }

  function WordLength(s: string): (n: nat)
    ensures n <= |s| && (s != [] && !Blank(s[0]) ==> n > 0)
  {
    if s == [] || Blank(s[0]) then 0 else 1 + WordLength(s[1..])
  }

  /** Section 6.2 of RFC 2047: white space between two encoded words is not shown. */
  function Shown(others: Others, s: string, gap: string, afterEncoded: bool): string
    decreases |s|
  {
    if s == [] then gap
    else if Blank(s[0]) then Shown(others, s[1..], gap + [s[0]], afterEncoded)
    else
      var n := WordLength(s);
      var decoded := DecodeWord(others, s[..n]);
      if decoded.None? then gap + s[..n] + Shown(others, s[n..], "", false)
      else (if afterEncoded then "" else gap) + decoded.value + Shown(others, s[n..], "", true)
  }

  function DecodeText(others: Others, s: string): string {
    Shown(others, s, "", false)
  }

  // ---------------------------------------------------------------- encoded words read back

  ghost predicate Solid(word: string) {
    word != [] && NoBlank(word)
  }

  lemma {:induction false} WordFirst(word: string, rest: string)
    requires (forall i :: 0 <= i < |word| ==> !Blank(word[i])) && (rest == [] || Blank(rest[0]))
    ensures WordLength(word + rest) == |word|
  {
    if word == [] {
      assert word + rest == rest;
    } else {
      assert (word + rest)[1..] == word[1..] + rest;
      WordFirst(word[1..], rest);
    }
  }

  ghost predicate NoBlank(s: string) {
    forall i :: 0 <= i < |s| ==> !Blank(s[i])
  }

  lemma NoBlankEnds()
    ensures NoBlank(PREFIX) && NoBlank(SUFFIX)
  {
    assert PREFIX == ['=', '?', 'U', 'T', 'F', '-', '8', '?', 'B', '?'];
  }

  lemma NoBlankPayload(bytes: Bytes)
    ensures NoBlank(Base64.Encode(bytes))
  {
    Base64.EncodedClean(bytes);
    var s := Base64.Encode(bytes);
    forall i | 0 <= i < |s|
      ensures !Blank(s[i])
    {
      assert !Base64.AsciiSpace(s[i]);
    }
  }

  lemma EncodedWordSolid(s: string)
    ensures Solid(EncodedWord(s))
  {
    NoBlankEnds();
    NoBlankPayload(Utf8Bytes(s));
  }

  lemma Enclosing(prefix: string, payload: string, suffix: string)
    ensures var word := prefix + payload + suffix;
      && word[..|prefix|] == prefix && word[|word| - |suffix|..] == suffix
      && word[|prefix|..|word| - |suffix|] == payload
  {
  }

  lemma PrefixIsUpper()
    ensures UpperIs(PREFIX, PREFIX) && |PREFIX| == 10 && |SUFFIX| == 2
  {
    assert PREFIX == ['=', '?', 'U', 'T', 'F', '-', '8', '?', 'B', '?'];
  }

  lemma EncodedWordDecodes(others: Others, s: string)
    requires |EncodedWord(s)| <= 75
    ensures DecodeWord(others, EncodedWord(s)) == Some(s)
  {
    Enclosing(PREFIX, Base64.Encode(Utf8Bytes(s)), SUFFIX);
    PrefixIsUpper();
    Base64.RoundTrip(Utf8Bytes(s));
    Utf8.RoundTrip(Utf8.Points(s));
    Utf8.CharsOfPoints(s);
  }

  lemma {:induction false} BlanksGather(others: Others, blanks: string, rest: string, gap: string, after: bool)
    requires forall i :: 0 <= i < |blanks| ==> Blank(blanks[i])
    ensures Shown(others, blanks + rest, gap, after) == Shown(others, rest, gap + blanks, after)
    decreases |blanks|
  {
    if blanks == [] {
      assert blanks + rest == rest && gap + blanks == gap;
    } else {
      assert (blanks + rest)[1..] == blanks[1..] + rest;
      BlanksGather(others, blanks[1..], rest, gap + [blanks[0]], after);
      assert gap + [blanks[0]] + blanks[1..] == gap + blanks;
    }
  }

  lemma EncodedShown(others: Others, g: string, rest: string, gap: string, after: bool)
    requires |EncodedWord(g)| <= 75 && (rest == [] || Blank(rest[0])) && (after || gap == "")
    ensures Shown(others, EncodedWord(g) + rest, gap, after) == g + Shown(others, rest, "", true)
  {
    var word := EncodedWord(g);
    EncodedWordSolid(g);
    EncodedWordDecodes(others, g);
    WordFirst(word, rest);
    assert (word + rest)[..|word|] == word && (word + rest)[|word|..] == rest;
    assert "" + g == g;
  }

  lemma WordsStep(groups: seq<string>, sep: string)
    requires groups != []
    ensures |groups| == 1 ==>
      Join(EncodedWords(groups), sep) == EncodedWord(groups[0]) + "" && Concat(groups) == groups[0] + ""
    ensures |groups| > 1 ==>
      Join(EncodedWords(groups), sep) == EncodedWord(groups[0]) + (sep + Join(EncodedWords(groups[1..]), sep))
  {
    var words := EncodedWords(groups);
    assert words[1..] == EncodedWords(groups[1..]) && words[0] == EncodedWord(groups[0]);
    assert Concat([]) == "";
  }

  /** Encoded words with white space between them show as their texts run together. */
  lemma {:induction false} WordsShown(others: Others, groups: seq<string>, sep: string, gap: string, after: bool)
    requires forall g :: g in groups ==> |EncodedWord(g)| <= 75
    requires groups != [] && sep != [] && (forall i :: 0 <= i < |sep| ==> Blank(sep[i])) && (after || gap == "")
    ensures Shown(others, Join(EncodedWords(groups), sep), gap, after) == Concat(groups)
    decreases |groups|
  {
    assert groups[0] in groups;
    WordsStep(groups, sep);
    if |groups| == 1 {
      EncodedShown(others, groups[0], "", gap, after);
    } else {
      var rest := Join(EncodedWords(groups[1..]), sep);
      EncodedShown(others, groups[0], sep + rest, gap, after);
      BlanksGather(others, sep, rest, "", true);
      WordsShown(others, groups[1..], sep, "" + sep, true);
    }
  }

  // ---------------------------------------------------------------- ASCII text

  predicate HasEncodedWord(others: Others, s: string)
    decreases |s|
  {
    s != [] &&
    if Blank(s[0]) then HasEncodedWord(others, s[1..])
    else DecodeWord(others, s[..WordLength(s)]).Some? || HasEncodedWord(others, s[WordLength(s)..])
  }

  lemma {:induction false} QuadsShorter(s: string)
    requires Base64.Alphabetic(s) && Base64.Quads(s).Some?
    ensures |Base64.Quads(s).value| <= |s|
  {
    if |s| >= 4 {
      QuadsShorter(s[4..]);
    }
  }

  lemma {:induction false} WithoutSpaceShorter(s: string)
    ensures |Base64.WithoutSpace(s)| <= |s|
  {
    if s != [] {
      WithoutSpaceShorter(s[1..]);
    }
  }

  lemma {:induction false} Utf8Shorter(bytes: Bytes)
    requires Utf8.Decode(bytes).Some?
    ensures |Utf8.Decode(bytes).value| <= |bytes|
    decreases |bytes|
  {
    if bytes != [] {
      Utf8.DecodedFits(bytes);
      Utf8Shorter(bytes[Utf8.DecodePoint(bytes).value.size..]);
    }
  }

  lemma {:induction false} QShorter(s: string)
    requires QBytes(s).Some?
    ensures |QBytes(s).value| <= |s|
  {
    if s != [] {
      QShorter(if s[0] == '=' then s[3..] else s[1..]);
    }
  }

  lemma FromUtf8Shorter(bytes: Option<Bytes>)
    requires FromUtf8(bytes).Some?
    ensures |FromUtf8(bytes).value| <= |bytes.value|
  {
    Utf8Shorter(bytes.value);
  }

  lemma Base64Shorter(payload: string)
    requires Base64.Decode(payload).Some?
    ensures |Base64.Decode(payload).value| <= |payload|
  {
    WithoutSpaceShorter(payload);
    QuadsShorter(Base64.Unpadded(Base64.WithoutSpace(payload)));
  }

  /** A decoded word is always shorter than what it was written as. */
  lemma DecodedShorter(others: Others, word: string)
    requires Shortens(others) && DecodeWord(others, word).Some?
    ensures |DecodeWord(others, word).value| < |word|
  {
    if HasForm(word, PREFIX) {
      FromUtf8Shorter(Base64.Decode(word[10..|word| - 2]));
      Base64Shorter(word[10..|word| - 2]);
    } else if HasForm(word, Q_PREFIX) {
      FromUtf8Shorter(QBytes(word[10..|word| - 2]));
      QShorter(word[10..|word| - 2]);
    }
  }

  lemma {:induction false} ShownUnchanged(others: Others, s: string, gap: string, after: bool)
    requires !HasEncodedWord(others, s)
    ensures Shown(others, s, gap, after) == gap + s
    decreases |s|
  {
    if s == [] {
      assert gap + s == gap;
    } else if Blank(s[0]) {
      ShownUnchanged(others, s[1..], gap + [s[0]], after);
      assert gap + [s[0]] + s[1..] == gap + s;
    } else {
      ShownUnchanged(others, s[WordLength(s)..], "", false);
      assert "" + s[WordLength(s)..] == s[WordLength(s)..];
    }
  }

  lemma {:induction false} ShownShorter(others: Others, s: string, gap: string, after: bool)
    requires Shortens(others)
    ensures |Shown(others, s, gap, after)| <= |gap| + |s|
    ensures HasEncodedWord(others, s) ==> |Shown(others, s, gap, after)| < |gap| + |s|
    decreases |s|
  {
    if s == [] {
    } else if Blank(s[0]) {
      ShownShorter(others, s[1..], gap + [s[0]], after);
    } else {
      var n := WordLength(s);
      if DecodeWord(others, s[..n]).Some? {
        DecodedShorter(others, s[..n]);
        ShownShorter(others, s[n..], "", true);
      } else {
        ShownShorter(others, s[n..], "", false);
      }
    }
  }

  // ---------------------------------------------------------------- the whole way

  /** Text that is not ASCII is read back; ASCII text is, exactly when the reader decodes none of its words. */
  lemma HeaderTextRoundTrip(others: Others, value: string)
    requires Shortens(others)
    ensures DecodeText(others, EncodeHeaderText(value)) == value <==> !(IsAscii(value) && HasEncodedWord(others, value))
  {
    if IsAscii(value) {
      if HasEncodedWord(others, value) {
        ShownShorter(others, value, "", false);
      } else {
        ShownUnchanged(others, value, "", false);
        assert "" + value == value;
      }
    } else {
      EncodedWordsFit(value);
      WordsShown(others, GroupPoints(value), FOLD, "", false);
    }
  }

  lemma LoneWordShown(others: Others, word: string)
    requires word != [] && NoBlank(word) && DecodeWord(others, word).Some?
    ensures DecodeText(others, word) == DecodeWord(others, word).value
    ensures HasEncodedWord(others, word)
  {
    WordFirst(word, "");
    assert word + "" == word && word[..|word|] == word && word[|word|..] == [];
    var text := DecodeWord(others, word).value;
    assert Shown(others, word[|word|..], "", true) == "";
    assert "" + text + "" == text;
  }

  lemma QOfLetter()
    ensures FromUtf8(QBytes("a")) == Some("a")
  {
    var letter := "a";
    assert letter[0] == 'a' && letter[1..] == [];
    var bytes: Bytes := [97];
    assert QBytes(letter[1..]) == Some([]);
    var first: byte := letter[0] as byte;
    assert [first] + [] == bytes;
    assert QBytes(letter) == Some([first] + QBytes(letter[1..]).value);
    assert bytes[1..] == [] && Utf8.Decode(bytes[1..]) == Some([]);
    assert Utf8.DecodePoint(bytes) == Some(Utf8.Decoded(97, 1));
    var text: Utf8.Text := [97];
    assert Utf8.Decode(bytes) == Some(text);
    assert Utf8.Chars(text) == [Utf8.CharOf(97)];
  }

  lemma QWordDecodes(others: Others, word: string)
    requires |word| == 13 && word[..10] == Q_PREFIX && word[11..] == SUFFIX && word[10] == 'a'
    ensures DecodeWord(others, word) == Some("a") && NoBlank(word)
  {
    assert Q_PREFIX == ['=', '?', 'U', 'T', 'F', '-', '8', '?', 'Q', '?'];
    assert PREFIX == ['=', '?', 'U', 'T', 'F', '-', '8', '?', 'B', '?'];
    assert forall i :: 0 <= i < 10 ==> word[i] == word[..10][i];
    assert UpperChar(word[..10][8]) != PREFIX[8];
    assert word[10..|word| - 2] == "a";
    assert word[11] == word[11..][0] && word[12] == word[11..][1];
    QOfLetter();
  }

  const MISREAD: string := "=?UTF-8?Q?a?="

  lemma MisreadShape()
    ensures |MISREAD| == 13 && MISREAD[..10] == Q_PREFIX && MISREAD[11..] == SUFFIX && MISREAD[10] == 'a'
  {
    assert MISREAD == ['=', '?', 'U', 'T', 'F', '-', '8', '?', 'Q', '?', 'a', '?', '='];
  }

  lemma MisreadAscii()
    ensures IsAscii(MISREAD)
  {
    assert MISREAD == ['=', '?', 'U', 'T', 'F', '-', '8', '?', 'Q', '?', 'a', '?', '='];
  }

  /** A subject of thirteen plain characters that every such reader shows as one. */
  lemma MisreadSubject(others: Others)
    ensures IsAscii(MISREAD) && HasEncodedWord(others, MISREAD)
    ensures EncodeHeaderText(MISREAD) == MISREAD && DecodeText(others, MISREAD) == "a"
  {
    MisreadShape();
    MisreadAscii();
    QWordDecodes(others, MISREAD);
    LoneWordShown(others, MISREAD);
  }

  ghost predicate Plain(s: string) {
    forall i :: 0 <= i < |s| ==> s[i] as int < 0x80
  }

  lemma EncodedWordPlain(g: string)
    ensures Plain(EncodedWord(g))
  {
    var bytes := Utf8Bytes(g);
    Base64.EncodeIsBarePadded(bytes);
    Base64.BareDecodes(bytes);
    var bare := Base64.Bare(bytes);
    forall i | 0 <= i < |bare|
      ensures bare[i] as int < 0x80
    {
      assert Base64.Value(bare[i]).Some?;
    }
    assert Plain(Base64.Padding(|bare|));
    assert Plain(PREFIX) && Plain(SUFFIX) by {
      assert PREFIX == ['=', '?', 'U', 'T', 'F', '-', '8', '?', 'B', '?'];
    }
  }

  /** A short word leaves room for the space of the fold before it. */
  ghost predicate Unfoldable(word: string) {
    OneLine(word) && ' ' !in word && Units(" " + word) <= LINE_LIMIT
  }

  lemma EncodedWordUnfoldable(g: string)
    requires |EncodedWord(g)| <= 52
    ensures Unfoldable(EncodedWord(g))
  {
    var word := EncodedWord(g);
    EncodedWordSolid(g);
    EncodedWordPlain(g);
    PlainUnits(" " + word);
    forall i: nat
      ensures !CrlfAt(word, i)
    {
      assert i + 1 < |word| ==> !Blank(word[i]);
    }
  }

  lemma {:induction false} FoldedWordsSplit(lines: seq<string>)
    requires lines != [] && OneLines(lines) && forall i :: 1 <= i < |lines| ==> Unfoldable(lines[i])
    ensures SplitCrlf(Join(lines, FOLD))[0] == lines[0]
    ensures forall i :: 1 <= i < |SplitCrlf(Join(lines, FOLD))| ==> !Misfolds(SplitCrlf(Join(lines, FOLD))[i])
    decreases |lines|
  {
    if |lines| == 1 {
      assert FirstCrlf(lines[0], 0).None?;
    } else {
      var next := [" " + lines[1]] + lines[2..];
      NextLines(lines, FOLD);
      assert Join(lines, FOLD) == Line(lines[0], Join(next, FOLD));
      LineFirst(lines[0], Join(next, FOLD));
      FoldedWordsSplit(next);
      OneWordSplit(lines[1]);
      assert (" " + lines[1])[1..] == lines[1];
    }
  }

  function NamedLines(name: string, words: seq<string>): (lines: seq<string>)
    requires words != []
  {
    [name + ": " + words[0]] + words[1..]
  }

  lemma NamedLinesReady(name: string, words: seq<string>)
    requires OneLine(name) && words != [] && forall i :: 0 <= i < |words| ==> Unfoldable(words[i])
    ensures OneLines(NamedLines(name, words))
    ensures forall i :: 1 <= i < |NamedLines(name, words)| ==> Unfoldable(NamedLines(name, words)[i])
  {
    NamedOneLine(name, words[0]);
    var lines := NamedLines(name, words);
    forall i | 1 <= i < |lines|
      ensures Unfoldable(lines[i])
    {
      assert lines[i] == words[i];
    }
  }

  /** A name, encoded words folded after it: unfolding puts one space between the words. */
  lemma WordsUnfold(name: string, words: seq<string>)
    requires OneLine(name) && words != [] && forall i :: 0 <= i < |words| ==> Unfoldable(words[i])
    ensures Unfold(FoldHeader(name, Join(words, FOLD))) == name + ": " + Join(words, " ")
  {
    var lines := NamedLines(name, words);
    NamedLinesReady(name, words);
    FoldedWordsSplit(lines);
    UnfoldLastFolds(lines);
    JoinedAfter(name, words, FOLD);
    JoinedAfter(name, words, " ");
    FoldRoundTrip(name, Join(words, FOLD));
  }

  lemma NamedOneLine(name: string, value: string)
    requires OneLine(name) && OneLine(value)
    ensures OneLine(name + ": " + value)
  {
    var line := name + ": " + value;
    forall i: nat
      ensures !CrlfAt(line, i)
    {
      if i < |name| {
        assert CrlfAt(line, i) ==> CrlfAt(name, i);
      } else if i >= |name| + 2 {
        assert CrlfAt(line, i) == CrlfAt(value, i - |name| - 2);
      }
    }
  }

  lemma JoinedAfter(name: string, words: seq<string>, sep: string)
    requires words != []
    ensures Join(NamedLines(name, words), sep) == name + ": " + Join(words, sep)
  {
    var lines := NamedLines(name, words);
    assert lines[1..] == words[1..];
    if |words| > 1 {
      assert name + ": " + words[0] + sep + Join(words[1..], sep)
          == name + ": " + (words[0] + sep + Join(words[1..], sep));
    }
  }

  /** A header field written, folded, unfolded and read: the name, and the text under the same condition. */
  lemma FieldRoundTrip(others: Others, name: string, value: string)
    requires Shortens(others) && OneLine(name)
    ensures var field := Unfold(FoldHeader(name, EncodeHeaderText(value)));
      && name + ": " <= field
      && (DecodeText(others, field[|name| + 2..]) == value <==> !(IsAscii(value) && HasEncodedWord(others, value)))
  {
    HeaderTextRoundTrip(others, value);
    if IsAscii(value) {
      NamedOneLine(name, value);
      assert FirstCrlf(name + ": " + value, 0).None?;
      FoldRoundTrip(name, value);
      UnfoldOneLine(name + ": " + value);
      assert (name + ": " + value)[|name| + 2..] == value;
    } else {
      var groups := GroupPoints(value);
      EncodedWordsFit(value);
      forall i | 0 <= i < |groups|
        ensures Unfoldable(EncodedWords(groups)[i])
      {
        EncodedWordUnfoldable(groups[i]);
      }
      WordsUnfold(name, EncodedWords(groups));
      WordsShown(others, groups, " ", "", false);
      var text := Join(EncodedWords(groups), " ");
      assert (name + ": " + text)[|name| + 2..] == text;
    }
  }
}
