/** STRING_LAU: a length byte that counts itself and the control byte, a character set, and the characters. */
module StringLau {
  import opened Bits
  import opened DataStream
  import opened Wrappers

  const MAX_TEXT_BYTES: nat := 253
  const UTF16: Byte := 0
  const UTF8: Byte := 1

  /** EncodeStringLAU */
  function Encoded(value: Text): Result<seq<Byte>> {
    if |value| > MAX_TEXT_BYTES then Err else Ok([|value| + 2, UTF8] + value)
  }

  method EncodeStringLau(value: Text) returns (result: Result<seq<Byte>>)
    ensures result == Encoded(value)
    ensures result == if |value| > 253 then Err else Ok([|value| + 2, 1] + value)
  {
    if |value| > MAX_TEXT_BYTES {
      return Err;
    }
    var encoded := new Byte[|value| + 2](_ => 0);
    encoded[0] := |value| + 2;
    encoded[1] := UTF8;
    for i := 0 to |value|
      invariant encoded[0] == |value| + 2 && encoded[1] == UTF8
      invariant forall k :: 0 <= k < i ==> encoded[k + 2] == value[k]
    {
      encoded[i + 2] := value[i];
    }
    var bytes := encoded[..];
    forall k | 0 <= k < |bytes| ensures bytes[k] == ([|value| + 2, UTF8] + value)[k] {
      if k >= 2 { assert encoded[(k - 2) + 2] == value[k - 2]; }
    }
    assert bytes == [|value| + 2, UTF8] + value;
    return Ok(bytes);
  }

  function TrimAscii(bytes: seq<Byte>): seq<Byte> {
    if |bytes| > 0 && bytes[|bytes| - 1] == 0 then bytes[..|bytes| - 1] else bytes
  }

  function TrimUtf16(bytes: seq<Byte>): seq<Byte> {
    if |bytes| >= 2 && bytes[|bytes| - 2] == 0 && bytes[|bytes| - 1] == 0 then bytes[..|bytes| - 2]
    else if |bytes| % 2 != 0 && |bytes| > 0 && bytes[|bytes| - 1] == 0 then bytes[..|bytes| - 1]
    else bytes
  }

  type Word = w: int | 0 <= w < 0x1_0000

  type CodePoint = p: int | 0 <= p < 0x11_0000

  /** Big-endian 16-bit words. */
  function Words(bytes: seq<Byte>): seq<Word>
    requires |bytes| % 2 == 0
  {
    if bytes == [] then [] else [bytes[0] as int * 0x100 + bytes[1] as int] + Words(bytes[2..])
  }

  predicate IsSurrogate(word: Word) {
    0xD800 <= word < 0xE000
  }

  predicate IsPair(high: Word, low: Word) {
    0xD800 <= high < 0xDC00 && 0xDC00 <= low < 0xE000
  }

  /** utf16.Decode: surrogate pairs become one code point, lone surrogates the replacement character. */
  function CodePoints(words: seq<Word>): seq<CodePoint> {
    if words == [] then []
    else if !IsSurrogate(words[0]) then [words[0] as int] + CodePoints(words[1..])
    else if |words| > 1 && IsPair(words[0], words[1]) then
      [0x1_0000 + (words[0] as int - 0xD800) * 0x400 + (words[1] as int - 0xDC00)] + CodePoints(words[2..])
    else [0xFFFD] + CodePoints(words[1..])
  }

  /** The UTF-8 bytes of a code point. */
  function Utf8Bytes(point: CodePoint): Text {
    if point < 0x80 then [point]
    else if point < 0x800 then [0xC0 + point / 0x40, 0x80 + point % 0x40]
    else if point < 0x1_0000 then [0xE0 + point / 0x1000, 0x80 + point / 0x40 % 0x40, 0x80 + point % 0x40]
    else [0xF0 + point / 0x4_0000, 0x80 + point / 0x1000 % 0x40, 0x80 + point / 0x40 % 0x40, 0x80 + point % 0x40]
  }

  function Utf8Of(points: seq<CodePoint>): Text {
    if points == [] then [] else Utf8Bytes(points[0]) + Utf8Of(points[1..])
  }

  /** The characters of a string field's body. */
  function BodyText(control: Byte, body: seq<Byte>): Result<Text> {
    if control == UTF16 then
      var trimmed := TrimUtf16(body);
      if |trimmed| % 2 != 0 then Err else Ok(Utf8Of(CodePoints(Words(trimmed))))
    else Ok(TrimAscii(body))
  }

  /** readStringWithLengthAndControl, from the start of a stream */
  function Decoded(data: seq<Byte>): Result<Text> {
    if |data| < 2 then Err
    else if data[0] <= 2 then Ok([])
    else if |data| < data[0] then Err
    else BodyText(data[1], data[2..data[0]])
  }

  method DecodeStringLau(data: array<Byte>) returns (result: Result<Text>)
    requires data.Length < 0x1_0000
    ensures result == Decoded(data[..])
  {
    var stream := new DataStream(data);
    var header := stream.ReadBinaryData(16);
    if header == Err {
      return Err;
    }
    var lc := header.value;
    if |lc| == 0 {
      return Err;
    }
    if lc[0] <= 2 {
      return Ok([]);
    }
    var byteLength: int := lc[0] - 2;
    var body := stream.ReadBinaryData(byteLength * 8);
    if body == Err {
      return Err;
    }
    assert body.value == data[..][2..lc[0]];
    return BodyText(lc[1], body.value);
  }

  /** A body of odd length that the two trimming rules leave odd. */
  predicate StaysOdd(body: seq<Byte>) {
    |body| % 2 == 1 && (body[|body| - 1] != 0 || (|body| > 1 && body[|body| - 2] == 0))
  }

  /** A field is refused exactly if it is cut off, or is UTF-16 of an odd length that no terminator explains. */
  lemma RefusedFields(data: seq<Byte>)
    ensures Decoded(data) == Err <==>
              || |data| < 2
              || (data[0] > 2 && (|data| < data[0] || (data[1] == 0 && StaysOdd(data[2..data[0]]))))
  {
  }

  /** Whatever follows a field does not change its text. */
  lemma RestIsIgnored(data: seq<Byte>, rest: seq<Byte>)
    requires Decoded(data).Ok?
    ensures Decoded(data + rest) == Decoded(data)
  {
    if data[0] > 2 {
      assert (data + rest)[2..data[0]] == data[2..data[0]];
    }
  }

  /** In any other character set than UTF-16 the bytes are the text, less one zero at the end. */
  lemma ByteTextDecodes(control: Byte, body: seq<Byte>)
    requires control != 0 && body != [] && |body| <= 253
    ensures Decoded([|body| + 2, control] + body) ==
              Ok(if body[|body| - 1] == 0 then body[..|body| - 1] else body)
  {
    var data := [|body| + 2, control] + body;
    assert data[2..data[0]] == body;
  }

  lemma Sextets(p: nat)
    ensures p == p / 0x40 * 0x40 + p % 0x40
    ensures p == p / 0x1000 * 0x1000 + p / 0x40 % 0x40 * 0x40 + p % 0x40
    ensures p == p / 0x4_0000 * 0x4_0000 + p / 0x1000 % 0x40 * 0x1000 + p / 0x40 % 0x40 * 0x40 + p % 0x40
  {
    OneSextet(p);
    OneSextet(p / 0x40);
    OneSextet(p / 0x1000);
    TwoSextets(p);
    ThreeSextets(p);
  }

  lemma OneSextet(p: nat)
    ensures p == p / 0x40 * 0x40 + p % 0x40
  {
  }

  lemma TwoSextets(p: nat)
    ensures p / 0x1000 == p / 0x40 / 0x40
  {
  }

  lemma ThreeSextets(p: nat)
    ensures p / 0x4_0000 == p / 0x1000 / 0x40
  {
  }

  /** A leading byte with this mark, then bytes with six free bits each. */
  predicate Utf8Form(b: Text, mark: Byte, next: int) {
    |b| >= 1 && mark <= b[0] < next && forall i :: 1 <= i < |b| ==> 0x80 <= b[i] < 0xC0
  }

  /**
    The bytes of a code point are its UTF-8 form: the shortest of one to four
    bytes whose free bits spell the code point.
   */
  lemma Utf8IsStandard(point: CodePoint)
    ensures var b := Utf8Bytes(point);
            && (point < 0x80 ==> b == [point])
            && (0x80 <= point < 0x800 ==>
                  |b| == 2 && Utf8Form(b, 0xC0, 0xE0) && point == (b[0] - 0xC0) as int * 0x40 + (b[1] - 0x80) as int)
            && (0x800 <= point < 0x1_0000 ==>
                  |b| == 3 && Utf8Form(b, 0xE0, 0xF0)
                  && point == (b[0] - 0xE0) as int * 0x1000 + (b[1] - 0x80) as int * 0x40 + (b[2] - 0x80) as int)
            && (0x1_0000 <= point ==>
                  |b| == 4 && Utf8Form(b, 0xF0, 0xF8)
                  && point == (b[0] - 0xF0) as int * 0x4_0000 + (b[1] - 0x80) as int * 0x1000
                              + (b[2] - 0x80) as int * 0x40 + (b[3] - 0x80) as int)
  {
    Sextets(point);
  }

  predicate EndsInZero(value: Text) {
    value != [] && value[|value| - 1] == 0
  }

  /** Decoding inverts encoding exactly for texts that do not end in a zero byte: one such byte is taken for a terminator. */
  lemma TextRoundTripsIff(value: Text)
    requires |value| <= MAX_TEXT_BYTES
    ensures Decoded(Encoded(value).value) == Ok(value) <==> !EndsInZero(value)
  {
    EncodedDecodes(value);
  }

  lemma EncodedDecodes(value: Text)
    requires |value| <= MAX_TEXT_BYTES
    ensures Decoded(Encoded(value).value) == Ok(TrimAscii(value))
  {
    var data := Encoded(value).value;
    assert data[2..|data|] == value;
  }

  /** Text without its one trailing zero byte. */
  lemma TextLosesOneZero(value: Text)
    requires |value| <= MAX_TEXT_BYTES && EndsInZero(value)
    ensures Decoded(Encoded(value).value) == Ok(value[..|value| - 1])
  {
    EncodedDecodes(value);
  }

  /** A code point that UTF-16 can say: not a surrogate. */
  type Scalar = p: CodePoint | !(0xD800 <= p < 0xE000)

  /** The UTF-16 words of a code point: itself, or a surrogate pair. */
  function WordsOf(point: Scalar): (words: seq<Word>)
    ensures 1 <= |words| <= 2 && (words[|words| - 1] == 0 <==> point == 0)
  {
    if point < 0x1_0000 then [point as int]
    else [0xD800 + (point as int - 0x1_0000) / 0x400, 0xDC00 + (point as int - 0x1_0000) % 0x400]
  }

  function Utf16Words(points: seq<Scalar>): seq<Word> {
    if points == [] then [] else WordsOf(points[0]) + Utf16Words(points[1..])
  }

  /** Words as bytes, the high byte first. */
  function BigEndian(words: seq<Word>): (bytes: seq<Byte>)
    ensures |bytes| == 2 * |words|
    ensures forall i :: 0 <= i < |words| ==> bytes[2 * i] == words[i] / 0x100 && bytes[2 * i + 1] == words[i] % 0x100
  {
    if words == [] then []
    else BigEndian(words[..|words| - 1]) + [words[|words| - 1] / 0x100, words[|words| - 1] % 0x100]
  }

  lemma {:induction false} WordsOfBigEndian(bytes: seq<Byte>, words: seq<Word>)
    requires |bytes| == 2 * |words|
    requires forall i :: 0 <= i < |words| ==> bytes[2 * i] == words[i] / 0x100 && bytes[2 * i + 1] == words[i] % 0x100
    ensures |bytes| % 2 == 0 && Words(bytes) == words
    decreases |words|
  {
    if words != [] {
      forall i | 0 <= i < |words[1..]|
        ensures bytes[2..][2 * i] == words[1..][i] / 0x100 && bytes[2..][2 * i + 1] == words[1..][i] % 0x100
      {
        assert bytes[2..][2 * i] == bytes[2 * (i + 1)] && bytes[2..][2 * i + 1] == bytes[2 * (i + 1) + 1];
      }
      WordsOfBigEndian(bytes[2..], words[1..]);
      assert bytes[2 * 0] == words[0] / 0x100 && bytes[2 * 0 + 1] == words[0] % 0x100;
    }
  }

  lemma PairJoins(point: Scalar)
    requires point >= 0x1_0000
    ensures var words := WordsOf(point);
            IsSurrogate(words[0]) && IsPair(words[0], words[1])
            && 0x1_0000 + (words[0] as int - 0xD800) * 0x400 + (words[1] as int - 0xDC00) == point
  {
  }

  /** Decoding words inverts encoding code points, surrogate pairs included. */
  lemma {:induction false} CodePointsOfWords(points: seq<Scalar>)
    ensures CodePoints(Utf16Words(points)) == points
  {
    if points != [] {
      CodePointsOfWords(points[1..]);
      var words := Utf16Words(points);
      assert words[|WordsOf(points[0])|..] == Utf16Words(points[1..]);
      if points[0] >= 0x1_0000 {
        PairJoins(points[0]);
        assert words[0] == WordsOf(points[0])[0] && words[1] == WordsOf(points[0])[1];
      }
      assert points == [points[0]] + points[1..];
    }
  }

  type Surrogate = w: Word | 0xD800 <= w < 0xE000 witness 0xD800

  /** What UTF-16 is made of: characters, and surrogates that are half of no pair. */
  datatype Unit = Char(point: Scalar) | Lone(word: Surrogate)

  function UnitWords(units: seq<Unit>): seq<Word> {
    if units == [] then []
    else (match units[0] case Char(point) => WordsOf(point) case Lone(word) => [word]) + UnitWords(units[1..])
  }

  /** The code points a decoder makes of them: U+FFFD for a lone surrogate. */
  function UnitPoints(units: seq<Unit>): seq<CodePoint> {
    if units == [] then []
    else [match units[0] case Char(point) => point as int case Lone(_) => 0xFFFD] + UnitPoints(units[1..])
  }

  /** No two lone surrogates in a row make a pair. */
  predicate Apart(units: seq<Unit>) {
    forall i :: 0 <= i < |units| - 1 && units[i].Lone? && units[i + 1].Lone? ==> !IsPair(units[i].word, units[i + 1].word)
  }

  /** Decoding any words: characters as they are, surrogate pairs joined, lone surrogates replaced. */
  lemma {:induction false} UnitsDecode(units: seq<Unit>)
    requires Apart(units)
    ensures CodePoints(UnitWords(units)) == UnitPoints(units)
  {
    if units != [] {
      var rest, words := units[1..], UnitWords(units);
      forall i | 0 <= i < |rest| - 1 && rest[i].Lone? && rest[i + 1].Lone?
        ensures !IsPair(rest[i].word, rest[i + 1].word)
      {
        assert rest[i] == units[i + 1] && rest[i + 1] == units[i + 2];
      }
      UnitsDecode(rest);
      if units[0].Char? {
        assert words[|WordsOf(units[0].point)|..] == UnitWords(rest);
        if units[0].point >= 0x1_0000 {
          PairJoins(units[0].point);
          assert words[0] == WordsOf(units[0].point)[0] && words[1] == WordsOf(units[0].point)[1];
        }
      } else {
        assert words[1..] == UnitWords(rest);
        if rest != [] { SecondWord(units); }
      }
    }
  }

  /** What follows a lone surrogate does not complete it. */
  lemma SecondWord(units: seq<Unit>)
    requires Apart(units) && |units| > 1 && units[0].Lone?
    ensures |UnitWords(units)| > 1 && !IsPair(UnitWords(units)[0], UnitWords(units)[1])
  {
    assert UnitWords(units) == [units[0].word] + UnitWords(units[1..]);
    match units[1]
    case Char(point) =>
      if point >= 0x1_0000 { PairJoins(point); }
      assert UnitWords(units[1..])[0] == WordsOf(point)[0];
    case Lone(word) =>
      assert UnitWords(units[1..])[0] == word;
      assert units[0 + 1].Lone?;
  }

  /** Any words are the words of such units. */
  lemma {:induction false} EveryWordIsInAUnit(words: seq<Word>) returns (units: seq<Unit>)
    ensures Apart(units) && UnitWords(units) == words
    ensures words != [] && units[0].Lone? ==> units[0].word == words[0]
    ensures words != [] ==> units != []
    decreases |words|
  {
    if words == [] {
      units := [];
    } else {
      var first: Unit;
      var used := 1;
      if !IsSurrogate(words[0]) {
        first := Char(words[0] as int);
      } else if |words| > 1 && IsPair(words[0], words[1]) {
        first := Char(0x1_0000 + (words[0] as int - 0xD800) * 0x400 + (words[1] as int - 0xDC00));
        used := 2;
      } else {
        first := Lone(words[0]);
      }
      var rest := EveryWordIsInAUnit(words[used..]);
      units := [first] + rest;
      assert units[1..] == rest;
      forall i | 0 <= i < |units| - 1 && units[i].Lone? && units[i + 1].Lone?
        ensures !IsPair(units[i].word, units[i + 1].word)
      {
        if i > 0 { assert units[i] == rest[i - 1] && units[i + 1] == rest[i]; }
      }
      assert words == words[..used] + words[used..];
    }
  }

  lemma FirstPoint(points: seq<Scalar>, first: Scalar, rest: seq<Scalar>)
    requires points == [first] + rest
    ensures Utf16Words(points) == WordsOf(first) + Utf16Words(rest)
  {
    assert points[1..] == rest;
  }

  lemma JoinedThrice(a: seq<Word>, b: seq<Word>, c: seq<Word>)
    ensures a + (b + c) == (a + b) + c
  {
  }

  lemma {:induction false} OneMorePoint(points: seq<Scalar>, last: Scalar)
    ensures Utf16Words(points + [last]) == Utf16Words(points) + WordsOf(last)
  {
    if points == [] {
      FirstPoint(points + [last], last, []);
    } else {
      var first, rest := points[0], points[1..];
      OneMorePoint(rest, last);
      FirstPoint(points, first, rest);
      FirstPoint(points + [last], first, rest + [last]);
      JoinedThrice(WordsOf(first), Utf16Words(rest), WordsOf(last));
    }
  }

  /** A text without the one zero at its end that is taken for a terminator. */
  function Unterminated(points: seq<Scalar>): seq<Scalar> {
    if points != [] && points[|points| - 1] == 0 then points[..|points| - 1] else points
  }

  lemma TrimLast(front: seq<Byte>, high: Byte, low: Byte)
    requires |front| % 2 == 0
    ensures TrimUtf16(front + [high, low]) == if high == 0 && low == 0 then front else front + [high, low]
  {
    var bytes := front + [high, low];
    assert bytes[..|bytes| - 2] == front;
  }

  lemma LastWord(words: seq<Word>)
    requires words != []
    ensures BigEndian(words) ==
              BigEndian(words[..|words| - 1]) + [words[|words| - 1] / 0x100, words[|words| - 1] % 0x100]
  {
  }

  lemma ZeroHalves(word: Word)
    ensures word == 0 <==> word / 0x100 == 0 && word % 0x100 == 0
  {
  }

  lemma TrimmedWords(words: seq<Word>)
    ensures TrimUtf16(BigEndian(words)) ==
              BigEndian(if words != [] && words[|words| - 1] == 0 then words[..|words| - 1] else words)
  {
    if words != [] {
      LastWord(words);
      TrimLast(BigEndian(words[..|words| - 1]), words[|words| - 1] / 0x100, words[|words| - 1] % 0x100);
      ZeroHalves(words[|words| - 1]);
    }
  }

  lemma UnterminatedWords(points: seq<Scalar>)
    ensures var words := Utf16Words(points);
            Utf16Words(Unterminated(points)) ==
              if words != [] && words[|words| - 1] == 0 then words[..|words| - 1] else words
  {
    if points != [] {
      var front, last := points[..|points| - 1], points[|points| - 1];
      assert points == front + [last];
      OneMorePoint(front, last);
    }
  }

  /** A UTF-16 body stands for its code points, less a zero at the end. */
  lemma Utf16Body(points: seq<Scalar>)
    ensures BodyText(UTF16, BigEndian(Utf16Words(points))) == Ok(Utf8Of(Unterminated(points)))
  {
    var trimmed := Utf16Words(Unterminated(points));
    TrimmedWords(Utf16Words(points));
    UnterminatedWords(points);
    WordsOfBigEndian(BigEndian(trimmed), trimmed);
    CodePointsOfWords(Unterminated(points));
  }

  /** A field whose length byte covers exactly its body. */
  function Field(control: Byte, body: seq<Byte>): seq<Byte>
    requires |body| <= MAX_TEXT_BYTES
  {
    [|body| + 2, control] + body
  }

  lemma FieldDecodes(control: Byte, body: seq<Byte>, text: Text)
    requires body != [] && |body| <= MAX_TEXT_BYTES && BodyText(control, body) == Ok(text)
    ensures Decoded(Field(control, body)) == Ok(text)
  {
    assert Field(control, body)[2..|body| + 2] == body;
  }

  lemma EmptyField(control: Byte)
    ensures Decoded(Field(control, [])) == Ok([])
  {
  }

  /** A text as a UTF-16 field. */
  function Utf16Field(points: seq<Scalar>): seq<Byte>
    requires |Utf16Words(points)| <= 126
  {
    Field(UTF16, BigEndian(Utf16Words(points)))
  }

  lemma NoWordsNoPoints(points: seq<Scalar>)
    ensures Utf16Words(points) == [] <==> points == []
  {
  }

  /**
    Any text that fits a UTF-16 field is decoded to the UTF-8 bytes of its code
    points, those beyond the basic plane included; one zero at its end is lost.
   */
  lemma Utf16TextDecodes(points: seq<Scalar>)
    requires |Utf16Words(points)| <= 126
    ensures Decoded(Utf16Field(points)) == Ok(Utf8Of(Unterminated(points)))
  {
    NoWordsNoPoints(points);
    if points == [] {
      EmptyField(UTF16);
    } else {
      Utf16Body(points);
      FieldDecodes(UTF16, BigEndian(Utf16Words(points)), Utf8Of(Unterminated(points)));
    }
  }

  /** Any words in a UTF-16 field decode as they would outside it, less one zero word at the end. */
  lemma Utf16FieldDecodes(words: seq<Word>)
    requires 0 < |words| <= 126
    ensures Decoded(Field(UTF16, BigEndian(words))) ==
              Ok(Utf8Of(CodePoints(if words[|words| - 1] == 0 then words[..|words| - 1] else words)))
  {
    var trimmed := if words[|words| - 1] == 0 then words[..|words| - 1] else words;
    TrimmedWords(words);
    WordsOfBigEndian(BigEndian(trimmed), trimmed);
    FieldDecodes(UTF16, BigEndian(words), Utf8Of(CodePoints(trimmed)));
  }

  /** So many times the same three-byte character, EN QUAD. */
  function Quads(n: nat): (points: seq<Scalar>)
    ensures |points| == n
  {
    if n == 0 then [] else [0x2000] + Quads(n - 1)
  }

  lemma {:induction false} QuadsGrow(n: nat)
    ensures |Utf16Words(Quads(n))| == n && |Utf8Of(Quads(n))| == 3 * n
    ensures n > 0 ==> Quads(n)[n - 1] == 0x2000
  {
    if n > 0 { QuadsGrow(n - 1); }
  }

  /** A field of 172 bytes whose text has 255: UTF-16 can say in two bytes what takes UTF-8 three. */
  lemma LongTextInAField()
    ensures |Utf16Words(Quads(85))| <= 126 && |Utf16Field(Quads(85))| == 172
    ensures Decoded(Utf16Field(Quads(85))).Ok? && |Decoded(Utf16Field(Quads(85))).value| == 255
  {
    QuadsGrow(85);
    Utf16TextDecodes(Quads(85));
  }
}
