/** Positions in a document: lines, encoding units and UTF-8 byte offsets.

    A document is a string of Unicode scalar values. The program works on byte
    offsets into its UTF-8 form; `ByteOf` takes a character index to its offset. */
module Text {
  import opened Wrappers

  datatype Encoding = Utf8 | Utf16 | Utf32

  datatype Position = Position(line: nat, character: nat)

  datatype Range = Range(start: Position, end: Position)

  // ---------------------------------------------------------------- UTF-8

  function LenUtf8(c: char): (n: nat)
    ensures 1 <= n <= 4
  {
    var v := c as int;
    if v < 0x80 then 1 else if v < 0x800 then 2 else if v < 0x1_0000 then 3 else 4
  }

  function LenUtf16(c: char): nat {
    if c as int < 0x1_0000 then 1 else 2
  }

  function EncodedLen(c: char, enc: Encoding): (n: nat)
    ensures n >= 1
  {
    match enc
    case Utf8 => LenUtf8(c)
    case Utf16 => LenUtf16(c)
    case Utf32 => 1
  }

  /** The UTF-8 bytes of one character. */
  function Utf8Char(c: char): (bytes: seq<nat>)
    ensures |bytes| == LenUtf8(c)
    ensures bytes[0] == 10 <==> c == '\n'
    ensures forall i :: 1 <= i < |bytes| ==> bytes[i] >= 0x80
    ensures forall i :: 0 <= i < |bytes| ==> bytes[i] < 0x100
  {
    var v := c as int;
    if v < 0x80 then [v]
    else if v < 0x800 then [0xC0 + v / 64, 0x80 + v % 64]
    else if v < 0x1_0000 then [0xE0 + v / 4096, 0x80 + v / 64 % 64, 0x80 + v % 64]
    else [0xF0 + v / 262144, 0x80 + v / 4096 % 64, 0x80 + v / 64 % 64, 0x80 + v % 64]
  }

  /** The character that so many bytes stand for. */
  function Utf8Value(bytes: seq<int>): int {
    if |bytes| == 1 then bytes[0]
    else if |bytes| == 2 then (bytes[0] - 0xC0) * 64 + (bytes[1] - 0x80)
    else if |bytes| == 3 then (bytes[0] - 0xE0) * 4096 + (bytes[1] - 0x80) * 64 + (bytes[2] - 0x80)
    else if |bytes| == 4 then
      (bytes[0] - 0xF0) * 262144 + (bytes[1] - 0x80) * 4096 + (bytes[2] - 0x80) * 64 + (bytes[3] - 0x80)
    else -1
  }

  /** The bytes of a character stand for it. */
  lemma Utf8CharReadsBack(c: char)
    ensures Utf8Value(Utf8Char(c)) == c as int
  {
    SixBitGroups(c as int);
  }

  lemma SixBitGroups(v: nat)
    ensures v == v / 64 * 64 + v % 64
    ensures v / 64 == v / 4096 * 64 + v / 64 % 64
    ensures v / 4096 == v / 262144 * 64 + v / 4096 % 64
  {
    assert v / 64 / 64 == v / 4096;
    assert v / 4096 / 64 == v / 262144;
  }

  /** The UTF-16 code units of one character. */
  function Utf16Char(c: char): (units: seq<nat>)
    ensures |units| == 1 ==> units == [c as nat]
    ensures |units| == 2 ==>
      && 0xD800 <= units[0] < 0xDC00 <= units[1] < 0xE000
      && 0x1_0000 + (units[0] - 0xD800) * 0x400 + (units[1] - 0xDC00) == c as nat
    ensures forall i :: 0 <= i < |units| ==> units[i] < 0x1_0000
    ensures 1 <= |units| <= 2
  {
    var v := c as nat;
    if v < 0x1_0000 then [v] else [0xD800 + (v - 0x1_0000) / 0x400, 0xDC00 + (v - 0x1_0000) % 0x400]
  }

  /** The UTF-16 form of the first `k` characters. */
  function Utf16Prefix(text: string, k: nat): seq<nat>
    requires k <= |text|
  {
    if k == 0 then [] else Utf16Prefix(text, k - 1) + Utf16Char(text[k - 1])
  }

  /** The byte offset at which the `k`-th character starts. */
  function ByteOf(text: string, k: nat): nat
    requires k <= |text|
  {
    if k == 0 then 0 else ByteOf(text, k - 1) + LenUtf8(text[k - 1])
  }

  /** The UTF-8 form of the first `k` characters. */
  function Utf8Prefix(text: string, k: nat): (bytes: seq<nat>)
    requires k <= |text|
    ensures |bytes| == ByteOf(text, k)
  {
    if k == 0 then [] else Utf8Prefix(text, k - 1) + Utf8Char(text[k - 1])
  }

  function Bytes(text: string): seq<nat> {
    Utf8Prefix(text, |text|)
  }

  lemma {:induction false} ByteOfIncreases(text: string, i: nat, j: nat)
    requires i <= j <= |text|
    ensures ByteOf(text, i) + (j - i) <= ByteOf(text, j)
  {
    if i < j {
      ByteOfIncreases(text, i, j - 1);
    }
  }

  lemma ByteOfInjective(text: string, i: nat, j: nat)
    requires i <= |text| && j <= |text|
    ensures ByteOf(text, i) == ByteOf(text, j) ==> i == j
    ensures ByteOf(text, i) < ByteOf(text, j) <==> i < j
  {
    if i < j { ByteOfIncreases(text, i, j); }
    if j < i { ByteOfIncreases(text, j, i); }
  }

  lemma {:induction false} ByteOfPrefix(s: string, t: string, k: nat)
    requires k <= |s| && k <= |t| && s[..k] == t[..k]
    ensures ByteOf(s, k) == ByteOf(t, k)
  {
    if k > 0 {
      assert s[..k - 1] == s[..k][..k - 1] == t[..k - 1];
      assert s[k - 1] == s[..k][k - 1] == t[k - 1];
      ByteOfPrefix(s, t, k - 1);
    }
  }

  lemma {:induction false} ByteOfConcat(s: string, t: string)
    ensures ByteOf(s + t, |s + t|) == ByteOf(s, |s|) + ByteOf(t, |t|)
  {
    if t == [] {
      assert s + t == s;
    } else {
      var u := t[..|t| - 1];
      assert (s + t)[..|s + u|] == (s + u)[..|s + u|];
      ByteOfPrefix(s + t, s + u, |s + u|);
      ByteOfPrefix(t, u, |u|);
      ByteOfConcat(s, u);
    }
  }

  /** Each byte of the whole text is a byte of the character covering it. */
  lemma {:induction false} ByteAt(text: string, k: nat, n: nat, j: nat)
    requires k < n <= |text| && j < LenUtf8(text[k])
    ensures ByteOf(text, k) + j < ByteOf(text, n)
    ensures Utf8Prefix(text, n)[ByteOf(text, k) + j] == Utf8Char(text[k])[j]
  {
    if k < n - 1 {
      ByteAt(text, k, n - 1, j);
    }
  }

  ghost predicate IsBoundary(text: string, offset: nat) {
    exists k: nat :: k <= |text| && ByteOf(text, k) == offset
  }

  /** The character index of a byte offset that falls between two characters. */
  function CharIndex(text: string, offset: nat): (k: nat)
    requires IsBoundary(text, offset)
    ensures k <= |text| && ByteOf(text, k) == offset
  {
    IndexFrom(text, offset, 0)
  }

  function IndexFrom(text: string, offset: nat, from: nat): (k: nat)
    requires from <= |text|
    requires exists k: nat :: from <= k <= |text| && ByteOf(text, k) == offset
    ensures from <= k <= |text| && ByteOf(text, k) == offset
    decreases |text| - from
  {
    if ByteOf(text, from) == offset then from else IndexFrom(text, offset, from + 1)
  }

  lemma CharIndexOfByteOf(text: string, k: nat)
    requires k <= |text|
    ensures IsBoundary(text, ByteOf(text, k)) && CharIndex(text, ByteOf(text, k)) == k
  {
    assert IsBoundary(text, ByteOf(text, k));
    ByteOfInjective(text, k, CharIndex(text, ByteOf(text, k)));
  }

  // ---------------------------------------------------------------- lines

  /** The end of the line holding `k`: its newline, or the end of the text. */
  function LineEnd(text: string, k: nat): (e: nat)
    requires k <= |text|
    ensures k <= e <= |text|
    ensures e < |text| ==> text[e] == '\n'
    ensures forall i :: k <= i < e ==> text[i] != '\n'
    decreases |text| - k
  {
    if k == |text| || text[k] == '\n' then k else LineEnd(text, k + 1)
  }

  /** The end of a line's content: its end, less one trailing carriage return. */
  function ContentEnd(text: string, lineStart: nat): (e: nat)
    requires lineStart <= |text|
    ensures lineStart <= e <= LineEnd(text, lineStart)
  {
    var e := LineEnd(text, lineStart);
    if e > lineStart && text[e - 1] == '\r' then e - 1 else e
  }

  /** The character index at which line `n` starts, if there is such a line. */
  function LineStart(text: string, n: nat): (r: Option<nat>)
    ensures r.Some? ==> r.value <= |text|
  {
    if n == 0 then Some(0)
    else
      match LineStart(text, n - 1)
      case None => None
      case Some(s) =>
        var e := LineEnd(text, s);
        if e < |text| then Some(e + 1) else None
  }

  /** How many newlines precede `k`: the line `k` is on. */
  function LineOf(text: string, k: nat): nat
    requires k <= |text|
  {
    if k == 0 then 0
    else LineOf(text, k - 1) + if text[k - 1] == '\n' then 1 else 0
  }

  /** Where the line holding `k` starts. */
  function StartOf(text: string, k: nat): (s: nat)
    requires k <= |text|
    ensures s <= k
    ensures forall i :: s <= i < k ==> text[i] != '\n'
    ensures s == 0 || text[s - 1] == '\n'
  {
    if k == 0 || text[k - 1] == '\n' then k else StartOf(text, k - 1)
  }

  /** The encoding units of `text[i..j]`. */
  function Units(text: string, i: nat, j: nat, enc: Encoding): nat
    requires i <= j <= |text|
    decreases j - i
  {
    if i == j then 0 else Units(text, i, j - 1, enc) + EncodedLen(text[j - 1], enc)
  }

  lemma {:induction false} UnitsIncrease(text: string, i: nat, j: nat, k: nat, enc: Encoding)
    requires i <= j < k <= |text|
    ensures Units(text, i, j, enc) < Units(text, i, k, enc)
  {
    if j < k - 1 {
      UnitsIncrease(text, i, j, k - 1, enc);
    }
  }

  /** The units of a stretch of text are as many as its form has in the encoding: bytes
      in UTF-8, code units in UTF-16, characters in UTF-32. */
  lemma {:induction false} UnitsAreEncodedLength(text: string, i: nat, j: nat)
    requires i <= j <= |text|
    ensures Units(text, i, j, Utf8) == |Utf8Prefix(text, j)| - |Utf8Prefix(text, i)| == ByteOf(text, j) - ByteOf(text, i)
    ensures Units(text, i, j, Utf16) == |Utf16Prefix(text, j)| - |Utf16Prefix(text, i)|
    ensures Units(text, i, j, Utf32) == j - i
  {
    if i < j {
      UnitsAreEncodedLength(text, i, j - 1);
    }
  }

  /** The position naming the boundary before character `k`. */
  function PositionOf(text: string, k: nat, enc: Encoding): Position
    requires k <= |text|
  {
    Position(LineOf(text, k), Units(text, StartOf(text, k), k, enc))
  }

  lemma FeedEndsLine(text: string, s: nat, k: nat)
    requires s <= k < |text| && text[k] == '\n' && k <= LineEnd(text, s)
    ensures LineEnd(text, s) == k && LenUtf8(text[k]) == 1
  {
  }

  lemma NextLineStart(text: string, n: nat, s: nat, k: nat)
    requires LineStart(text, n) == Some(s) && s <= k < |text| && text[k] == '\n' && k <= LineEnd(text, s)
    ensures LineStart(text, n + 1) == Some(k + 1)
  {
    FeedEndsLine(text, s, k);
  }

  lemma WithinLine(text: string, s: nat, k: nat)
    requires s <= k < |text| && text[k] != '\n' && k <= LineEnd(text, s)
    ensures k + 1 <= LineEnd(text, s)
  {
  }

  /** The line that `k` is on starts where the scan back from it stops. */
  predicate StartsLine(text: string, k: nat)
    requires k <= |text|
  {
    LineStart(text, LineOf(text, k)) == Some(StartOf(text, k)) && k <= LineEnd(text, StartOf(text, k))
  }

  lemma StartsNextLine(text: string, k: nat)
    requires k < |text| && StartsLine(text, k) && text[k] == '\n'
    ensures StartsLine(text, k + 1)
  {
    NextLineStart(text, LineOf(text, k), StartOf(text, k), k);
    assert StartOf(text, k + 1) == k + 1;
  }

  lemma StaysOnLine(text: string, k: nat)
    requires k < |text| && StartsLine(text, k) && text[k] != '\n'
    ensures StartsLine(text, k + 1)
  {
    WithinLine(text, StartOf(text, k), k);
    assert StartOf(text, k + 1) == StartOf(text, k);
  }

  lemma {:induction false} EachStartsLine(text: string, k: nat)
    requires k <= |text|
    ensures StartsLine(text, k)
  {
    if k > 0 {
      EachStartsLine(text, k - 1);
      if text[k - 1] == '\n' {
        StartsNextLine(text, k - 1);
      } else {
        StaysOnLine(text, k - 1);
      }
    }
  }

  lemma LineStartOfLineOf(text: string, k: nat)
    requires k <= |text|
    ensures LineStart(text, LineOf(text, k)) == Some(StartOf(text, k))
    ensures k <= LineEnd(text, StartOf(text, k))
  {
    EachStartsLine(text, k);
  }

  lemma {:induction false} LineOfLineStart(text: string, n: nat)
    requires LineStart(text, n).Some?
    ensures var s := LineStart(text, n).value;
      forall k :: s <= k <= LineEnd(text, s) ==> LineOf(text, k) == n && StartOf(text, k) == s
  {
    var s := LineStart(text, n).value;
    if n > 0 {
      LineOfLineStart(text, n - 1);
      assert LineOf(text, s - 1) == n - 1;
    }
    forall k | s <= k <= LineEnd(text, s) ensures LineOf(text, k) == n && StartOf(text, k) == s {
      LineOfWithin(text, s, k);
    }
  }

  lemma {:induction false} LineOfWithin(text: string, s: nat, k: nat)
    requires s <= k <= |text|
    requires s == 0 || text[s - 1] == '\n'
    requires forall i :: s <= i < k ==> text[i] != '\n'
    ensures LineOf(text, k) == LineOf(text, s) && StartOf(text, k) == s
  {
    if s < k {
      LineOfWithin(text, s, k - 1);
    }
  }

  lemma {:induction false} NoLineAfter(text: string, n: nat, m: nat)
    requires n <= m && LineStart(text, n).None?
    ensures LineStart(text, m).None?
  {
    if n < m {
      NoLineAfter(text, n, m - 1);
    }
  }

  lemma {:induction false} LineStartsIncrease(text: string, n: nat, m: nat)
    requires n < m && LineStart(text, m).Some?
    ensures LineStart(text, n).Some?
    ensures LineEnd(text, LineStart(text, n).value) < LineStart(text, m).value
  {
    if n < m - 1 {
      LineStartsIncrease(text, n, m - 1);
    }
  }

  // ---------------------------------------------------------------- lines as LSP counts them

  /** A carriage return with no newline behind it. LSP 3.17 counts it as a line end, as
      it does a newline and the pair of both. */
  predicate LoneReturn(text: string, i: nat)
    requires i < |text|
  {
    text[i] == '\r' && !(i + 1 < |text| && text[i + 1] == '\n')
  }

  /** The line of LSP 3.17 that `k` is on; a pair counts at its newline. */
  function LspLineOf(text: string, k: nat): nat
    requires k <= |text|
  {
    if k == 0 then 0
    else LspLineOf(text, k - 1) + if text[k - 1] == '\n' || LoneReturn(text, k - 1) then 1 else 0
  }

  /** The lines counted here are never more than those of LSP 3.17, and the same exactly
      when no lone carriage return comes before. */
  lemma {:induction false} LinesAreLspLinesExactly(text: string, k: nat)
    requires k <= |text|
    ensures LineOf(text, k) <= LspLineOf(text, k)
    ensures LineOf(text, k) == LspLineOf(text, k) <==> forall i :: 0 <= i < k ==> !LoneReturn(text, i)
  {
    if k > 0 {
      LinesAreLspLinesExactly(text, k - 1);
    }
  }

  /** A concrete text on which they differ: the second letter is on LSP's second line. */
  lemma LoneReturnStartsNoLine()
    ensures LineOf("a\rb", 2) == 0 && LspLineOf("a\rb", 2) == 1
    ensures LineOf("\r\n", 2) == 1 == LspLineOf("\r\n", 2)
  {
    assert LineOf("\r\n", 1) == 0 && LspLineOf("\r\n", 1) == 0;
    assert LineOf("a\rb", 1) == 0 && LspLineOf("a\rb", 1) == 0;
    assert LoneReturn("a\rb", 1);
  }

  // ---------------------------------------------------------------- resolving

  /** Step over characters from `k` until `target` units are covered or the content ends. */
  function Walk(text: string, k: nat, end: nat, units: nat, target: nat, enc: Encoding): (r: nat)
    requires k <= end <= |text|
    ensures k <= r <= end
    decreases end - k
  {
    if k == end || units >= target then k
    else Walk(text, k + 1, end, units + EncodedLen(text[k], enc), target, enc)
  }

  /** The character index a position names, or `None` past the last line. */
  function ResolveIndex(text: string, pos: Position, enc: Encoding): (r: Option<nat>)
    ensures r.Some? ==> r.value <= |text|
  {
    match LineStart(text, pos.line)
    case None => None
    case Some(s) => Some(Walk(text, s, ContentEnd(text, s), 0, pos.character, enc))
  }

  /** The byte offset a position names. */
  function ResolveOffset(text: string, pos: Position, enc: Encoding): Option<nat> {
    match ResolveIndex(text, pos, enc)
    case None => None
    case Some(k) => Some(ByteOf(text, k))
  }

  lemma {:induction false} WalkFinds(text: string, s: nat, k: nat, end: nat, target: nat, enc: Encoding)
    requires s <= k <= end <= |text|
    requires forall j :: s <= j < k ==> Units(text, s, j, enc) < target
    ensures var r := Walk(text, k, end, Units(text, s, k, enc), target, enc);
      && (forall j :: s <= j < r ==> Units(text, s, j, enc) < target)
      && (r < end ==> Units(text, s, r, enc) >= target)
    decreases end - k
  {
    if k < end && Units(text, s, k, enc) < target {
      WalkFinds(text, s, k + 1, end, target, enc);
    }
  }

  /** A position resolves to the first character boundary of its line's content
      covering at least `character` units, or to the end of the content. It has
      no meaning exactly when the text has too few lines. */
  lemma ResolvesToLeastBoundary(text: string, pos: Position, enc: Encoding)
    ensures ResolveIndex(text, pos, enc).None? <==> pos.line > LineOf(text, |text|)
    ensures ResolveIndex(text, pos, enc).Some? ==>
      var s := LineStart(text, pos.line).value;
      var k := ResolveIndex(text, pos, enc).value;
      && s <= k <= ContentEnd(text, s)
      && (forall j :: s <= j < k ==> Units(text, s, j, enc) < pos.character)
      && (k < ContentEnd(text, s) ==> Units(text, s, k, enc) >= pos.character)
  {
    LineStartOfLineOf(text, |text|);
    if pos.line > LineOf(text, |text|) {
      NoLineAfter(text, LineOf(text, |text|) + 1, pos.line);
    } else if pos.line < LineOf(text, |text|) {
      LineStartsIncrease(text, pos.line, LineOf(text, |text|));
    }
    if LineStart(text, pos.line).Some? {
      var s := LineStart(text, pos.line).value;
      WalkFinds(text, s, s, ContentEnd(text, s), pos.character, enc);
    }
  }

  lemma ResolvesToBoundary(text: string, pos: Position, enc: Encoding, k: nat)
    requires LineStart(text, pos.line).Some?
    requires LineStart(text, pos.line).value <= k <= ContentEnd(text, LineStart(text, pos.line).value)
    requires Units(text, LineStart(text, pos.line).value, k, enc) == pos.character
    ensures ResolveOffset(text, pos, enc) == Some(ByteOf(text, k))
  {
    ResolvesToLeastBoundary(text, pos, enc);
    var s, r := LineStart(text, pos.line).value, ResolveIndex(text, pos, enc).value;
    if r < k {
      UnitsIncrease(text, s, r, k, enc);
    }
  }

  /** A position on a boundary `k` of its line's content means that boundary: in UTF-8 the
      byte so many behind the line's start, in UTF-16 where so many code units end, in
      UTF-32 so many characters on. */
  lemma PositionsCountUnits(text: string, pos: Position, k: nat)
    requires LineStart(text, pos.line).Some?
    requires LineStart(text, pos.line).value <= k <= ContentEnd(text, LineStart(text, pos.line).value)
    ensures var s := LineStart(text, pos.line).value;
      && (pos.character == ByteOf(text, k) - ByteOf(text, s) ==>
        ResolveOffset(text, pos, Utf8) == Some(ByteOf(text, s) + pos.character))
      && (pos.character == |Utf16Prefix(text, k)| - |Utf16Prefix(text, s)| ==>
        ResolveOffset(text, pos, Utf16) == Some(ByteOf(text, k)))
      && (pos.character == k - s ==> ResolveOffset(text, pos, Utf32) == Some(ByteOf(text, s + pos.character)))
  {
    var s := LineStart(text, pos.line).value;
    UnitsAreEncodedLength(text, s, k);
    if pos.character == Units(text, s, k, Utf8) { ResolvesToBoundary(text, pos, Utf8, k); }
    if pos.character == Units(text, s, k, Utf16) { ResolvesToBoundary(text, pos, Utf16, k); }
    if pos.character == Units(text, s, k, Utf32) { ResolvesToBoundary(text, pos, Utf32, k); }
  }

  /** A concrete position behind a letter of two bytes: one place in UTF-8, another in UTF-16. */
  lemma BytesAreNotCodeUnits()
    ensures ResolveOffset("\U{00E9}=x", Position(0, 2), Utf8) == Some(2)
    ensures ResolveOffset("\U{00E9}=x", Position(0, 2), Utf16) == Some(3)
  {
    var text := "\U{00E9}=x";
    OneLine(text);
    assert ByteOf(text, 1) == 2 && ByteOf(text, 2) == 3;
    assert |Utf16Prefix(text, 1)| == 1;
    assert |Utf16Prefix(text, 2)| == 2;
    PositionsCountUnits(text, Position(0, 2), 1);
    PositionsCountUnits(text, Position(0, 2), 2);
  }

  /** And behind a character of two code units: one place in UTF-16, another in UTF-32. */
  lemma CodeUnitsAreNotCharacters()
    ensures ResolveOffset("\U{1F600}ab", Position(0, 2), Utf16) == Some(4)
    ensures ResolveOffset("\U{1F600}ab", Position(0, 2), Utf32) == Some(5)
  {
    var text := "\U{1F600}ab";
    OneLine(text);
    assert ByteOf(text, 1) == 4 && ByteOf(text, 2) == 5;
    assert |Utf16Prefix(text, 1)| == 2;
    PositionsCountUnits(text, Position(0, 2), 1);
    PositionsCountUnits(text, Position(0, 2), 2);
  }

  lemma OneLine(text: string)
    requires '\n' !in text && '\r' !in text
    ensures LineStart(text, 0) == Some(0) && ContentEnd(text, 0) == |text|
  {
  }

  /** A boundary inside a line's terminator: after a carriage return that ends a line. */
  predicate InsideTerminator(text: string, k: nat)
    requires k <= |text|
  {
    k > 0 && text[k - 1] == '\r' && (k == |text| || text[k] == '\n')
  }

  /** Resolving the position of a boundary gives the boundary back, in every
      encoding, exactly for the boundaries that are not inside a terminator. */
  lemma ResolveInvertsPositionOf(text: string, k: nat, enc: Encoding)
    requires k <= |text|
    ensures ResolveIndex(text, PositionOf(text, k, enc), enc) == Some(k) <==> !InsideTerminator(text, k)
  {
    var s := StartOf(text, k);
    LineStartOfLineOf(text, k);
    WalksBackExactly(text, s, k, enc);
    if InsideTerminator(text, k) {
      assert LineEnd(text, s) == k;
    }
  }

  /** Walking the units of a boundary stops there, unless the content ends before. */
  lemma WalksBackExactly(text: string, s: nat, k: nat, enc: Encoding)
    requires s <= |text| && s <= k <= LineEnd(text, s)
    ensures Walk(text, s, ContentEnd(text, s), 0, Units(text, s, k, enc), enc) == k <==> k <= ContentEnd(text, s)
  {
    var target := Units(text, s, k, enc);
    WalkFinds(text, s, s, ContentEnd(text, s), target, enc);
    var r := Walk(text, s, ContentEnd(text, s), 0, target, enc);
    if r < k {
      UnitsIncrease(text, s, r, k, enc);
    }
  }

  /** Locating a resolved position names the same line and the units up to the
      boundary it snapped to: nothing changes exactly when the position already
      named a boundary of the content. */
  lemma PositionOfInvertsResolve(text: string, pos: Position, enc: Encoding)
    requires ResolveIndex(text, pos, enc).Some?
    ensures var s := LineStart(text, pos.line).value;
      && PositionOf(text, ResolveIndex(text, pos, enc).value, enc).line == pos.line
      && (PositionOf(text, ResolveIndex(text, pos, enc).value, enc) == pos
          <==> exists j :: s <= j <= ContentEnd(text, s) && Units(text, s, j, enc) == pos.character)
  {
    var s := LineStart(text, pos.line).value;
    var k := ResolveIndex(text, pos, enc).value;
    ResolvesToLeastBoundary(text, pos, enc);
    LineOfLineStart(text, pos.line);
    forall j | s <= j <= ContentEnd(text, s) && Units(text, s, j, enc) == pos.character
      ensures j == k
    {
      if k < j {
        UnitsIncrease(text, s, k, j, enc);
      }
    }
  }

  predicate Before(p: Position, q: Position) {
    p.line < q.line || (p.line == q.line && p.character <= q.character)
  }

  /** Resolving keeps the lexicographic order of positions, so an ordered range
      always resolves to offsets in order. */
  lemma ResolveMonotone(text: string, p: Position, q: Position, enc: Encoding)
    requires Before(p, q)
    requires ResolveOffset(text, q, enc).Some?
    ensures ResolveOffset(text, p, enc).Some?
    ensures ResolveOffset(text, p, enc).value <= ResolveOffset(text, q, enc).value
  {
    if p.line < q.line {
      LineStartsIncrease(text, p.line, q.line);
    }
    ResolvesToLeastBoundary(text, p, enc);
    ResolvesToLeastBoundary(text, q, enc);
    var i, j := ResolveIndex(text, p, enc).value, ResolveIndex(text, q, enc).value;
    ByteOfInjective(text, j, i);
  }

  // ---------------------------------------------------------------- the loops

  /** Scanning stands at byte `j` of character `k`, on line `seen`, which starts at `s`. */
  ghost predicate Scanning(text: string, i: nat, seen: nat, s: nat, k: nat, j: nat) {
    && s <= k <= |text| && i == ByteOf(text, k) + j
    && (if k < |text| then j < LenUtf8(text[k]) else j == 0)
    && LineStart(text, seen) == Some(s)
    && (forall m :: s <= m < k ==> text[m] != '\n')
  }

  lemma ScanFeed(text: string, i: nat, seen: nat, s: nat, k: nat, j: nat)
    requires Scanning(text, i, seen, s, k, j) && k < |text| && text[k] == '\n'
    ensures j == 0 && Scanning(text, i + 1, seen + 1, k + 1, k + 1, 0) && i + 1 == ByteOf(text, k + 1)
  {
    FeedEndsLine(text, s, k);
    NextLineStart(text, seen, s, k);
  }

  lemma ScanOther(text: string, i: nat, seen: nat, s: nat, k: nat, j: nat)
    requires Scanning(text, i, seen, s, k, j) && k < |text| && text[k] != '\n'
    ensures if j + 1 == LenUtf8(text[k]) then Scanning(text, i + 1, seen, s, k + 1, 0)
      else Scanning(text, i + 1, seen, s, k, j + 1)
  {
  }

  lemma ScannedByte(text: string, i: nat, seen: nat, s: nat, k: nat, j: nat)
    requires Scanning(text, i, seen, s, k, j) && i < |Bytes(text)|
    ensures k < |text| && (Bytes(text)[i] == 10 <==> text[k] == '\n')
  {
    ByteAt(text, k, |text|, j);
  }

  /** Reading one byte moves the scan on, to the next line exactly at a newline. */
  lemma ScanByte(text: string, i: nat, seen: nat, s: nat, k: nat, j: nat)
    requires Scanning(text, i, seen, s, k, j) && i < |Bytes(text)|
    ensures k < |text|
    ensures Bytes(text)[i] == 10 <==> j == 0 && text[k] == '\n'
    ensures Bytes(text)[i] == 10 ==>
      Scanning(text, i + 1, seen + 1, k + 1, k + 1, 0) && i + 1 == ByteOf(text, k + 1)
    ensures Bytes(text)[i] != 10 ==>
      if j + 1 == LenUtf8(text[k]) then Scanning(text, i + 1, seen, s, k + 1, 0)
      else Scanning(text, i + 1, seen, s, k, j + 1)
  {
    ScannedByte(text, i, seen, s, k, j);
    if text[k] == '\n' {
      ScanFeed(text, i, seen, s, k, j);
    } else {
      ScanOther(text, i, seen, s, k, j);
    }
  }

  /** At the end of the bytes the last line has been reached. */
  lemma ScanEnds(text: string, i: nat, seen: nat, s: nat, k: nat, j: nat, n: nat)
    requires Scanning(text, i, seen, s, k, j) && i == |Bytes(text)| && seen < n
    ensures LineStart(text, n).None?
  {
    if k < |text| {
      ByteOfIncreases(text, k + 1, |text|);
    }
    assert LineEnd(text, s) == |text|;
    NoLineAfter(text, seen + 1, n);
  }

  /** Byte offset of the start of line `n`, scanning the bytes for newlines. */
  method NthLineStart(text: string, n: nat) returns (r: Option<nat>)
    ensures r == match LineStart(text, n) case None => None case Some(k) => Some(ByteOf(text, k))
  {
    if n == 0 {
      return Some(0);
    }
    var bytes := Bytes(text);
    var seen := 0;
    ghost var k, j, s := 0, 0, 0;
    for i := 0 to |bytes|
      invariant seen < n && Scanning(text, i, seen, s, k, j)
    {
      ScanByte(text, i, seen, s, k, j);
      if bytes[i] == 10 {
        seen := seen + 1;
        if seen == n {
          return Some(i + 1);
        }
        k, j, s := k + 1, 0, k + 1;
      } else if j + 1 == LenUtf8(text[k]) {
        k, j := k + 1, 0;
      } else {
        j := j + 1;
      }
    }
    ScanEnds(text, |bytes|, seen, s, k, j, n);
    return None;
  }

  /** Byte offset of a position: find its line, then count units along its content. */
  method ResolveOffsetLoop(text: string, pos: Position, enc: Encoding) returns (r: Option<nat>)
    ensures r == ResolveOffset(text, pos, enc)
  {
    var lineStart := NthLineStart(text, pos.line);
    if lineStart.None? {
      return None;
    }
    ghost var s := LineStart(text, pos.line).value;
    CharIndexOfByteOf(text, s);
    var k := CharIndex(text, lineStart.value);
    var end := ContentEnd(text, k);
    var units: nat, byte := 0, lineStart.value;
    while k < end
      invariant s <= k <= end && byte == ByteOf(text, k)
      invariant Walk(text, k, end, units, pos.character, enc) == Walk(text, s, end, 0, pos.character, enc)
    {
      if units >= pos.character {
        break;
      }
      units := units + EncodedLen(text[k], enc);
      byte := byte + LenUtf8(text[k]);
      k := k + 1;
    }
    return Some(byte);
  }
}
