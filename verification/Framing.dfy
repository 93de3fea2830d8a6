/** Messages framed by a `Content-Length` header on a byte stream. A byte is a
    character below 256. Which bodies are JSON is a parameter. */
module Framing {
  import opened Wrappers
  import Text

  /** A message body; its length fits the machine's size type. */
  type Body = b: string | |b| < TWO_64

  // ---------------------------------------------------------------- decimal numbers

  predicate IsDigit(c: char) {
    '0' <= c <= '9'
  }

  function Digit(d: nat): (c: char)
    requires d < 10
    ensures IsDigit(c) && ValueOf(c) == d
  {
    ('0' as int + d) as char
  }

  function ValueOf(c: char): nat
    requires IsDigit(c)
  {
    c as int - '0' as int
  }

  function Decimal(n: nat): (s: string)
    ensures s != [] && forall c :: c in s ==> IsDigit(c)
  {
    if n < 10 then [Digit(n)] else Decimal(n / 10) + [Digit(n % 10)]
  }

  function DigitsValue(s: string): Option<nat> {
    if s == [] then Some(0)
    else
      var last := s[|s| - 1];
      var rest := DigitsValue(s[..|s| - 1]);
      if IsDigit(last) && rest.Some? then Some(rest.value * 10 + ValueOf(last)) else None
  }

  /** Read an unsigned size: an optional plus sign, then at least one digit, in range. */
  function ParseSize(s: string): Option<nat> {
    var digits := if s != [] && s[0] == '+' then s[1..] else s;
    var v := DigitsValue(digits);
    if digits != [] && v.Some? && v.value < TWO_64 then v else None
  }

  lemma {:induction false} DecimalReadsBack(n: nat)
    ensures DigitsValue(Decimal(n)) == Some(n)
  {
    var s := Decimal(n);
    if n < 10 {
      assert s[..0] == [];
    } else {
      DecimalReadsBack(n / 10);
      assert s[..|s| - 1] == Decimal(n / 10);
    }
  }

  lemma SizeReadsBack(n: nat)
    ensures ParseSize(Decimal(n)) == if n <= 18446744073709551615 then Some(n) else None
  {
    DecimalReadsBack(n);
    assert IsDigit(Decimal(n)[0]);
  }

  // ---------------------------------------------------------------- text

  predicate Continues(c: char, low: int, high: int) {
    low <= c as int <= high
  }

  /** The bytes of the first character of a UTF-8 text, or 0 when they are not one. */
  function CharWidth(s: string): (w: nat)
    ensures w <= |s| && w <= 4
  {
    if s == [] then 0
    else
      var b := s[0] as int;
      if b < 0x80 then 1
      else if 0xC2 <= b <= 0xDF then if |s| >= 2 && Continues(s[1], 0x80, 0xBF) then 2 else 0
      else if 0xE0 <= b <= 0xEF then
        var low, high := if b == 0xE0 then 0xA0 else 0x80, if b == 0xED then 0x9F else 0xBF;
        if |s| >= 3 && Continues(s[1], low, high) && Continues(s[2], 0x80, 0xBF) then 3 else 0
      else if 0xF0 <= b <= 0xF4 then
        var low, high := if b == 0xF0 then 0x90 else 0x80, if b == 0xF4 then 0x8F else 0xBF;
        if |s| >= 4 && Continues(s[1], low, high) && Continues(s[2], 0x80, 0xBF) && Continues(s[3], 0x80, 0xBF)
        then 4 else 0
      else 0
  }

  predicate IsUtf8(s: string)
    decreases |s|
  {
    s == [] || (CharWidth(s) > 0 && IsUtf8(s[CharWidth(s)..]))
  }

  lemma FirstWidthStays(a: string, b: string)
    requires CharWidth(a) > 0
    ensures CharWidth(a + b) == CharWidth(a)
  {
  }

  lemma {:induction false} Utf8Joins(a: string, b: string)
    requires IsUtf8(a) && IsUtf8(b)
    ensures IsUtf8(a + b)
    decreases |a|
  {
    if a == [] {
      assert a + b == b;
    } else {
      var w := CharWidth(a);
      FirstWidthStays(a, b);
      assert (a + b)[w..] == a[w..] + b;
      Utf8Joins(a[w..], b);
    }
  }

  predicate IsAscii(s: string) {
    forall i :: 0 <= i < |s| ==> s[i] as int < 0x80
  }

  lemma {:induction false} AsciiIsUtf8(s: string)
    requires IsAscii(s)
    ensures IsUtf8(s)
  {
    if s != [] {
      AsciiIsUtf8(s[1..]);
    }
  }

  /** One character as the bytes of its UTF-8 form, and a text. */
  function Encoded(c: char): (s: string)
    ensures |s| == Text.LenUtf8(c)
  {
    seq(|Text.Utf8Char(c)|, i requires 0 <= i < |Text.Utf8Char(c)| => Text.Utf8Char(c)[i] as char)
  }

  function EncodedText(text: string): string {
    if text == [] then [] else Encoded(text[0]) + EncodedText(text[1..])
  }

  lemma EncodedBytes(c: char, rest: string, i: nat)
    requires i < |Encoded(c)|
    ensures (Encoded(c) + rest)[i] as int == Text.Utf8Char(c)[i]
  {
  }

  lemma EncodedIsChar(c: char, rest: string)
    ensures CharWidth(Encoded(c) + rest) == |Encoded(c)|
  {
    var v := c as nat;
    Text.SixBitGroups(v);
    EncodedBytes(c, rest, 0);
    if |Encoded(c)| >= 2 { EncodedBytes(c, rest, 1); }
    if |Encoded(c)| >= 3 { EncodedBytes(c, rest, 2); }
    if |Encoded(c)| >= 4 { EncodedBytes(c, rest, 3); }
  }

  lemma TwoBytes(a: nat, b: nat) returns (v: nat)
    requires 0xC2 <= a <= 0xDF && 0x80 <= b <= 0xBF
    ensures 0x80 <= v < 0x800 && 0xC0 + v / 64 == a && 0x80 + v % 64 == b
  {
    v := (a - 0xC0) * 64 + (b - 0x80);
  }

  lemma ThreeBytes(a: nat, b: nat, c: nat) returns (v: nat)
    requires 0xE0 <= a <= 0xEF && 0x80 <= b <= 0xBF && 0x80 <= c <= 0xBF
    requires (a == 0xE0 ==> 0xA0 <= b) && (a == 0xED ==> b <= 0x9F)
    ensures (0x800 <= v < 0xD800 || 0xE000 <= v < 0x1_0000)
    ensures 0xE0 + v / 4096 == a && 0x80 + v / 64 % 64 == b && 0x80 + v % 64 == c
  {
    var high := (a - 0xE0) * 64 + (b - 0x80);
    v := high * 64 + (c - 0x80);
    assert v / 64 == high && v / 4096 == a - 0xE0;
  }

  lemma FourBytes(a: nat, b: nat, c: nat, d: nat) returns (v: nat)
    requires 0xF0 <= a <= 0xF4 && 0x80 <= b <= 0xBF && 0x80 <= c <= 0xBF && 0x80 <= d <= 0xBF
    requires (a == 0xF0 ==> 0x90 <= b) && (a == 0xF4 ==> b <= 0x8F)
    ensures 0x1_0000 <= v < 0x11_0000
    ensures 0xF0 + v / 262144 == a && 0x80 + v / 4096 % 64 == b && 0x80 + v / 64 % 64 == c && 0x80 + v % 64 == d
  {
    var top := (a - 0xF0) * 64 + (b - 0x80);
    var high := top * 64 + (c - 0x80);
    v := high * 64 + (d - 0x80);
    assert v / 64 == high && v / 4096 == top && v / 262144 == a - 0xF0;
  }

  lemma CharIsEncoded(s: string) returns (c: char)
    requires CharWidth(s) > 0
    ensures Encoded(c) == s[..CharWidth(s)]
  {
    var w := CharWidth(s);
    if w == 1 {
      c := s[0];
    } else if w == 2 {
      var v := TwoBytes(s[0] as int, s[1] as int);
      c := v as char;
    } else if w == 3 {
      var v := ThreeBytes(s[0] as int, s[1] as int, s[2] as int);
      c := v as char;
    } else {
      var v := FourBytes(s[0] as int, s[1] as int, s[2] as int, s[3] as int);
      c := v as char;
    }
    assert |Encoded(c)| == w;
  }

  lemma {:induction false} EncodedIsUtf8(text: string)
    ensures IsUtf8(EncodedText(text))
  {
    if text != [] {
      EncodedIsChar(text[0], EncodedText(text[1..]));
      EncodedIsUtf8(text[1..]);
      assert EncodedText(text)[|Encoded(text[0])|..] == EncodedText(text[1..]);
    }
  }

  lemma {:induction false} Utf8IsEncoded(s: string) returns (text: string)
    requires IsUtf8(s)
    ensures EncodedText(text) == s
    decreases |s|
  {
    if s == [] {
      text := [];
    } else {
      var c := CharIsEncoded(s);
      var rest := Utf8IsEncoded(s[CharWidth(s)..]);
      text := [c] + rest;
      assert text[1..] == rest && s == s[..CharWidth(s)] + s[CharWidth(s)..];
    }
  }

  /** Bytes are text exactly when they are the UTF-8 form of some characters. */
  lemma Utf8Exactly(s: string)
    ensures IsUtf8(s) <==> exists text :: EncodedText(text) == s
  {
    if IsUtf8(s) {
      var text := Utf8IsEncoded(s);
    }
    if text :| EncodedText(text) == s {
      EncodedIsUtf8(text);
    }
  }

  /** The characters that are white space by the Unicode standard. */
  predicate IsWhite(c: char) {
    var v := c as int;
    || 9 <= v <= 13 || v == 0x20 || v == 0x85 || v == 0xA0 || v == 0x1680 || 0x2000 <= v <= 0x200A
    || v == 0x2028 || v == 0x2029 || v == 0x202F || v == 0x205F || v == 0x3000
  }

  // ---------------------------------------------------------------- lines

  /** How many bytes the next line takes, its line feed included. */
  function LineLength(s: string): (n: nat)
    ensures n <= |s| && (s != [] ==> n > 0)
  {
    if s == [] then 0 else if s[0] == '\n' then 1 else 1 + LineLength(s[1..])
  }

  predicate IsLineEnd(c: char) {
    c == '\r' || c == '\n'
  }

  function TrimLineEnd(s: string): string {
    if s != [] && IsLineEnd(s[|s| - 1]) then TrimLineEnd(s[..|s| - 1]) else s
  }

  /** One character of white space, as Unicode has it, in UTF-8. */
  predicate IsBlank(b: string) {
    || (|b| == 1 && (b[0] == ' ' || 9 <= b[0] as int <= 13))
    || (|b| == 2 && b[0] as int == 0xC2 && (b[1] as int == 0x85 || b[1] as int == 0xA0))
    || (|b| == 3 && b[0] as int == 0xE1 && b[1] as int == 0x9A && b[2] as int == 0x80)
    || (|b| == 3 && b[0] as int == 0xE2 && b[1] as int == 0x80
        && (0x80 <= b[2] as int <= 0x8A || b[2] as int == 0xA8 || b[2] as int == 0xA9 || b[2] as int == 0xAF))
    || (|b| == 3 && b[0] as int == 0xE2 && b[1] as int == 0x81 && b[2] as int == 0x9F)
    || (|b| == 3 && b[0] as int == 0xE3 && b[1] as int == 0x80 && b[2] as int == 0x80)
  }

  /** The blank byte sequences are the white space characters, encoded. */
  lemma BlanksAreWhite(c: char)
    ensures IsBlank(Encoded(c)) <==> IsWhite(c)
  {
    Text.Utf8CharReadsBack(c);
  }

  /** The bytes of white space at the front, or at the end: one character's, or none. */
  function BlankAtFront(s: string): (n: nat)
    ensures n <= |s|
  {
    if |s| >= 1 && IsBlank(s[..1]) then 1
    else if |s| >= 2 && IsBlank(s[..2]) then 2
    else if |s| >= 3 && IsBlank(s[..3]) then 3
    else 0
  }

  function BlankAtEnd(s: string): (n: nat)
    ensures n <= |s|
  {
    if |s| >= 1 && IsBlank(s[|s| - 1..]) then 1
    else if |s| >= 2 && IsBlank(s[|s| - 2..]) then 2
    else if |s| >= 3 && IsBlank(s[|s| - 3..]) then 3
    else 0
  }

  function TrimStart(s: string): string
    decreases |s|
  {
    if BlankAtFront(s) > 0 then TrimStart(s[BlankAtFront(s)..]) else s
  }

  function TrimBlanks(s: string): string
    decreases |s|
  {
    if BlankAtEnd(s) > 0 then TrimBlanks(s[..|s| - BlankAtEnd(s)]) else TrimStart(s)
  }

  const LENGTH_NAME := "Content-Length:"

  predicate IsLength(line: string) {
    LENGTH_NAME <= line
  }

  /** The length known after a header line: only `Content-Length` changes it. */
  function Noted(line: string, length: Option<nat>): Option<nat> {
    if IsLength(line) then ParseSize(TrimBlanks(line[|LENGTH_NAME|..])) else length
  }

  // ---------------------------------------------------------------- reading

  datatype Headers = StreamEnded | NotUtf8(rest: string) | Complete(length: Option<nat>, rest: string)

  function ReadHeaders(s: string, length: Option<nat>): Headers
    decreases |s|
  {
    if s == [] then StreamEnded
    else
      var n := LineLength(s);
      var line := TrimLineEnd(s[..n]);
      if !IsUtf8(s[..n]) then NotUtf8(s[n..])
      else if line == [] then Complete(length, s[n..])
      else ReadHeaders(s[n..], Noted(line, length))
  }

  /** Which texts are JSON. */
  type Grammar = string -> bool

  /** A message, the end of the stream, or what was wrong. */
  datatype Outcome = Message(body: string) | EndOfStream | NoLength | ShortBody | BadHeader | NotJson(body: string)

  function Parsed(body: string, json: Grammar): Outcome {
    if json(body) then Message(body) else NotJson(body)
  }

  function ReadBody(length: Option<nat>, rest: string, json: Grammar): (Outcome, string) {
    match length
    case None => (NoLength, rest)
    case Some(n) => if |rest| < n then (ShortBody, "") else (Parsed(rest[..n], json), rest[n..])
  }

  function Read(s: string, json: Grammar): (Outcome, string) {
    match ReadHeaders(s, None)
    case StreamEnded => (EndOfStream, "")
    case NotUtf8(rest) => (BadHeader, rest)
    case Complete(length, rest) => ReadBody(length, rest, json)
  }

  function Header(size: nat): string {
    "Content-Length: " + Decimal(size) + "\r\n\r\n"
  }

  function Frame(body: Body): string {
    Header(|body|) + body
  }

  /** A concrete frame. */
  lemma FrameLooksLike()
    ensures Frame("{\"id\": 1000}") == "Content-Length: 12\r\n\r\n{\"id\": 1000}"
  {
    assert Decimal(1) == "1" && Decimal(12) == "12";
  }

  /** A pipe between two processes: bytes written and not yet read. */
  class Pipe {
    var bytes: string

    constructor ()
      ensures bytes == []
    {
      bytes := [];
    }

    method WriteMessage(body: Body)
      modifies this
      ensures bytes == old(bytes) + Frame(body)
    {
      ghost var before := bytes;
      var header := "Content-Length: " + Decimal(|body|) + "\r\n\r\n";
      bytes := bytes + header;
      bytes := bytes + body;
      assert before + header + body == before + (header + body);
    }

    /** Take the next line off the pipe; nothing when it is not text. */
    method ReadLine() returns (line: Option<string>)
      modifies this
      ensures var n := LineLength(old(bytes));
        && bytes == old(bytes)[n..]
        && line == if IsUtf8(old(bytes)[..n]) then Some(old(bytes)[..n]) else None
    {
      var n := LineLength(bytes);
      line := if IsUtf8(bytes[..n]) then Some(bytes[..n]) else None;
      bytes := bytes[n..];
    }

    method ReadMessage(json: Grammar) returns (outcome: Outcome)
      modifies this
      ensures (outcome, bytes) == Read(old(bytes), json)
    {
      ghost var s := bytes;
      var contentLength: Option<nat> := None;
      while true
        invariant ReadHeaders(bytes, contentLength) == ReadHeaders(s, None)
        decreases |bytes|
      {
        if bytes == [] {
          return EndOfStream;
        }
        var line := ReadLine();
        if line.None? {
          return BadHeader;
        }
        var trimmed := TrimLineEnd(line.value);
        if trimmed == [] {
          break;
        }
        if IsLength(trimmed) {
          contentLength := ParseSize(TrimBlanks(trimmed[|LENGTH_NAME|..]));
        }
      }
      assert ReadHeaders(s, None) == Complete(contentLength, bytes);
      if contentLength == None {
        return NoLength;
      }
      var n := contentLength.value;
      if |bytes| < n {
        bytes := "";
        return ShortBody;
      }
      var body := bytes[..n];
      bytes := bytes[n..];
      outcome := if json(body) then Message(body) else NotJson(body);
    }
  }

  // ---------------------------------------------------------------- header blocks

  predicate HeaderLine(h: string) {
    h != [] && '\n' !in h && '\r' !in h && IsUtf8(h)
  }

  function HeaderBlock(headers: seq<string>): string {
    if headers == [] then [] else headers[0] + "\r\n" + HeaderBlock(headers[1..])
  }

  lemma {:induction false} LineEndsAtFeed(line: string, rest: string)
    requires '\n' !in line
    ensures LineLength(line + "\n" + rest) == |line| + 1
    ensures LineLength(line) == |line|
  {
    if line != [] {
      LineEndsAtFeed(line[1..], rest);
      assert (line + "\n" + rest)[1..] == line[1..] + "\n" + rest;
    }
  }

  /** One header line taken off the front. */
  lemma ReadOneHeader(h: string, rest: string, length: Option<nat>)
    requires HeaderLine(h)
    ensures ReadHeaders(h + "\r\n" + rest, length) == ReadHeaders(rest, Noted(h, length))
  {
    var line, s := h + "\r", h + "\r\n" + rest;
    assert s == line + "\n" + rest;
    LineEndsAtFeed(line, rest);
    var n := |h| + 2;
    assert s[..n] == h + "\r\n" && s[n..] == rest;
    AsciiIsUtf8("\r\n");
    Utf8Joins(h, "\r\n");
    TrimsToHeader(h);
  }

  lemma TrimsToHeader(h: string)
    requires HeaderLine(h)
    ensures TrimLineEnd(h + "\r\n") == h
  {
    var s := h + "\r\n";
    assert s[|s| - 1] == '\n' && s[..|s| - 1] == h + "\r";
    assert (h + "\r")[|h|] == '\r' && (h + "\r")[..|h|] == h;
    assert h[|h| - 1] in h;
    assert TrimLineEnd(s) == TrimLineEnd(h + "\r") == TrimLineEnd(h);
  }

  lemma ReadEmptyLine(rest: string, length: Option<nat>)
    ensures ReadHeaders("\r\n" + rest, length) == Complete(length, rest)
  {
    var s := "\r\n" + rest;
    LineEndsAtFeed("\r", rest);
    assert s == "\r" + "\n" + rest;
    assert s[..2] == "\r\n" && s[2..] == rest;
    AsciiIsUtf8("\r\n");
    assert "\r\n"[..1] == "\r";
  }

  /** The length a block of headers announces: the last `Content-Length` decides. */
  function Announced(headers: seq<string>, length: Option<nat>): Option<nat> {
    if headers == [] then length else Announced(headers[1..], Noted(headers[0], length))
  }

  /** A header block is read line by line, whatever comes behind it. */
  lemma {:induction false} BlockThen(headers: seq<string>, tail: string, length: Option<nat>)
    requires forall h :: h in headers ==> HeaderLine(h)
    ensures ReadHeaders(HeaderBlock(headers) + tail, length) == ReadHeaders(tail, Announced(headers, length))
  {
    if headers == [] {
      assert HeaderBlock(headers) + tail == tail;
    } else {
      var rest := HeaderBlock(headers[1..]) + tail;
      assert HeaderBlock(headers) + tail == headers[0] + "\r\n" + rest;
      ReadOneHeader(headers[0], rest, length);
      BlockThen(headers[1..], tail, Noted(headers[0], length));
    }
  }

  lemma ReadBlock(headers: seq<string>, rest: string, length: Option<nat>)
    requires forall h :: h in headers ==> HeaderLine(h)
    ensures ReadHeaders(HeaderBlock(headers) + "\r\n" + rest, length)
      == Complete(Announced(headers, length), rest)
  {
    assert HeaderBlock(headers) + "\r\n" + rest == HeaderBlock(headers) + ("\r\n" + rest);
    BlockThen(headers, "\r\n" + rest, length);
    ReadEmptyLine(rest, Announced(headers, length));
  }

  /** A header line that is not text is an error, and the next message is read behind it. */
  lemma BadLineIsRefused(headers: seq<string>, line: string, rest: string, json: Grammar)
    requires forall h :: h in headers ==> HeaderLine(h)
    requires '\n' !in line && !IsUtf8(line + "\n")
    ensures Read(HeaderBlock(headers) + (line + "\n" + rest), json) == (BadHeader, rest)
  {
    BlockThen(headers, line + "\n" + rest, None);
    LineEndsAtFeed(line, rest);
    var s := line + "\n" + rest;
    assert s[..|line| + 1] == line + "\n" && s[|line| + 1..] == rest;
  }

  /** A stream that ends within its header block is the end of the stream. */
  lemma UnfinishedHeaderEnds(headers: seq<string>, json: Grammar)
    requires forall h :: h in headers ==> HeaderLine(h)
    ensures Read(HeaderBlock(headers), json) == (EndOfStream, "")
  {
    BlockThen(headers, [], None);
    assert HeaderBlock(headers) + [] == HeaderBlock(headers);
  }

  lemma ReadBareHeader(h: string, rest: string, length: Option<nat>)
    requires HeaderLine(h)
    ensures ReadHeaders(h + "\n" + rest, length) == ReadHeaders(rest, Noted(h, length))
  {
    LineEndsAtFeed(h, rest);
    var s := h + "\n" + rest;
    assert s[..|h| + 1] == h + "\n" && s[|h| + 1..] == rest;
    AsciiIsUtf8("\n");
    Utf8Joins(h, "\n");
    TrimsBareFeed(h);
  }

  /** Lines may also end in a line feed alone. */
  lemma BareFeedsRead(body: Body, rest: string, json: Grammar)
    ensures Read("Content-Length: " + Decimal(|body|) + "\n" + ("\n" + (body + rest)), json) == (Parsed(body, json), rest)
  {
    var line := "Content-Length: " + Decimal(|body|);
    LengthLine(|body|);
    ReadBareHeader(line, "\n" + (body + rest), None);
    BareEmptyLine(body + rest, Some(|body|));
    BodyThenRest(body, rest, json);
  }

  lemma TrimsBareFeed(line: string)
    requires HeaderLine(line)
    ensures TrimLineEnd(line + "\n") == line
  {
    assert (line + "\n")[..|line|] == line;
    assert line[|line| - 1] in line;
  }

  lemma BareEmptyLine(rest: string, length: Option<nat>)
    ensures ReadHeaders("\n" + rest, length) == Complete(length, rest)
  {
    var s := "\n" + rest;
    AsciiIsUtf8("\n");
    assert s[..1] == "\n" && s[1..] == rest && "\n"[..0] == [];
  }

  /** The announced length is what the last `Content-Length` line says, and nothing
      when there is no such line. */
  lemma {:induction false} LastLengthDecides(headers: seq<string>, length: Option<nat>, i: nat)
    requires i < |headers| && IsLength(headers[i])
    requires forall j :: i < j < |headers| ==> !IsLength(headers[j])
    ensures Announced(headers, length) == ParseSize(TrimBlanks(headers[i][|LENGTH_NAME|..]))
  {
    if i == 0 {
      OtherLinesIgnored(headers[1..], Noted(headers[0], length));
    } else {
      LastLengthDecides(headers[1..], Noted(headers[0], length), i - 1);
    }
  }

  lemma {:induction false} OtherLinesIgnored(headers: seq<string>, length: Option<nat>)
    requires forall j :: 0 <= j < |headers| ==> !IsLength(headers[j])
    ensures Announced(headers, length) == length
  {
    if headers != [] {
      OtherLinesIgnored(headers[1..], length);
    }
  }

  /** Any header block is read as its last `Content-Length` says, whatever other lines
      surround it; without one, or with an unreadable one, the message is refused. */
  lemma HeaderBlockDecides(headers: seq<string>, rest: string, json: Grammar)
    requires forall h :: h in headers ==> HeaderLine(h)
    ensures Read(HeaderBlock(headers) + "\r\n" + rest, json) == ReadBody(Announced(headers, None), rest, json)
  {
    ReadBlock(headers, rest, None);
  }

  /** A message whose header names no length is refused, its body left unread. The
      name is matched as written, so `content-length` names none. */
  lemma NoLengthIsRefused(headers: seq<string>, rest: string, json: Grammar)
    requires forall h :: h in headers ==> HeaderLine(h)
    requires forall j :: 0 <= j < |headers| ==> !IsLength(headers[j])
    ensures Read(HeaderBlock(headers) + "\r\n" + rest, json) == (NoLength, rest)
  {
    HeaderBlockDecides(headers, rest, json);
    OtherLinesIgnored(headers, None);
  }

  /** An ASCII blank, and an ASCII character that is none. */
  predicate Blank(c: char) {
    c == ' ' || 9 <= c as int <= 13
  }

  predicate Solid(c: char) {
    c as int < 0x80 && !Blank(c)
  }

  predicate Blanks(s: string) {
    forall i :: 0 <= i < |s| ==> Blank(s[i])
  }

  lemma FrontOf(s: string)
    requires s != []
    ensures Blank(s[0]) ==> BlankAtFront(s) == 1
    ensures Solid(s[0]) ==> BlankAtFront(s) == 0
  {
    assert s[..1][0] == s[0];
  }

  lemma EndOf(s: string)
    requires s != []
    ensures Blank(s[|s| - 1]) ==> BlankAtEnd(s) == 1
    ensures Solid(s[|s| - 1]) ==> BlankAtEnd(s) == 0
  {
    assert s[|s| - 1..][0] == s[|s| - 1];
  }

  lemma {:induction false} TrimsFront(pre: string, s: string)
    requires Blanks(pre) && s != [] && Solid(s[0])
    ensures TrimStart(pre + s) == s
  {
    FrontOf(pre + s);
    if pre == [] {
      assert pre + s == s;
    } else {
      assert (pre + s)[1..] == pre[1..] + s;
      TrimsFront(pre[1..], s);
    }
  }

  /** Blanks around a text are trimmed, and nothing of the text. */
  lemma {:induction false} TrimsBoth(pre: string, s: string, post: string)
    requires Blanks(pre) && Blanks(post) && s != [] && Solid(s[0]) && Solid(s[|s| - 1])
    ensures TrimBlanks(pre + s + post) == s
    decreases |post|
  {
    var t := pre + s + post;
    EndOf(t);
    if post == [] {
      assert t == pre + s;
      TrimsFront(pre, s);
    } else {
      assert t[..|t| - 1] == pre + s + post[..|post| - 1];
      TrimsBoth(pre, s, post[..|post| - 1]);
    }
  }

  /** A length is read with or without a plus sign, and with blanks around it. */
  lemma PaddedLengthReads(pre: string, size: nat, post: string, length: Option<nat>)
    requires Blanks(pre) && Blanks(post) && size < TWO_64
    ensures Noted("Content-Length:" + (pre + Decimal(size) + post), length) == Some(size)
    ensures Noted("Content-Length:" + (pre + ("+" + Decimal(size)) + post), length) == Some(size)
  {
    var digits := Decimal(size);
    SizeReadsBack(size);
    assert IsDigit(digits[0]) && IsDigit(digits[|digits| - 1]);
    PaddedReads(pre, digits, post, length);
    SignedReads(digits);
    PaddedReads(pre, "+" + digits, post, length);
  }

  lemma SignedReads(digits: string)
    requires digits != [] && IsDigit(digits[0])
    ensures ParseSize("+" + digits) == ParseSize(digits)
  {
    assert ("+" + digits)[1..] == digits;
  }

  lemma PaddedReads(pre: string, s: string, post: string, length: Option<nat>)
    requires Blanks(pre) && Blanks(post) && s != [] && Solid(s[0]) && Solid(s[|s| - 1])
    ensures Noted("Content-Length:" + (pre + s + post), length) == ParseSize(s)
  {
    TrimsBoth(pre, s, post);
    AfterName(pre + s + post);
  }

  lemma AfterName(value: string)
    ensures IsLength("Content-Length:" + value) && ("Content-Length:" + value)[|LENGTH_NAME|..] == value
  {
  }

  /** Only digits are a number, at most one plus sign in front of them. */
  lemma {:induction false} OnlyDigitsAreRead(s: string)
    ensures DigitsValue(s).Some? <==> forall c :: c in s ==> IsDigit(c)
  {
    if s != [] {
      OnlyDigitsAreRead(s[..|s| - 1]);
      assert s == s[..|s| - 1] + [s[|s| - 1]];
    }
  }

  lemma LengthLine(size: nat)
    requires size < TWO_64
    ensures HeaderLine("Content-Length: " + Decimal(size))
    ensures IsLength("Content-Length: " + Decimal(size))
    ensures Noted("Content-Length: " + Decimal(size), None) == Some(size)
  {
    var digits := Decimal(size);
    LengthPrefix(digits);
    BlankBeforeDigits(digits);
    SizeReadsBack(size);
    DigitsAreNoLineEnd(digits);
  }

  lemma LengthPrefix(digits: string)
    ensures IsLength("Content-Length: " + digits)
    ensures ("Content-Length: " + digits)[|LENGTH_NAME|..] == " " + digits
  {
    assert "Content-Length: " == LENGTH_NAME + " ";
    assert "Content-Length: " + digits == LENGTH_NAME + (" " + digits);
  }

  lemma DigitsAreNoLineEnd(digits: string)
    requires forall c :: c in digits ==> IsDigit(c)
    ensures HeaderLine("Content-Length: " + digits)
  {
    assert '\n' !in "Content-Length: " && '\r' !in "Content-Length: ";
    assert !IsDigit('\n') && !IsDigit('\r');
    DigitsAreAscii(digits);
    AsciiIsUtf8(digits);
    AsciiIsUtf8("Content-Length: ");
    Utf8Joins("Content-Length: ", digits);
  }

  lemma DigitsAreAscii(digits: string)
    requires forall c :: c in digits ==> IsDigit(c)
    ensures IsAscii(digits)
  {
    forall i | 0 <= i < |digits| ensures digits[i] as int < 0x80 {
      assert IsDigit(digits[i]);
    }
  }

  lemma BlankBeforeDigits(digits: string)
    requires digits != [] && forall c :: c in digits ==> IsDigit(c)
    ensures TrimBlanks(" " + digits) == digits
  {
    var s := " " + digits;
    DigitEndsNoBlank(s, digits[|digits| - 1]);
    assert s[..1] == " " && BlankAtFront(s) == 1 && s[1..] == digits;
    DigitStartsNoBlank(digits);
    assert TrimBlanks(s) == TrimStart(s) == TrimStart(digits);
  }

  lemma DigitEndsNoBlank(s: string, last: char)
    requires s != [] && s[|s| - 1] == last && IsDigit(last)
    ensures BlankAtEnd(s) == 0
  {
  }

  lemma DigitStartsNoBlank(s: string)
    requires s != [] && IsDigit(s[0])
    ensures BlankAtFront(s) == 0
  {
  }

  lemma {:induction false} AnnouncedJoins(a: seq<string>, b: seq<string>, length: Option<nat>)
    ensures Announced(a + b, length) == Announced(b, Announced(a, length))
  {
    if a == [] {
      assert a + b == b;
    } else {
      assert (a + b)[1..] == a[1..] + b;
      AnnouncedJoins(a[1..], b, Noted(a[0], length));
    }
  }

  lemma AnnouncedAmong(before: seq<string>, line: string, after: seq<string>)
    requires IsLength(line) && forall j :: 0 <= j < |after| ==> !IsLength(after[j])
    ensures Announced(before + [line] + after, None) == Noted(line, None)
  {
    AnnouncedJoins(before + [line], after, None);
    AnnouncedJoins(before, [line], None);
    OtherLinesIgnored(after, Announced(before + [line], None));
  }

  /** A message between other header lines is read whole, and nothing after it is. */
  lemma ReadsAmongOtherHeaders(before: seq<string>, body: Body, after: seq<string>, rest: string, json: Grammar)
    requires forall h :: h in before + after ==> HeaderLine(h)
    requires forall j :: 0 <= j < |after| ==> !IsLength(after[j])
    ensures Read(HeaderBlock(before + ["Content-Length: " + Decimal(|body|)] + after) + "\r\n" + (body + rest), json)
      == (Parsed(body, json), rest)
  {
    var line := "Content-Length: " + Decimal(|body|);
    LengthLine(|body|);
    AnnouncedAmong(before, line, after);
    assert line in before + [line] + after;
    HeaderBlockDecides(before + [line] + after, body + rest, json);
    BodyThenRest(body, rest, json);
  }

  lemma BodyThenRest(body: Body, rest: string, json: Grammar)
    ensures ReadBody(Some(|body|), body + rest, json) == (Parsed(body, json), rest)
  {
    assert (body + rest)[..|body|] == body && (body + rest)[|body|..] == rest;
  }

  // ---------------------------------------------------------------- what was written is read

  /** Reading takes exactly the first frame. */
  lemma ReadsOneFrame(body: Body, rest: string, json: Grammar)
    ensures Read(Frame(body) + rest, json) == (Parsed(body, json), rest)
  {
    var line := "Content-Length: " + Decimal(|body|);
    ReadsAmongOtherHeaders([], body, [], rest, json);
    assert [] + [line] + [] == [line];
    assert HeaderBlock([line]) == line + "\r\n" + HeaderBlock([]);
    assert Frame(body) + rest == HeaderBlock([line]) + "\r\n" + (body + rest);
  }

  function Frames(bodies: seq<Body>): string {
    if bodies == [] then [] else Frame(bodies[0]) + Frames(bodies[1..])
  }

  /** Read until something other than a message comes. */
  function ReadAll(s: string, json: Grammar): (seq<string>, Outcome)
    decreases |s|
  {
    var (outcome, rest) := Read(s, json);
    if outcome.Message? then
      ReadShrinks(s, json);
      var (more, last) := ReadAll(rest, json);
      ([outcome.body] + more, last)
    else ([], outcome)
  }

  lemma {:induction false} HeadersShrink(s: string, length: Option<nat>)
    ensures ReadHeaders(s, length).Complete? ==> |ReadHeaders(s, length).rest| < |s|
    decreases |s|
  {
    if s != [] {
      var n := LineLength(s);
      HeadersShrink(s[n..], Noted(TrimLineEnd(s[..n]), length));
    }
  }

  lemma ReadShrinks(s: string, json: Grammar)
    ensures Read(s, json).0.Message? ==> |Read(s, json).1| < |s|
  {
    HeadersShrink(s, None);
  }

  lemma ReadAllFromFrame(body: Body, more: string, json: Grammar)
    requires json(body)
    ensures ReadAll(Frame(body) + more, json) == ([body] + ReadAll(more, json).0, ReadAll(more, json).1)
  {
    ReadsOneFrame(body, more, json);
  }

  lemma ReadAllStops(s: string, json: Grammar)
    requires !Read(s, json).0.Message?
    ensures ReadAll(s, json) == ([], Read(s, json).0)
  {
  }

  predicate AllJson(bodies: seq<Body>, json: Grammar) {
    forall i :: 0 <= i < |bodies| ==> json(bodies[i])
  }

  /** Every body comes back, in order, and then the end of the stream. */
  lemma {:induction false} FramesReadBack(bodies: seq<Body>, json: Grammar)
    requires AllJson(bodies, json)
    ensures ReadAll(Frames(bodies), json) == (bodies, EndOfStream)
  {
    if bodies != [] {
      ReadAllFromFrame(bodies[0], Frames(bodies[1..]), json);
      FramesReadBack(bodies[1..], json);
      assert [bodies[0]] + bodies[1..] == bodies;
    }
  }

  // ---------------------------------------------------------------- broken streams

  lemma {:induction false} TrimKeepsStart(s: string)
    requires s != [] && !IsLineEnd(s[0])
    ensures TrimLineEnd(s) != []
  {
    if IsLineEnd(s[|s| - 1]) {
      TrimKeepsStart(s[..|s| - 1]);
    }
  }

  /** A stream ending inside a first line is the end of the stream. */
  lemma EndsInFirstLine(s: string, json: Grammar)
    requires s != [] && !IsLineEnd(s[0]) && '\n' !in s && IsUtf8(s)
    ensures Read(s, json) == (EndOfStream, "")
  {
    LineEndsAtFeed(s, "");
    TrimKeepsStart(s);
    assert s[..|s|] == s && s[|s|..] == [];
    assert ReadHeaders(s, None) == ReadHeaders([], Noted(TrimLineEnd(s), None));
  }

  lemma LengthLineIsAscii(digits: string, k: nat)
    requires (forall c :: c in digits ==> IsDigit(c)) && k <= |"Content-Length: " + digits + "\r"|
    ensures IsAscii(("Content-Length: " + digits + "\r")[..k])
  {
    DigitsAreAscii(digits);
  }

  /** A frame cut after `k` of its bytes. Up to the end of its length line that is
      the end of the stream, later it is an error; only an empty body survives the
      loss of the very last line feed. */
  lemma CutFrame(body: Body, k: nat, json: Grammar)
    requires k < |Frame(body)|
    ensures Read(Frame(body)[..k], json).0 ==
      if k + 2 <= |Header(|body|)| then EndOfStream
      else if body == [] then Parsed([], json)
      else ShortBody
  {
    if k <= |"Content-Length: " + Decimal(|body|)| + 1 {
      CutInLengthLine(body, k, json);
    } else {
      CutAfterLengthLine(body, k, json);
    }
  }

  lemma CutAfterLengthLine(body: Body, k: nat, json: Grammar)
    requires |"Content-Length: " + Decimal(|body|)| + 2 <= k < |Frame(body)|
    ensures Read(Frame(body)[..k], json).0 ==
      if k + 2 <= |Header(|body|)| then EndOfStream
      else if body == [] then Parsed([], json)
      else ShortBody
  {
    var line := "Content-Length: " + Decimal(|body|);
    var after := Frame(body)[..k][|line| + 2..];
    LengthLine(|body|);
    LengthLineThen(body, k, after);
    ReadOneHeader(line, after, None);
    CutBehindLengthLine(body, k, after);
    CutOutcome(Frame(body)[..k], body, after, json);
  }

  lemma CutOutcome(s: string, body: Body, after: string, json: Grammar)
    requires ReadHeaders(s, None) == CutHeaders(body, after)
    requires |after| >= 2 ==> |after[2..]| < |body|
    ensures Read(s, json).0 ==
      if after == [] then EndOfStream
      else if body == [] then Parsed([], json)
      else ShortBody
  {
  }

  /** What remains of the header block behind the length line. */
  function CutHeaders(body: Body, after: string): Headers {
    if |after| == 0 then StreamEnded
    else if |after| == 1 then Complete(Some(|body|), [])
    else Complete(Some(|body|), after[2..])
  }

  lemma LengthLineThen(body: Body, k: nat, after: string)
    requires |"Content-Length: " + Decimal(|body|)| + 2 <= k < |Frame(body)|
    requires after == Frame(body)[..k][|"Content-Length: " + Decimal(|body|)| + 2..]
    ensures Frame(body)[..k] == "Content-Length: " + Decimal(|body|) + "\r\n" + after
  {
    var line := "Content-Length: " + Decimal(|body|);
    assert Frame(body) == line + "\r\n" + ("\r\n" + body);
    assert Frame(body)[..k][..|line| + 2] == line + "\r\n";
  }

  lemma CutInLengthLine(body: Body, k: nat, json: Grammar)
    requires k <= |"Content-Length: " + Decimal(|body|)| + 1
    ensures k <= |Frame(body)| && Read(Frame(body)[..k], json).0 == EndOfStream
  {
    var digits := Decimal(|body|);
    var line := "Content-Length: " + digits + "\r";
    assert Frame(body) == line + ("\n\r\n" + body);
    assert Frame(body)[..k] == line[..k];
    CutLengthLine(digits, k, json);
  }

  lemma CutLengthLine(digits: string, k: nat, json: Grammar)
    requires (forall c :: c in digits ==> IsDigit(c)) && k <= |"Content-Length: " + digits + "\r"|
    ensures Read(("Content-Length: " + digits + "\r")[..k], json).0 == EndOfStream
  {
    var line := "Content-Length: " + digits + "\r";
    if k > 0 {
      DigitsAreNoLineEnd(digits);
      assert line[..k][0] == 'C' && '\n' !in line;
      LengthLineIsAscii(digits, k);
      AsciiIsUtf8(line[..k]);
      EndsInFirstLine(line[..k], json);
    }
  }

  lemma CutBehindLengthLine(body: Body, k: nat, after: string)
    requires |"Content-Length: " + Decimal(|body|)| + 2 <= k < |Frame(body)|
    requires after == Frame(body)[..k][|"Content-Length: " + Decimal(|body|)| + 2..]
    ensures ReadHeaders(after, Some(|body|)) == CutHeaders(body, after)
    ensures |after| >= 2 ==> |after[2..]| < |body|
  {
    var line := "Content-Length: " + Decimal(|body|);
    assert Frame(body) == line + "\r\n" + ("\r\n" + body);
    assert after == ("\r\n" + body)[..k - |line| - 2];
    if |after| == 1 {
      assert after == "\r";
      LoneReturn(Some(|body|));
    } else if |after| >= 2 {
      assert after == "\r\n" + after[2..];
      ReadEmptyLine(after[2..], Some(|body|));
    }
  }

  lemma LoneReturn(length: Option<nat>)
    ensures ReadHeaders("\r", length) == Complete(length, [])
  {
    LineEndsAtFeed("\r", "");
    AsciiIsUtf8("\r");
    assert "\r"[..1] == "\r" && "\r"[1..] == [] && "\r"[..0] == [];
  }

  /** What is read of `s` is some of `bodies`, from the first and in order, and what ends
      it is the end of the stream or a body cut short. */
  predicate ReadsPrefix(s: string, bodies: seq<Body>, json: Grammar) {
    var (read, last) := ReadAll(s, json);
    read <= bodies && (last.EndOfStream? || last.ShortBody?)
  }

  lemma CutInFirstFrame(bodies: seq<Body>, k: nat, json: Grammar)
    requires bodies != [] && bodies[0] != [] && k < |Frame(bodies[0])|
    ensures ReadsPrefix(Frame(bodies[0])[..k], bodies, json)
  {
    CutFrame(bodies[0], k, json);
    ReadAllStops(Frame(bodies[0])[..k], json);
  }

  lemma FrameThenPrefix(bodies: seq<Body>, more: string, json: Grammar)
    requires bodies != [] && json(bodies[0]) && ReadsPrefix(more, bodies[1..], json)
    ensures ReadsPrefix(Frame(bodies[0]) + more, bodies, json)
  {
    ReadAllFromFrame(bodies[0], more, json);
    PrefixGrows(ReadAll(more, json).0, bodies);
  }

  lemma PrefixGrows(read: seq<string>, bodies: seq<Body>)
    requires bodies != [] && read <= bodies[1..]
    ensures [bodies[0]] + read <= bodies
  {
  }

  /** However a stream of frames is cut, no message is read that was not written whole. */
  lemma {:induction false} CutStreamReadsPrefix(bodies: seq<Body>, k: nat, json: Grammar)
    requires k <= |Frames(bodies)|
    requires AllJson(bodies, json) && !json([])
    ensures ReadsPrefix(Frames(bodies)[..k], bodies, json)
    decreases |bodies|
  {
    var s := Frames(bodies)[..k];
    if bodies == [] {
      assert Read(s, json) == (EndOfStream, "");
    } else {
      var frame := Frame(bodies[0]);
      if k < |frame| {
        assert s == frame[..k] && bodies[0] != [];
        CutInFirstFrame(bodies, k, json);
      } else {
        var more := Frames(bodies[1..])[..k - |frame|];
        assert s == frame + more;
        CutStreamReadsPrefix(bodies[1..], k - |frame|, json);
        FrameThenPrefix(bodies, more, json);
      }
    }
  }
}
