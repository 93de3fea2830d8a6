/** File URIs: the few characters the session escapes, and the decoding of what a
    server sends back. */
module Uri {
  import opened Wrappers

  const SCHEME := "file://"

  predicate IsEscaped(c: char) {
    c == ' ' || c == '#' || c == '?'
  }

  function EncodeChar(c: char): string {
    if c == ' ' then "%20" else if c == '#' then "%23" else if c == '?' then "%3F" else [c]
  }

  function Encode(path: string): string {
    if path == [] then [] else EncodeChar(path[0]) + Encode(path[1..])
  }

  function PathToFileUri(path: string): string {
    SCHEME + Encode(path)
  }

  function HexValue(c: char): Option<nat> {
    if '0' <= c <= '9' then Some(c as nat - '0' as nat)
    else if 'a' <= c <= 'f' then Some(c as nat - 'a' as nat + 10)
    else if 'A' <= c <= 'F' then Some(c as nat - 'A' as nat + 10)
    else None
  }

  /** Two characters read as a base-16 byte; a plus sign may stand for the first digit. */
  function Byte(hi: char, lo: char): (b: Option<nat>)
    ensures b.Some? ==> b.value < 256
  {
    var l := HexValue(lo);
    if l.None? then None
    else if hi == '+' then l
    else if HexValue(hi).Some? then Some(16 * HexValue(hi).value + l.value)
    else None
  }

  const DIGITS := "0123456789abcdef"
  const UPPER := "0123456789ABCDEF"

  lemma HexReadsBack(d: nat)
    requires d < 16
    ensures HexValue(DIGITS[d]) == Some(d) && HexValue(UPPER[d]) == Some(d)
  {
  }

  /** Every byte is read back from its two digits, in either case. */
  lemma ByteReadsBack(b: nat)
    requires b < 256
    ensures Byte(DIGITS[b / 16], DIGITS[b % 16]) == Some(b) == Byte(UPPER[b / 16], UPPER[b % 16])
  {
    DigitsMakeByte(b / 16, b % 16);
  }

  lemma DigitsMakeByte(h: nat, l: nat)
    requires h < 16 && l < 16
    ensures Byte(DIGITS[h], DIGITS[l]) == Some(16 * h + l) == Byte(UPPER[h], UPPER[l])
  {
    HexReadsBack(h);
    HexReadsBack(l);
    assert '+' !in DIGITS && '+' !in UPPER;
  }

  /** What is no digit is read as none, but for a plus sign in front. */
  lemma OtherBytesAreNone(hi: char, lo: char)
    ensures lo !in DIGITS && lo !in UPPER ==> Byte(hi, lo) == None
    ensures hi !in DIGITS && hi !in UPPER && hi != '+' ==> Byte(hi, lo) == None
    ensures Byte('+', lo) == Byte('0', lo)
  {
    NoDigit(hi);
    NoDigit(lo);
  }

  lemma NoDigit(c: char)
    ensures c !in DIGITS && c !in UPPER ==> HexValue(c) == None
  {
    if HexValue(c).Some? {
      var d := HexValue(c).value;
      assert DIGITS[d] == c || UPPER[d] == c;
    }
  }

  function Min(a: nat, b: nat): nat {
    if a < b then a else b
  }

  predicate Decodes(s: string) {
    |s| >= 3 && s[0] == '%' && Byte(s[1], s[2]).Some?
  }

  /** How many characters decoding takes at once: a percent sign goes with the next two. */
  function Taken(s: string): (n: nat)
    requires s != []
    ensures 0 < n <= |s|
  {
    if s[0] == '%' then Min(3, |s|) else 1
  }

  function Piece(s: string): string
    requires s != []
  {
    if Decodes(s) then [Byte(s[1], s[2]).value as char] else s[..Taken(s)]
  }

  function Decode(s: string): string
    decreases |s|
  {
    if s == [] then [] else Piece(s) + Decode(s[Taken(s)..])
  }

  function UriToPath(uri: string): string {
    Decode(if SCHEME <= uri then uri[|SCHEME|..] else uri)
  }

  // ---------------------------------------------------------------- the loops

  lemma {:induction false} EncodeConcat(a: string, b: string)
    ensures Encode(a + b) == Encode(a) + Encode(b)
  {
    if a == [] {
      assert a + b == b;
    } else {
      assert (a + b)[1..] == a[1..] + b;
      EncodeConcat(a[1..], b);
    }
  }

  lemma EncodeNext(path: string, i: nat)
    requires i < |path|
    ensures Encode(path[..i + 1]) == Encode(path[..i]) + EncodeChar(path[i])
    ensures SCHEME + Encode(path[..i + 1]) == SCHEME + Encode(path[..i]) + EncodeChar(path[i])
  {
    assert path[..i + 1] == path[..i] + [path[i]];
    EncodeConcat(path[..i], [path[i]]);
    EncodeOne(path[i]);
  }

  method EncodeLoop(path: string) returns (uri: string)
    ensures uri == PathToFileUri(path)
  {
    uri := SCHEME;
    for i := 0 to |path|
      invariant uri == SCHEME + Encode(path[..i])
    {
      EncodeNext(path, i);
      var c := path[i];
      if c == ' ' {
        uri := uri + "%20";
      } else if c == '#' {
        uri := uri + "%23";
      } else if c == '?' {
        uri := uri + "%3F";
      } else {
        uri := uri + [c];
      }
    }
    assert path[..|path|] == path;
  }

  /** What follows a percent sign just taken at `i - 1`: up to two more characters,
      read as a byte or else kept with the sign. */
  method TakeEscape(rest: string, i: nat) returns (piece: string, next: nat)
    requires 0 < i <= |rest| && rest[i - 1] == '%'
    ensures next == i - 1 + Taken(rest[i - 1..]) && piece == Piece(rest[i - 1..])
  {
    var hi, lo := None, None;
    next := i;
    if next < |rest| {
      hi := Some(rest[next]);
      next := next + 1;
    }
    if next < |rest| {
      lo := Some(rest[next]);
      next := next + 1;
    }
    if hi.Some? && lo.Some? && Byte(hi.value, lo.value).Some? {
      return [Byte(hi.value, lo.value).value as char], next;
    }
    piece := ['%'];
    if hi.Some? {
      piece := piece + [hi.value];
    }
    if lo.Some? {
      piece := piece + [lo.value];
    }
  }

  lemma PieceTaken(path: string, rest: string, i: nat)
    requires i < |rest|
    ensures rest[i] != '%' ==> Piece(rest[i..]) == [rest[i]] && Taken(rest[i..]) == 1
    ensures path + Decode(rest[i..]) == (path + Piece(rest[i..])) + Decode(rest[i + Taken(rest[i..])..])
  {
    var tail := rest[i..];
    assert rest[i + Taken(tail)..] == tail[Taken(tail)..];
  }

  method DecodeLoop(uri: string) returns (path: string)
    ensures path == UriToPath(uri)
  {
    var rest := if SCHEME <= uri then uri[|SCHEME|..] else uri;
    path := [];
    var i := 0;
    while i < |rest|
      invariant i <= |rest|
      invariant path + Decode(rest[i..]) == Decode(rest)
    {
      PieceTaken(path, rest, i);
      if rest[i] == '%' {
        var piece, next := TakeEscape(rest, i + 1);
        assert next == i + Taken(rest[i..]) && piece == Piece(rest[i..]);
        path := path + piece;
        i := next;
      } else {
        assert Taken(rest[i..]) == 1 && Piece(rest[i..]) == [rest[i]];
        path := path + [rest[i]];
        i := i + 1;
      }
    }
    assert rest[i..] == [];
  }

  /** A concrete path and its URI, and an escape in what is no file URI. */
  lemma UriLooksLike()
    ensures PathToFileUri("/ ") == "file:///%20"
    ensures UriToPath("file://%41") == "A" == UriToPath("%41")
  {
    assert "/ "[1..] == " " && " "[1..] == "";
    assert Encode(" ") == "%20" && Encode("/ ") == "/%20";
    DecodesA();
    assert SCHEME <= "file://%41" && "file://%41"[|SCHEME|..] == "%41";
    assert SCHEME[0] != "%41"[0];
  }

  lemma DecodesA()
    ensures Decode("%41") == "A"
  {
    assert "%41"[3..] == "" && Byte('4', '1') == Some(0x41);
  }

  // ---------------------------------------------------------------- when the round trip holds

  /** A path whose percent signs cannot be mistaken for an escape: neither of the two
      characters after one is escaped, and they do not read as a byte. */
  predicate Faithful(path: string)
    decreases |path|
  {
    if path == [] then true
    else if path[0] != '%' then Faithful(path[1..])
    else
      var n := Min(3, |path|);
      (forall i :: 1 <= i < n ==> !IsEscaped(path[i])) && !Decodes(path) && Faithful(path[n..])
  }

  predicate Plain(s: string) {
    forall i :: 0 <= i < |s| ==> !IsEscaped(s[i])
  }

  lemma {:induction false} EncodingIsPlain(path: string)
    ensures Plain(Encode(path))
  {
    if path != [] {
      EncodingIsPlain(path[1..]);
    }
  }

  lemma {:induction false} PlainEncodesAsItself(s: string)
    requires Plain(s)
    ensures Encode(s) == s
  {
    if s != [] {
      PlainEncodesAsItself(s[1..]);
    }
  }

  lemma EncodeOne(c: char)
    ensures Encode([c]) == EncodeChar(c) && 1 <= |EncodeChar(c)| <= 3
  {
    assert Encode([]) == [];
  }

  /** Decoding and encoding again never makes a string without raw escapes longer. */
  lemma {:induction false} DecodeThenEncodeShrinks(s: string)
    requires Plain(s)
    ensures |Encode(Decode(s))| <= |s|
    decreases |s|
  {
    if s != [] {
      var n := if s[0] == '%' then Min(3, |s|) else 1;
      DecodeThenEncodeShrinks(s[n..]);
      if Decodes(s) {
        var c := Byte(s[1], s[2]).value as char;
        EncodeConcat([c], Decode(s[3..]));
        EncodeOne(c);
      } else {
        assert Decode(s) == s[..n] + Decode(s[n..]);
        EncodeConcat(s[..n], Decode(s[n..]));
        PlainEncodesAsItself(s[..n]);
      }
    }
  }

  /** No encoded text decodes to itself behind two more plain characters. */
  lemma NeverLonger(a: char, b: char, path: string)
    requires !IsEscaped(a) && !IsEscaped(b)
    ensures Decode(Encode(path)) != [a, b] + path
  {
    EncodingIsPlain(path);
    DecodeThenEncodeShrinks(Encode(path));
    EncodeConcat([a, b], path);
    PlainEncodesAsItself([a, b]);
  }

  lemma DecodeEscape(c: char, rest: string)
    requires IsEscaped(c)
    ensures Decode(EncodeChar(c) + rest) == [c] + Decode(rest)
  {
    var s := EncodeChar(c) + rest;
    assert s[3..] == rest;
    assert Decodes(s) && Byte(s[1], s[2]).value == c as nat;
  }

  lemma DecodePlain(c: char, rest: string)
    requires c != '%'
    ensures Decode([c] + rest) == [c] + Decode(rest)
  {
    assert ([c] + rest)[1..] == rest;
  }

  /** An escaped character right behind a percent sign hides its own escape. */
  lemma EscapeIsHidden(path: string, i: nat)
    requires path != [] && path[0] == '%' && (i == 1 || i == 2) && i < |path| && IsEscaped(path[i])
    requires i == 2 ==> !IsEscaped(path[1])
    ensures Decode(Encode(path)) != path
  {
    assert path == path[..i] + path[i..];
    EncodeConcat(path[..i], path[i..]);
    PlainEncodesAsItself(path[..i]);
    var tail := Encode(path[i..][1..]);
    assert Encode(path) == path[..i] + (EncodeChar(path[i]) + tail);
    SecondPercentStays(path[..i] + (EncodeChar(path[i]) + tail), i);
  }

  /** A percent sign right behind another is kept as it is. */
  lemma SecondPercentStays(s: string, i: nat)
    requires (i == 1 || i == 2) && |s| >= 3 && s[0] == '%' && s[i] == '%'
    ensures |Decode(s)| >= 3 && Decode(s)[i] == '%'
  {
    assert !Decodes(s) && Piece(s) == s[..3];
  }

  /** Behind a percent sign and two plain characters decoding resumes. */
  lemma DecodeTriple(path: string)
    requires |path| >= 3 && path[0] == '%' && !IsEscaped(path[1]) && !IsEscaped(path[2])
    ensures Decode(Encode(path))
      == (if Decodes(path) then [Byte(path[1], path[2]).value as char] else path[..3]) + Decode(Encode(path[3..]))
  {
    var s := Encode(path);
    assert path == path[..3] + path[3..];
    EncodeConcat(path[..3], path[3..]);
    PlainEncodesAsItself(path[..3]);
    assert s == path[..3] + Encode(path[3..]);
    assert s[3..] == Encode(path[3..]) && s[..3] == path[..3];
  }

  /** The path a server hands back is the path it was given exactly when no percent
      sign in it can be mistaken for an escape. */
  lemma {:induction false} RoundTripsExactly(path: string)
    ensures UriToPath(PathToFileUri(path)) == path <==> Faithful(path)
    decreases |path|
  {
    assert PathToFileUri(path)[|SCHEME|..] == Encode(path);
    DecodesBackExactly(path);
  }

  lemma {:induction false} DecodesBackExactly(path: string)
    ensures Decode(Encode(path)) == path <==> Faithful(path)
    decreases |path|
  {
    if path == [] {
    } else if path[0] != '%' {
      DecodesBackExactly(path[1..]);
      PlainHead(path);
    } else if |path| > 1 && IsEscaped(path[1]) {
      EscapeIsHidden(path, 1);
    } else if |path| > 2 && IsEscaped(path[2]) {
      EscapeIsHidden(path, 2);
    } else if |path| < 3 {
      ShortTail(path);
    } else {
      DecodesBackExactly(path[3..]);
      TripleExactly(path);
    }
  }

  lemma PlainHead(path: string)
    requires path != [] && path[0] != '%'
    ensures Decode(Encode(path)) == path <==> Decode(Encode(path[1..])) == path[1..]
  {
    if IsEscaped(path[0]) {
      DecodeEscape(path[0], Encode(path[1..]));
    } else {
      DecodePlain(path[0], Encode(path[1..]));
    }
    HeadOff(path[0], Decode(Encode(path[1..])), path);
    assert path == [path[0]] + path[1..];
  }

  lemma ShortTail(path: string)
    requires 0 < |path| < 3 && path[0] == '%' && Plain(path)
    ensures Decode(Encode(path)) == path && Faithful(path)
  {
    PlainEncodesAsItself(path);
    assert path[..|path|] == path && path[|path|..] == [];
    assert Decode([]) == [] && Faithful([]);
  }

  lemma TripleExactly(path: string)
    requires |path| >= 3 && path[0] == '%' && !IsEscaped(path[1]) && !IsEscaped(path[2])
    ensures Decode(Encode(path)) == path <==> !Decodes(path) && Decode(Encode(path[3..])) == path[3..]
  {
    DecodeTriple(path);
    if Decodes(path) {
      NeverLonger(path[1], path[2], path[3..]);
      LostTriple(Byte(path[1], path[2]).value as char, Decode(Encode(path[3..])), path);
    } else {
      KeptTriple(Decode(Encode(path[3..])), path);
    }
  }

  lemma KeptTriple(rest: string, s: string)
    requires |s| >= 3
    ensures s[..3] + rest == s <==> rest == s[3..]
  {
    assert (s[..3] + rest)[3..] == rest;
    assert s == s[..3] + s[3..];
  }

  lemma LostTriple(c: char, rest: string, s: string)
    requires |s| >= 3 && rest != [s[1], s[2]] + s[3..]
    ensures [c] + rest != s
  {
    HeadOff(c, rest, s);
    assert s[1..] == [s[1], s[2]] + s[3..];
  }

  lemma HeadOff(c: char, rest: string, s: string)
    requires s != []
    ensures [c] + rest == s ==> rest == s[1..]
  {
    assert ([c] + rest)[1..] == rest;
  }

  predicate NoPercent(path: string) {
    forall i :: 0 <= i < |path| ==> path[i] != '%'
  }

  lemma {:induction false} NoPercentIsFaithful(path: string)
    requires NoPercent(path)
    ensures Faithful(path)
  {
    if path != [] {
      NoPercentIsFaithful(path[1..]);
    }
  }

  /** Two faithful paths, so any two without a percent sign, have different URIs. */
  lemma FaithfulPathsHaveOwnUris(a: string, b: string)
    requires (Faithful(a) || NoPercent(a)) && (Faithful(b) || NoPercent(b))
    ensures PathToFileUri(a) == PathToFileUri(b) <==> a == b
  {
    if NoPercent(a) {
      NoPercentIsFaithful(a);
    }
    if NoPercent(b) {
      NoPercentIsFaithful(b);
    }
    RoundTripsExactly(a);
    RoundTripsExactly(b);
  }

  /** Some other path has the same URI. */
  ghost predicate SharesUri(path: string) {
    exists other :: other != path && PathToFileUri(other) == PathToFileUri(path)
  }

  /** The escape of a character, spelled out at `i`. */
  predicate SpelledOut(s: string, i: nat) {
    && i + 3 <= |s| && s[i] == '%'
    && ((s[i + 1] == '2' && (s[i + 2] == '0' || s[i + 2] == '3')) || (s[i + 1] == '3' && s[i + 2] == 'F'))
  }

  /** The path holds a character that is escaped, or an escape of one spelled out. */
  predicate Ambiguous(path: string) {
    !Plain(path) || exists i: nat :: i < |path| && SpelledOut(path, i)
  }

  lemma UrisAgree(a: string, b: string)
    ensures PathToFileUri(a) == PathToFileUri(b) <==> Encode(a) == Encode(b)
  {
    assert PathToFileUri(a)[|SCHEME|..] == Encode(a) && PathToFileUri(b)[|SCHEME|..] == Encode(b);
  }

  lemma {:induction false} EncodeGrows(path: string)
    ensures |Encode(path)| >= |path| && (!Plain(path) ==> |Encode(path)| > |path|)
  {
    if path != [] {
      EncodeGrows(path[1..]);
    }
  }

  /** Where an escape ends up. */
  lemma {:induction false} EscapeIsSpelled(path: string) returns (i: nat)
    requires !Plain(path)
    ensures SpelledOut(Encode(path), i)
  {
    if IsEscaped(path[0]) {
      i := 0;
    } else {
      var k := EscapeIsSpelled(path[1..]);
      assert Encode(path) == [path[0]] + Encode(path[1..]);
      i := k + 1;
    }
  }

  lemma EncodeAround(a: string, c: char, b: string)
    requires Plain(a) && Plain(b)
    ensures Encode(a + [c] + b) == a + EncodeChar(c) + b
  {
    EncodeConcat(a + [c], b);
    EncodeConcat(a, [c]);
    EncodeOne(c);
    PlainEncodesAsItself(a);
    PlainEncodesAsItself(b);
  }

  lemma Around(s: string, i: nat)
    requires i + 3 <= |s|
    ensures s == s[..i] + [s[i], s[i + 1], s[i + 2]] + s[i + 3..]
  {
  }

  /** A spelled-out escape put back to the character it stands for. */
  lemma PutBack(path: string, i: nat) returns (other: string)
    requires Plain(path) && SpelledOut(path, i)
    ensures other != path && Encode(other) == Encode(path)
  {
    var c := if path[i + 1] == '3' then '?' else if path[i + 2] == '0' then ' ' else '#';
    other := path[..i] + [c] + path[i + 3..];
    EncodeAround(path[..i], c, path[i + 3..]);
    PlainEncodesAsItself(path);
    assert EncodeChar(c) == [path[i], path[i + 1], path[i + 2]];
    Around(path, i);
    assert |other| == |path| - 2;
  }

  /** A path shares its URI with another exactly when it holds a character that is escaped
      or the spelled-out escape of one. */
  lemma SharesUriExactly(path: string)
    ensures SharesUri(path) <==> Ambiguous(path)
  {
    if !Plain(path) {
      EncodeGrows(path);
      EncodingIsPlain(path);
      PlainEncodesAsItself(Encode(path));
      UrisAgree(Encode(path), path);
      assert Encode(path) != path;
    } else if Ambiguous(path) {
      var i: nat :| i < |path| && SpelledOut(path, i);
      var other := PutBack(path, i);
      UrisAgree(other, path);
    } else {
      PlainEncodesAsItself(path);
      forall other | PathToFileUri(other) == PathToFileUri(path) ensures other == path {
        UrisAgree(other, path);
        PlainOrSpelled(other);
      }
    }
  }

  lemma PlainOrSpelled(path: string)
    ensures Encode(path) == path || Ambiguous(Encode(path))
  {
    if Plain(path) {
      PlainEncodesAsItself(path);
    } else {
      var i := EscapeIsSpelled(path);
    }
  }

  /** A name with a space and the same name with the escape spelled out share a URI. */
  lemma SpelledOutEscapeCollides()
    ensures PathToFileUri("a b") == PathToFileUri("a%20b")
    ensures UriToPath(PathToFileUri("a%20b")) == "a b"
  {
    assert Encode("a b") == "a%20b" by {
      assert "a b"[1..] == " b" && " b"[1..] == "b" && "b"[1..] == "";
      assert Encode("b") == "b" && Encode(" b") == "%20b";
    }
    PlainEncodesAsItself("a%20b");
    RoundTripsExactly("a b");
    NoPercentIsFaithful("a b");
  }
}

/** The document rules on the wire, where a document is named by its URI. */
module UriTrace {
  import opened Paths
  import opened Session
  import opened Protocol
  import Requests
  import Uri

  /** A component a file system allows: not empty, and without a separator. */
  predicate IsName(c: string) {
    c != [] && '/' !in c
  }

  predicate IsFilePath(p: Path) {
    IsAbsolute(p) && forall i :: 1 <= i < |p| ==> IsName(p[i])
  }

  function Joined(names: seq<string>): string {
    if names == [] then [] else "/" + names[0] + Joined(names[1..])
  }

  /** An absolute path as text. */
  function Display(p: Path): string
    requires IsAbsolute(p)
  {
    if |p| == 1 then "/" else Joined(p[1..])
  }

  lemma PathLooksLike()
    ensures Display([ROOT, "a", "b"]) == "/a/b"
  {
    assert [ROOT, "a", "b"][1..] == ["a", "b"] && ["a", "b"][1..] == ["b"];
    assert Joined(["b"]) == "/b" && Joined(["a", "b"]) == "/a/b";
  }

  function Head(text: string): nat {
    if text == [] || text[0] == '/' then 0 else 1 + Head(text[1..])
  }

  lemma {:induction false} HeadOfName(c: string, rest: string)
    requires '/' !in c && (rest == [] || rest[0] == '/')
    ensures Head(c + rest) == |c|
  {
    if c == [] {
      assert c + rest == rest;
    } else {
      assert (c + rest)[1..] == c[1..] + rest;
      HeadOfName(c[1..], rest);
    }
  }

  predicate Names(names: seq<string>) {
    forall i :: 0 <= i < |names| ==> IsName(names[i])
  }

  lemma NameThenRest(a: string, ra: string, b: string, rb: string)
    requires '/' !in a && (ra == [] || ra[0] == '/') && '/' !in b && (rb == [] || rb[0] == '/')
    requires a + ra == b + rb
    ensures a == b && ra == rb
  {
    HeadOfName(a, ra);
    HeadOfName(b, rb);
    assert a == (a + ra)[..|a|] && b == (b + rb)[..|b|];
    assert ra == (a + ra)[|a|..] && rb == (b + rb)[|b|..];
  }

  lemma {:induction false} JoinedIsInjective(a: seq<string>, b: seq<string>)
    requires Names(a) && Names(b) && Joined(a) == Joined(b)
    ensures a == b
  {
    if a != [] && b != [] {
      var ra, rb := Joined(a[1..]), Joined(b[1..]);
      assert Joined(a)[1..] == a[0] + ra && Joined(b)[1..] == b[0] + rb;
      assert IsName(a[0]) && IsName(b[0]);
      NameThenRest(a[0], ra, b[0], rb);
      JoinedIsInjective(a[1..], b[1..]);
      assert a == [a[0]] + a[1..] && b == [b[0]] + b[1..];
    }
  }

  lemma OnlyRootIsShort(p: Path)
    requires IsFilePath(p)
    ensures |Display(p)| == 1 <==> |p| == 1
  {
    if |p| > 1 {
      assert IsName(p[1..][0]);
    }
  }

  lemma DisplayIsInjective(a: Path, b: Path)
    requires IsFilePath(a) && IsFilePath(b) && Display(a) == Display(b)
    ensures a == b
  {
    OnlyRootIsShort(a);
    OnlyRootIsShort(b);
    if |a| > 1 {
      JoinedIsInjective(a[1..], b[1..]);
    }
    assert a == [ROOT] + a[1..] && b == [ROOT] + b[1..];
  }

  /** The name a document goes by on the wire, as a name of one component. */
  function Named(p: Path): Path {
    [Uri.PathToFileUri(if IsAbsolute(p) then Display(p) else [])]
  }

  function OnWire(n: Note): Note {
    match n
    case DidOpen(p, v, text) => DidOpen(Named(p), v, text)
    case DidChange(p, v, text) => DidChange(Named(p), v, text)
    case DidClose(p) => DidClose(Named(p))
    case WatchedFilesChanged(ps) => WatchedFilesChanged(seq(|ps|, i requires 0 <= i < |ps| => Named(ps[i])))
  }

  function Wire(trace: seq<Note>): seq<Note> {
    seq(|trace|, i requires 0 <= i < |trace| => OnWire(trace[i]))
  }

  /** A notification about one document. */
  predicate IsAbout(n: Note) {
    !n.WatchedFilesChanged?
  }

  /** The document a notification is about has a URI no other such document has. */
  predicate Distinguished(trace: seq<Note>) {
    forall i, j :: 0 <= i < |trace| && 0 <= j < |trace| && IsAbout(trace[i]) && IsAbout(trace[j]) ==>
      (Named(trace[i].path) == Named(trace[j].path) ==> trace[i].path == trace[j].path)
  }

  /** Notification `n` opens a document while another one of its URI is open. */
  ghost predicate OpensTwin(trace: seq<Note>, n: nat)
    requires n < |trace|
  {
    trace[n].DidOpen? && exists q :: q != trace[n].path && Named(q) == Named(trace[n].path) && OpenAt(trace, n, q)
  }

  ghost predicate NoTwinsUpTo(trace: seq<Note>, n: nat)
    requires n <= |trace|
  {
    forall m :: 0 <= m < n ==> !OpensTwin(trace, m)
  }

  /** No document is opened while another one of its URI is open. */
  ghost predicate OpensNoTwin(trace: seq<Note>) {
    NoTwinsUpTo(trace, |trace|)
  }

  lemma {:induction false} OneOfAName(trace: seq<Note>, n: nat, p: Path, q: Path)
    requires n <= |trace| && NoTwinsUpTo(trace, n)
    requires OpenAt(trace, n, p) && OpenAt(trace, n, q) && Named(p) == Named(q)
    ensures p == q
  {
    OpenAtNext(trace, n - 1, p);
    OpenAtNext(trace, n - 1, q);
    assert !OpensTwin(trace, n - 1);
    if !Opens(trace[n - 1], p) && !Opens(trace[n - 1], q) {
      OneOfAName(trace, n - 1, p, q);
    }
  }

  /** While no twin was opened, a URI is open on the wire when some document of it is. */
  lemma {:induction false} OpenOnWire(trace: seq<Note>, n: nat, name: Path)
    requires n <= |trace| && AlternatesUpTo(trace, n) && NoTwinsUpTo(trace, n)
    ensures OpenAt(Wire(trace), n, name) <==> exists q :: Named(q) == name && OpenAt(trace, n, q)
  {
    if n > 0 {
      var m := n - 1;
      OpenOnWire(trace, m, name);
      OpenAtNext(Wire(trace), m, name);
      forall q | Named(q) == name
        ensures OpenAt(trace, n, q) <==> Opens(trace[m], q) || (OpenAt(trace, m, q) && !Closes(Wire(trace)[m], name))
      {
        OpenAtNext(trace, m, q);
        if OpenAt(trace, m, q) && trace[m].DidClose? && Named(trace[m].path) == name {
          assert Alternates(trace, m);
          OneOfAName(trace, m, q, trace[m].path);
        }
      }
      if Opens(Wire(trace)[m], name) {
        assert Named(trace[m].path) == name && OpenAt(trace, n, trace[m].path);
      }
    }
  }

  /** A document versioned and not closed since is the only open one of its URI. */
  lemma VersionedHere(trace: seq<Note>, i: nat, n: nat, p: Path)
    requires i < n <= |trace| && AlternatesUpTo(trace, n) && NoTwinsUpTo(trace, n) && OpenAt(trace, n, p)
    ensures Versions(Wire(trace)[i], Named(p)) && NoCloseBetween(Wire(trace), i, n, Named(p))
      <==> Versions(trace[i], p) && NoCloseBetween(trace, i, n, p)
  {
    if Versions(Wire(trace)[i], Named(p)) && NoCloseBetween(Wire(trace), i, n, Named(p)) {
      var q := trace[i].path;
      forall k | i < k < n ensures !Closes(trace[k], q) && !Closes(trace[k], p) {
        assert !Closes(Wire(trace)[k], Named(p));
      }
      StaysOpen(trace, n, q, i);
      OneOfAName(trace, n, p, q);
    }
    if Versions(trace[i], p) && NoCloseBetween(trace, i, n, p) {
      forall k | i < k < n ensures !Closes(Wire(trace)[k], Named(p)) {
        if Closes(Wire(trace)[k], Named(p)) {
          assert Alternates(trace, k) && NoCloseBetween(trace, i, k, p);
          StaysOpen(trace, k, p, i);
          OneOfAName(trace, k, p, trace[k].path);
        }
      }
    }
  }

  /** Up to the first twin, a notification keeps the rules on the wire when it does by path. */
  lemma SameRules(trace: seq<Note>, n: nat)
    requires n < |trace| && AlternatesUpTo(trace, n + 1) && NoTwinsUpTo(trace, n + 1)
    ensures Alternates(Wire(trace), n)
    ensures Increases(Wire(trace), n) <==> Increases(trace, n)
  {
    assert Alternates(trace, n) && !OpensTwin(trace, n);
    if IsAbout(trace[n]) {
      var p := trace[n].path;
      OpenOnWire(trace, n, Named(p));
      if trace[n].DidChange? {
        forall i | 0 <= i < n
          ensures Versions(Wire(trace)[i], Named(p)) && NoCloseBetween(Wire(trace), i, n, Named(p))
            <==> Versions(trace[i], p) && NoCloseBetween(trace, i, n, p)
          ensures Versions(trace[i], p) ==> Wire(trace)[i].version == trace[i].version
        {
          VersionedHere(trace, i, n, p);
        }
      }
    }
  }

  /** The first twin breaks the rules on the wire. */
  lemma FirstTwinBreaks(trace: seq<Note>, n: nat)
    requires n < |trace| && AlternatesUpTo(trace, n) && NoTwinsUpTo(trace, n) && OpensTwin(trace, n)
    ensures !Alternates(Wire(trace), n)
  {
    OpenOnWire(trace, n, Named(trace[n].path));
  }

  lemma {:induction false} FirstTwin(trace: seq<Note>, n: nat) returns (m: nat)
    requires n <= |trace| && !NoTwinsUpTo(trace, n)
    ensures m < n && NoTwinsUpTo(trace, m) && OpensTwin(trace, m)
  {
    if NoTwinsUpTo(trace, n - 1) {
      m := n - 1;
    } else {
      m := FirstTwin(trace, n - 1);
    }
  }

  /** Read as a trace of URIs, notifications that alternate by path keep the document
      rules exactly when they do as a trace of paths and never open a document while
      another one of its URI is open. */
  lemma RulesOnTheWireExactly(trace: seq<Note>)
    requires AlternatesUpTo(trace, |trace|)
    ensures WellFormedTrace(Wire(trace)) <==> WellFormedTrace(trace) && OpensNoTwin(trace)
  {
    if OpensNoTwin(trace) {
      forall n | 0 <= n < |trace|
        ensures Alternates(Wire(trace), n)
        ensures Increases(Wire(trace), n) <==> Increases(trace, n)
      {
        SameRules(trace, n);
      }
    } else {
      var n := FirstTwin(trace, |trace|);
      FirstTwinBreaks(trace, n);
    }
  }

  lemma DistinguishedOpensNoTwin(trace: seq<Note>)
    requires Distinguished(trace)
    ensures OpensNoTwin(trace)
  {
    forall n | 0 <= n < |trace| ensures !OpensTwin(trace, n) {
      if OpensTwin(trace, n) {
        var q :| q != trace[n].path && Named(q) == Named(trace[n].path) && OpenAt(trace, n, q);
        OpenWasOpened(trace, n, q);
      }
    }
  }

  lemma OpenWasOpened(trace: seq<Note>, n: nat, q: Path)
    requires n <= |trace| && OpenAt(trace, n, q)
    ensures exists i :: 0 <= i < n && IsAbout(trace[i]) && trace[i].path == q
  {
    var i :| 0 <= i < n && Opens(trace[i], q) && NoCloseBetween(trace, i, n, q);
    assert IsAbout(trace[i]) && trace[i].path == q;
  }

  lemma {:induction false} FirstUnfit(trace: seq<Note>, n: nat) returns (m: nat)
    requires n <= |trace| && !AlternatesUpTo(trace, n)
    ensures m < n && AlternatesUpTo(trace, m) && !Alternates(trace, m)
  {
    if AlternatesUpTo(trace, n - 1) {
      m := n - 1;
    } else {
      m := FirstUnfit(trace, n - 1);
    }
  }

  /** Where no two documents of a trace share a URI, any trace at all keeps the rules on
      the wire exactly when it does by path. */
  lemma RulesLiftToUris(trace: seq<Note>)
    requires Distinguished(trace)
    ensures WellFormedTrace(Wire(trace)) <==> WellFormedTrace(trace)
  {
    DistinguishedOpensNoTwin(trace);
    if AlternatesUpTo(trace, |trace|) {
      RulesOnTheWireExactly(trace);
    } else {
      var n := FirstUnfit(trace, |trace|);
      var p := trace[n].path;
      OpenOnWire(trace, n, Named(p));
      forall q | Named(q) == Named(p) && OpenAt(trace, n, q) ensures q == p {
        OpenWasOpened(trace, n, q);
      }
      assert !Alternates(Wire(trace), n);
    }
  }

  /** In every run of any number of requests, what goes on the wire keeps the rules for
      URIs exactly when the counter has not wrapped and no document was opened while
      another one of its URI was open. */
  lemma EveryRunOnTheWireExactly(initial: Requests.System, steps: seq<Requests.Step>)
    requires Requests.Initial(initial) && Requests.Legal(initial, steps)
    ensures var trace := Requests.After(initial, steps).session.trace;
      WellFormedTrace(Wire(trace)) <==> Changes(trace) + 1 < VERSIONS && OpensNoTwin(trace)
  {
    Requests.RunKeepsInv(initial, steps);
    TraceKeepsRulesExactly(Requests.After(initial, steps).session);
    RulesOnTheWireExactly(Requests.After(initial, steps).session.trace);
  }

  /** So with distinct URIs only the counter matters. */
  lemma EveryRunKeepsTheRulesOnTheWire(initial: Requests.System, steps: seq<Requests.Step>)
    requires Requests.Initial(initial) && Requests.Legal(initial, steps)
    requires Distinguished(Requests.After(initial, steps).session.trace)
    ensures WellFormedTrace(Wire(Requests.After(initial, steps).session.trace))
      <==> Changes(Requests.After(initial, steps).session.trace) + 1 < VERSIONS
  {
    EveryRunOnTheWireExactly(initial, steps);
    DistinguishedOpensNoTwin(Requests.After(initial, steps).session.trace);
  }

  /** Documents whose paths hold no percent sign have distinct URIs. */
  lemma PercentFreePathsAreDistinguished(trace: seq<Note>)
    requires forall i :: 0 <= i < |trace| && IsAbout(trace[i]) ==>
      IsFilePath(trace[i].path) && Uri.NoPercent(Display(trace[i].path))
    ensures Distinguished(trace)
  {
    forall i, j | 0 <= i < |trace| && 0 <= j < |trace| && IsAbout(trace[i]) && IsAbout(trace[j])
        && Named(trace[i].path) == Named(trace[j].path)
      ensures trace[i].path == trace[j].path
    {
      Uri.FaithfulPathsHaveOwnUris(Display(trace[i].path), Display(trace[j].path));
      DisplayIsInjective(trace[i].path, trace[j].path);
    }
  }

  /** A document and its spelled-out twin, opened one after the other, are two
      documents by path but one by URI: the rules are kept by path and broken on
      the wire. */
  lemma TwinsBreakTheRules(before: string)
    ensures var a, b := [ROOT, "a b"], [ROOT, "a%20b"];
      var trace := [DidOpen(a, 1, before), DidOpen(b, 1, before)];
      WellFormedTrace(trace) && !WellFormedTrace(Wire(trace))
  {
    var a, b: Path := [ROOT, "a b"], [ROOT, "a%20b"];
    var trace := [DidOpen(a, 1, before), DidOpen(b, 1, before)];
    TwinsShareName();
    assert a[1] != b[1] by {
      assert |a[1]| == 3 && |b[1]| == 5;
    }
    assert !OpenAt(trace, 0, a) && !OpenAt(trace, 1, b);
    var wire := Wire(trace);
    assert Opens(wire[0], Named(b)) && NoCloseBetween(wire, 0, 1, Named(b));
    assert OpenAt(wire, 1, Named(b)) && !Alternates(wire, 1);
  }

  lemma TwinsShareName()
    ensures Named([ROOT, "a b"]) == Named([ROOT, "a%20b"])
  {
    assert [ROOT, "a b"][1..] == ["a b"] && [ROOT, "a%20b"][1..] == ["a%20b"];
    assert Joined(["a b"]) == "/" + "a b" + Joined([]) && Joined(["a%20b"]) == "/" + "a%20b" + Joined([]);
    assert Joined(["a b"]) == "/" + "a b" && Joined(["a%20b"]) == "/" + "a%20b";
    Uri.EncodeConcat("/", "a b");
    Uri.EncodeConcat("/", "a%20b");
    Uri.SpelledOutEscapeCollides();
    assert Uri.PathToFileUri("a b")[|Uri.SCHEME|..] == Uri.Encode("a b");
    assert Uri.PathToFileUri("a%20b")[|Uri.SCHEME|..] == Uri.Encode("a%20b");
  }
}
