/** Content-Length framing (crates/rocket-surgeon-transport/src/framing.rs). */
module Framing {
  import opened Prelude
  import opened Bits
  import opened Grammar

  const MAX_MESSAGE_BYTES: nat := 0x100_0000

  datatype FramingError = Eof | InvalidData | MissingContentLength | InvalidContentLength | MessageTooLarge(size: nat)

  type Bytes = seq<Byte>

  /** The bytes of a text whose characters are all below 256. */
  function Ascii(s: string): (b: Bytes)
    ensures |b| == |s| && forall i :: 0 <= i < |s| ==> b[i] == s[i] as int % 256
  {
    seq(|s|, i requires 0 <= i < |s| => s[i] as int % 256)
  }

  /** Header bytes read as text. */
  function Text(b: Bytes): (s: string)
    ensures |s| == |b| && forall i :: 0 <= i < |b| ==> s[i] == b[i] as char
  {
    seq(|b|, i requires 0 <= i < |b| => b[i] as char)
  }

  // ----- lines -----

  /** The length of the first line including its newline, or of everything when there is none. */
  function LineLength(b: Bytes): (n: nat)
    ensures n <= |b| && (b != [] ==> n > 0)
  {
    if b == [] then 0 else if b[0] == 10 then 1 else 1 + LineLength(b[1..])
  }

  predicate IsLineEnd(c: char) { c == '\r' || c == '\n' }

  /** `trim_end_matches(['\r', '\n'])`. */
  function TrimEnd(s: string): string {
    if s != [] && IsLineEnd(s[|s| - 1]) then TrimEnd(s[..|s| - 1]) else s
  }

  predicate IsSpace(c: char) { c == ' ' || '\t' <= c <= '\r' }

  /** `trim`, for the ASCII white space. */
  function Trim(s: string): string {
    if s != [] && IsSpace(s[0]) then Trim(s[1..])
    else if s != [] && IsSpace(s[|s| - 1]) then Trim(s[..|s| - 1])
    else s
  }

  /** The position of the first colon. */
  function Colon(s: string): (r: Option<nat>)
    ensures r.Some? ==> r.value < |s|
  {
    if s == [] then None
    else if s[0] == ':' then Some(0)
    else match Colon(s[1..]) case None => None case Some(k) => Some(k + 1)
  }

  function Lower(c: char): char {
    if 'A' <= c <= 'Z' then (c as int + 32) as char else c
  }

  predicate EqIgnoreCase(a: string, b: string) {
    |a| == |b| && forall i :: 0 <= i < |a| ==> Lower(a[i]) == Lower(b[i])
  }

  /** `parse::<usize>`, which takes a leading plus sign. */
  function ParseUsize(s: string): Option<nat> {
    var digits := if s != [] && s[0] == '+' then s[1..] else s;
    if digits == [] || !AllDigits(digits) || Value(digits) >= U64_LIMIT then None else Some(Value(digits))
  }

  /** What a header line contributes: nothing, a length, or an error. */
  function LineValue(line: string): Option<Option<nat>> {
    match Colon(line)
    case None => None
    case Some(k) =>
      if EqIgnoreCase(line[..k], "content-length") then Some(ParseUsize(Trim(line[k + 1..]))) else None
  }

  // ----- reading -----

  /**
   The header loop: the content length seen, if any, or an error, and what is left of the stream.
   A line that cannot be used has been read all the same.
   */
  function ReadHeaders(stream: Bytes, utf8: Bytes -> bool, seen: Option<nat>): (Result<Option<nat>, FramingError>, Bytes) {
    if stream == [] then (Err(Eof), [])
    else
      var n := LineLength(stream);
      if !utf8(stream[..n]) then (Err(InvalidData), stream[n..])
      else
        var line := TrimEnd(Text(stream[..n]));
        if line == [] then (Ok(seen), stream[n..])
        else
          match LineValue(line)
          case None => ReadHeaders(stream[n..], utf8, seen)
          case Some(None) => (Err(InvalidContentLength), stream[n..])
          case Some(Some(length)) => ReadHeaders(stream[n..], utf8, Some(length))
  }

  /** The body behind the headers. A body cut short is read up to the end of the stream. */
  function ReadBody(length: Option<nat>, rest: Bytes, utf8: Bytes -> bool): (Result<Bytes, FramingError>, Bytes) {
    if length.None? then (Err(MissingContentLength), rest)
    else if length.value > MAX_MESSAGE_BYTES then (Err(MessageTooLarge(length.value)), rest)
    else if |rest| < length.value then (Err(Eof), [])
    else if !utf8(rest[..length.value]) then (Err(InvalidData), rest[length.value..])
    else (Ok(rest[..length.value]), rest[length.value..])
  }

  /** `read_message`: the body or an error, and what is left of the stream. `utf8` stands for UTF-8 validity. */
  function Read(stream: Bytes, utf8: Bytes -> bool): (Result<Bytes, FramingError>, Bytes) {
    match ReadHeaders(stream, utf8, None)
    case (Err(e), rest) => (Err(e), rest)
    case (Ok(length), rest) => ReadBody(length, rest, utf8)
  }

  predicate IsTail(rest: Bytes, stream: Bytes) {
    |rest| <= |stream| && rest == stream[|stream| - |rest|..]
  }

  lemma TailOfTail(rest: Bytes, stream: Bytes, n: nat)
    requires n <= |stream| && IsTail(rest, stream[n..])
    ensures IsTail(rest, stream)
  {
  }

  /** One line: the loop ends right behind it, or goes on from there. */
  lemma OneLine(stream: Bytes, utf8: Bytes -> bool, seen: Option<nat>) returns (seen': Option<nat>)
    requires stream != []
    ensures var (r, rest), n := ReadHeaders(stream, utf8, seen), LineLength(stream);
            || (r, rest) == ReadHeaders(stream[n..], utf8, seen')
            || (rest == stream[n..] && r != Err(Eof))
  {
    var value := LineValue(TrimEnd(Text(stream[..LineLength(stream)])));
    seen' := if value.Some? then value.value else seen;
  }

  lemma {:induction false} HeadersLeave(stream: Bytes, utf8: Bytes -> bool, seen: Option<nat>)
    ensures var (r, rest) := ReadHeaders(stream, utf8, seen);
            && IsTail(rest, stream) && (stream != [] ==> |rest| < |stream|)
            && (r == Err(Eof) ==> rest == [])
  {
    if stream != [] {
      var n := LineLength(stream);
      var seen' := OneLine(stream, utf8, seen);
      HeadersLeave(stream[n..], utf8, seen');
      TailOfTail(ReadHeaders(stream, utf8, seen).1, stream, n);
    }
  }

  /** How a read that got past the headers ends, and what it leaves. */
  predicate BodyLeft(length: Option<nat>, behind: Bytes, r: Result<Bytes, FramingError>, rest: Bytes) {
    match r
    case Ok(body) => length == Some(|body|) && |body| <= MAX_MESSAGE_BYTES && behind == body + rest
    case Err(MissingContentLength) => length == None && rest == behind
    case Err(MessageTooLarge(size)) => length == Some(size) && size > MAX_MESSAGE_BYTES && rest == behind
    case Err(Eof) => length.Some? && |behind| < length.value && rest == []
    case Err(InvalidData) => length.Some? && length.value <= |behind| && rest == behind[length.value..]
    case Err(InvalidContentLength) => false
  }

  lemma BodyLeaves(length: Option<nat>, behind: Bytes, utf8: Bytes -> bool)
    ensures var (r, rest) := ReadBody(length, behind, utf8); BodyLeft(length, behind, r, rest) && IsTail(rest, behind)
  {
  }

  /**
   Where a read leaves the stream: always further on. A message refused for its length, or for
   giving none, is left unread, so that the next read takes its body for headers; a body cut
   short is used up, and so is one that is no text.
   */
  lemma ReadLeaves(stream: Bytes, utf8: Bytes -> bool)
    ensures var (r, rest) := Read(stream, utf8);
            var (header, behind) := ReadHeaders(stream, utf8, None);
            && IsTail(rest, stream) && (stream != [] ==> |rest| < |stream|)
            && match header
               case Ok(length) => BodyLeft(length, behind, r, rest)
               case Err(e) => r == Err(e) && rest == behind
  {
    HeadersLeave(stream, utf8, None);
    var (header, behind) := ReadHeaders(stream, utf8, None);
    if header.Ok? {
      BodyLeaves(header.value, behind, utf8);
      TailOfTail(Read(stream, utf8).1, stream, |stream| - |behind|);
    }
  }

  /** A stream with a read position, read as `read_message` reads it. */
  class Reader {
    const input: Bytes
    const utf8: Bytes -> bool
    var at: nat

    ghost predicate Valid()
      reads this
    {
      at <= |input|
    }

    constructor (input: Bytes, utf8: Bytes -> bool)
      ensures Valid() && this.input == input && this.utf8 == utf8 && at == 0
    {
      this.input, this.utf8, at := input, utf8, 0;
    }

    /** Reads one line, empty at the end of the stream. */
    method ReadLine() returns (line: Bytes)
      requires Valid()
      modifies this
      ensures Valid() && at == old(at) + LineLength(input[old(at)..])
      ensures line == input[old(at)..at] == input[old(at)..][..LineLength(input[old(at)..])]
      ensures input[at..] == input[old(at)..][LineLength(input[old(at)..])..]
    {
      var n := LineLength(input[at..]);
      line := input[at..at + n];
      at := at + n;
    }

    /** The header loop. */
    method ReadContentLength() returns (r: Result<Option<nat>, FramingError>)
      requires Valid()
      modifies this
      ensures Valid()
      ensures (r, input[at..]) == ReadHeaders(input[old(at)..], utf8, None)
    {
      var contentLength: Option<nat> := None;
      while true
        invariant Valid()
        invariant ReadHeaders(input[at..], utf8, contentLength) == ReadHeaders(input[old(at)..], utf8, None)
        decreases |input| - at
      {
        var line := ReadLine();
        if line == [] {
          return Err(Eof);
        }
        if !utf8(line) {
          return Err(InvalidData);
        }
        var trimmed := TrimEnd(Text(line));
        if trimmed == [] {
          return Ok(contentLength);
        }
        var value := LineValue(trimmed);
        if value.Some? {
          if value.value.None? {
            return Err(InvalidContentLength);
          }
          contentLength := value.value;
        }
      }
    }

    /** `read_exact`, which runs into the end of a stream that is too short. */
    method ReadExact(n: nat) returns (r: Result<Bytes, FramingError>)
      requires Valid()
      modifies this
      ensures Valid()
      ensures var rest := input[old(at)..];
              (r, input[at..]) == if |rest| < n then (Err(Eof), []) else (Ok(rest[..n]), rest[n..])
    {
      if |input| - at < n {
        at := |input|;
        assert input[at..] == [];
        return Err(Eof);
      }
      r := Ok(input[at..at + n]);
      assert r.value == input[at..][..n];
      at := at + n;
      assert input[at..] == input[old(at)..][n..];
    }

    method ReadMessage() returns (r: Result<Bytes, FramingError>)
      requires Valid()
      modifies this
      ensures Valid()
      ensures (r, input[at..]) == Read(input[old(at)..], utf8)
    {
      var header := ReadContentLength();
      if header.Err? {
        return Err(header.error);
      }
      var contentLength := header.value;
      if contentLength.None? {
        return Err(MissingContentLength);
      }
      if contentLength.value > MAX_MESSAGE_BYTES {
        return Err(MessageTooLarge(contentLength.value));
      }
      r := ReadExact(contentLength.value);
      if r.Ok? && !utf8(r.value) {
        return Err(InvalidData);
      }
    }
  }

  // ----- writing -----

  function HeaderLine(body: Bytes): string { "Content-Length: " + Decimal(|body|) }

  /** `write_message`. */
  function Written(body: Bytes): Bytes {
    Ascii(HeaderLine(body) + "\r\n\r\n") + body
  }

  function AllWritten(bodies: seq<Bytes>): Bytes {
    if bodies == [] then [] else Written(bodies[0]) + AllWritten(bodies[1..])
  }

  // ----- reading back -----

  ghost predicate AcceptsAscii(utf8: Bytes -> bool) {
    forall b: Bytes :: (forall i :: 0 <= i < |b| ==> b[i] < 128) ==> utf8(b)
  }

  lemma {:induction false} LineLengthIs(b: Bytes, n: nat)
    requires n < |b| && b[n] == 10 && forall i :: 0 <= i < n ==> b[i] != 10
    ensures LineLength(b) == n + 1
  {
    if n > 0 {
      LineLengthIs(b[1..], n - 1);
    }
  }

  lemma TrimLineEnd(s: string)
    requires s == [] || !IsLineEnd(s[|s| - 1])
    ensures TrimEnd(s + "\r\n") == s
  {
    assert (s + "\r\n")[..|s| + 1] == s + "\r";
    assert (s + "\r")[..|s|] == s;
    assert TrimEnd(s) == s;
    assert TrimEnd(s + "\r") == s;
  }

  lemma {:induction false} ColonAt(x: string, y: string)
    requires forall i :: 0 <= i < |x| ==> x[i] != ':'
    ensures Colon(x + (":" + y)) == Some(|x|)
  {
    if x != [] {
      assert (x + (":" + y))[1..] == x[1..] + (":" + y);
      ColonAt(x[1..], y);
    } else {
      assert x + (":" + y) == ":" + y;
    }
  }

  lemma TrimDigits(d: string)
    requires d != [] && AllDigits(d)
    ensures Trim(" " + d) == d && ParseUsize(d) == if Value(d) < U64_LIMIT then Some(Value(d)) else None
  {
    assert d[0] in d && d[|d| - 1] in d;
    assert (" " + d)[1..] == d;
    assert Trim(d) == d;
  }

  lemma LineValueAt(line: string, k: nat, digits: string)
    requires Colon(line) == Some(k) && EqIgnoreCase(line[..k], "content-length")
    requires line[k + 1..] == " " + digits && digits != [] && AllDigits(digits) && Value(digits) < U64_LIMIT
    ensures LineValue(line) == Some(Some(Value(digits)))
  {
    TrimDigits(digits);
  }

  /** The header line the writer makes yields the length it was made from. */
  lemma HeaderLineValue(body: Bytes)
    requires |body| < U64_LIMIT
    ensures LineValue(HeaderLine(body)) == Some(Some(|body|))
  {
    var d := Decimal(|body|);
    var line := HeaderLine(body);
    assert line == "Content-Length" + (":" + (" " + d));
    ColonAt("Content-Length", " " + d);
    assert line[..14] == "Content-Length" && line[15..] == " " + d;
    ValueOfDecimal(|body|);
    LineValueAt(line, 14, d);
  }

  lemma TextOfAscii(s: string)
    requires forall i :: 0 <= i < |s| ==> s[i] as int < 128
    ensures Text(Ascii(s)) == s
  {
  }

  /** One line of ASCII text and what follows it. */
  lemma LineRead(text: string, rest: Bytes, utf8: Bytes -> bool, stream: Bytes)
    requires AcceptsAscii(utf8) && stream == Ascii(text + "\r\n") + rest
    requires forall i :: 0 <= i < |text| ==> text[i] as int < 128 && !IsLineEnd(text[i])
    ensures var n := LineLength(stream);
            && n == |text| + 2 && utf8(stream[..n]) && stream[n..] == rest && TrimEnd(Text(stream[..n])) == text
  {
    var line := text + "\r\n";
    LineLengthIs(stream, |text| + 1);
    assert stream[..|line|] == Ascii(line);
    TextOfAscii(line);
    TrimLineEnd(text);
  }

  lemma HeaderLineIsAscii(body: Bytes)
    ensures forall i :: 0 <= i < |HeaderLine(body)| ==> HeaderLine(body)[i] as int < 128 && !IsLineEnd(HeaderLine(body)[i])
  {
    var d, line := Decimal(|body|), HeaderLine(body);
    forall i | 0 <= i < |line| ensures line[i] as int < 128 && !IsLineEnd(line[i]) {
      if i >= 16 {
        assert line[i] == d[i - 16];
        assert d[i - 16] in d;
      }
    }
  }

  lemma AsciiConcat(x: string, y: string)
    ensures Ascii(x + y) == Ascii(x) + Ascii(y)
  {
  }

  lemma WrittenSplits(body: Bytes, rest: Bytes)
    ensures Written(body) + rest == Ascii(HeaderLine(body) + "\r\n") + (Ascii("" + "\r\n") + (body + rest))
  {
    var line := HeaderLine(body);
    assert line + "\r\n\r\n" == (line + "\r\n") + ("" + "\r\n");
    AsciiConcat(line + "\r\n", "" + "\r\n");
    var x, y := Ascii(line + "\r\n"), Ascii("" + "\r\n");
    assert x + y + body + rest == x + (y + (body + rest));
  }

  lemma HeadersReadBack(body: Bytes, rest: Bytes, utf8: Bytes -> bool)
    requires AcceptsAscii(utf8) && |body| < U64_LIMIT
    ensures ReadHeaders(Written(body) + rest, utf8, None) == (Ok(Some(|body|)), body + rest)
  {
    var stream, mid := Written(body) + rest, Ascii("" + "\r\n") + (body + rest);
    WrittenSplits(body, rest);
    HeaderLineIsAscii(body);
    LineRead(HeaderLine(body), mid, utf8, stream);
    HeaderLineValue(body);
    HeaderStep(stream, utf8, None, mid, HeaderLine(body), |body|);
    LineRead("", body + rest, utf8, mid);
    BlankLine(mid, utf8, Some(|body|), body + rest);
  }

  lemma BlankLine(stream: Bytes, utf8: Bytes -> bool, seen: Option<nat>, rest: Bytes)
    requires stream != []
    requires var n := LineLength(stream);
             utf8(stream[..n]) && stream[n..] == rest && TrimEnd(Text(stream[..n])) == ""
    ensures ReadHeaders(stream, utf8, seen) == (Ok(seen), rest)
  {
  }

  lemma HeaderStep(stream: Bytes, utf8: Bytes -> bool, seen: Option<nat>, rest: Bytes, line: string, length: nat)
    requires stream != [] && line != [] && LineValue(line) == Some(Some(length))
    requires var n := LineLength(stream);
             utf8(stream[..n]) && stream[n..] == rest && TrimEnd(Text(stream[..n])) == line
    ensures ReadHeaders(stream, utf8, seen) == ReadHeaders(rest, utf8, Some(length))
  {
  }

  /**
   A written message is read back exactly, with the stream left right behind it, if and only if
   its body is within the reader's limit; a longer one is written all the same and then refused,
   with its body left in the stream.
   */
  lemma ReadBack(body: Bytes, rest: Bytes, utf8: Bytes -> bool)
    requires AcceptsAscii(utf8) && utf8(body) && |body| < U64_LIMIT
    ensures Read(Written(body) + rest, utf8) == (Ok(body), rest) <==> |body| <= 16 * 1024 * 1024
    ensures |body| > 16 * 1024 * 1024 ==>
              Read(Written(body) + rest, utf8) == (Err(MessageTooLarge(|body|)), body + rest)
  {
    HeadersReadBack(body, rest, utf8);
    assert (body + rest)[..|body|] == body && (body + rest)[|body|..] == rest;
  }

  // ----- any header lines -----

  /** Only capitals change, each to its small letter. */
  lemma LowerIs(c: char, i: nat)
    requires i < 26
    ensures Lower("ABCDEFGHIJKLMNOPQRSTUVWXYZ"[i]) == "abcdefghijklmnopqrstuvwxyz"[i]
    ensures !('A' <= c <= 'Z') ==> Lower(c) == c
  {
  }

  predicate Blank(s: string) {
    forall i :: 0 <= i < |s| ==> s[i] == ' ' || s[i] == '\t' || s[i] == '\n' || s[i] == '\r'
                                 || s[i] as int == 11 || s[i] as int == 12
  }

  lemma {:induction false} TrimFront(front: string, s: string)
    requires Blank(front)
    ensures Trim(front + s) == Trim(s)
  {
    if front == [] {
      assert front + s == s;
    } else {
      TrimFront(front[1..], s);
      assert (front + s)[1..] == front[1..] + s;
    }
  }

  lemma {:induction false} TrimBack(s: string, back: string)
    requires Blank(back) && s != [] && !IsSpace(s[0]) && !IsSpace(s[|s| - 1])
    ensures Trim(s + back) == s
  {
    if back == [] {
      assert s + back == s;
    } else {
      var most := back[..|back| - 1];
      TrimBack(s, most);
      assert (s + back)[..|s + back| - 1] == s + most;
    }
  }

  /** White space around a value is taken off, and nothing else. */
  lemma TrimIs(front: string, s: string, back: string)
    requires Blank(front) && Blank(back) && s != [] && !IsSpace(s[0]) && !IsSpace(s[|s| - 1])
    ensures Trim(front + (s + back)) == s
  {
    TrimFront(front, s + back);
    TrimBack(s, back);
  }

  /** A length is a decimal number of 64 bits, with or without a plus sign. */
  lemma LengthParses(n: nat)
    ensures ParseUsize(Decimal(n)) == ParseUsize("+" + Decimal(n)) == if n < 0x1_0000_0000_0000_0000 then Some(n) else None
  {
    var d := Decimal(n);
    assert d[0] in d && ("+" + d)[1..] == d;
    ValueOfDecimal(n);
  }

  /** Anything with another character in it is not. */
  lemma LengthRefused(s: string, i: nat)
    requires i < |s| && !('0' <= s[i] <= '9') && (i > 0 || s[0] != '+')
    ensures ParseUsize(s) == ParseUsize("") == ParseUsize("+") == None
  {
    if s[0] == '+' {
      assert s[1..][i - 1] in s[1..];
    } else {
      assert s[i] in s;
    }
  }

  lemma {:induction false} NoColon(line: string)
    requires forall i :: 0 <= i < |line| ==> line[i] != ':'
    ensures Colon(line).None?
  {
    if line != [] {
      NoColon(line[1..]);
    }
  }

  /**
   What a header line comes to: split at its first colon, it gives the number behind it when the
   part before is `content-length` in any case, and nothing otherwise.
   */
  lemma LineValueIs(key: string, value: string)
    requires forall i :: 0 <= i < |key| ==> key[i] != ':'
    ensures LineValue(key).None?
    ensures LineValue(key + ":" + value)
         == if EqIgnoreCase(key, "content-length") then Some(ParseUsize(Trim(value))) else None
  {
    NoColon(key);
    ColonAt(key, value);
    var line := key + ":" + value;
    assert line == key + (":" + value);
    assert line[..|key|] == key && line[|key| + 1..] == value;
  }

  /** A header line as it can stand in a stream: ASCII, not empty, without line ends. */
  predicate IsHeaderLine(line: string) {
    line != [] && forall i :: 0 <= i < |line| ==> line[i] as int < 128 && !IsLineEnd(line[i])
  }

  function Lines(lines: seq<string>): Bytes {
    if lines == [] then [] else Ascii(lines[0] + "\r\n") + Lines(lines[1..])
  }

  /** The length in force after the lines: that of the last one to give any. */
  function LastLength(lines: seq<string>, seen: Option<nat>): Option<nat> {
    if lines == [] then seen
    else
      var last := LineValue(lines[|lines| - 1]);
      if last.Some? then last.value else LastLength(lines[..|lines| - 1], seen)
  }

  lemma {:induction false} LastLengthFront(lines: seq<string>, seen: Option<nat>)
    requires lines != [] && LineValue(lines[0]) != Some(None)
    ensures var v := LineValue(lines[0]);
            LastLength(lines, seen) == LastLength(lines[1..], if v.Some? then v.value else seen)
  {
    if |lines| > 1 {
      var front := lines[..|lines| - 1];
      LastLengthFront(front, seen);
      assert lines[1..][..|lines| - 2] == front[1..];
    }
  }

  lemma OtherHeader(stream: Bytes, utf8: Bytes -> bool, seen: Option<nat>, rest: Bytes, line: string)
    requires stream != [] && line != [] && LineValue(line).None?
    requires var n := LineLength(stream);
             utf8(stream[..n]) && stream[n..] == rest && TrimEnd(Text(stream[..n])) == line
    ensures ReadHeaders(stream, utf8, seen) == ReadHeaders(rest, utf8, seen)
  {
  }

  lemma FirstLineRead(lines: seq<string>, rest: Bytes, utf8: Bytes -> bool, seen: Option<nat>)
    requires AcceptsAscii(utf8) && lines != [] && IsHeaderLine(lines[0]) && LineValue(lines[0]) != Some(None)
    ensures var v := LineValue(lines[0]);
            ReadHeaders(Lines(lines) + rest, utf8, seen)
            == ReadHeaders(Lines(lines[1..]) + rest, utf8, if v.Some? then v.value else seen)
  {
    var stream, mid, v := Lines(lines) + rest, Lines(lines[1..]) + rest, LineValue(lines[0]);
    Assoc(Ascii(lines[0] + "\r\n"), Lines(lines[1..]), rest);
    LineRead(lines[0], mid, utf8, stream);
    if v.Some? {
      HeaderStep(stream, utf8, seen, mid, lines[0], v.value.value);
    } else {
      OtherHeader(stream, utf8, seen, mid, lines[0]);
    }
  }

  /** Any header lines are read in order, the last content length counts, and other headers are passed over. */
  lemma {:induction false} LinesRead(lines: seq<string>, rest: Bytes, utf8: Bytes -> bool, seen: Option<nat>)
    requires AcceptsAscii(utf8)
    requires forall i :: 0 <= i < |lines| ==> IsHeaderLine(lines[i]) && LineValue(lines[i]) != Some(None)
    ensures ReadHeaders(Lines(lines) + rest, utf8, seen) == ReadHeaders(rest, utf8, LastLength(lines, seen))
  {
    if lines == [] {
      assert Lines(lines) + rest == rest;
    } else {
      var v := LineValue(lines[0]);
      FirstLineRead(lines, rest, utf8, seen);
      LastLengthFront(lines, seen);
      LinesRead(lines[1..], rest, utf8, if v.Some? then v.value else seen);
    }
  }

  /** A line that gives a bad length is the end of the reading, wherever it stands. */
  lemma BadLength(lines: seq<string>, bad: string, rest: Bytes, utf8: Bytes -> bool)
    requires AcceptsAscii(utf8) && IsHeaderLine(bad) && LineValue(bad) == Some(None)
    requires forall i :: 0 <= i < |lines| ==> IsHeaderLine(lines[i]) && LineValue(lines[i]) != Some(None)
    ensures Read(Lines(lines) + (Ascii(bad + "\r\n") + rest), utf8) == (Err(InvalidContentLength), rest)
  {
    var stream := Ascii(bad + "\r\n") + rest;
    LinesRead(lines, stream, utf8, None);
    LineRead(bad, rest, utf8, stream);
  }

  /** A blank line behind any headers ends them. */
  lemma HeadersEnd(lines: seq<string>, rest: Bytes, utf8: Bytes -> bool)
    requires AcceptsAscii(utf8)
    requires forall i :: 0 <= i < |lines| ==> IsHeaderLine(lines[i]) && LineValue(lines[i]) != Some(None)
    ensures ReadHeaders(Lines(lines) + (Ascii("" + "\r\n") + rest), utf8, None) == (Ok(LastLength(lines, None)), rest)
  {
    var behind := Ascii("" + "\r\n") + rest;
    LinesRead(lines, behind, utf8, None);
    LineRead("", rest, utf8, behind);
    BlankLine(behind, utf8, LastLength(lines, None), rest);
  }

  lemma BodyReads(body: Bytes, rest: Bytes, utf8: Bytes -> bool)
    requires utf8(body) && |body| <= 16 * 1024 * 1024
    ensures ReadBody(Some(|body|), body + rest, utf8) == (Ok(body), rest)
  {
    assert (body + rest)[..|body|] == body && (body + rest)[|body|..] == rest;
  }

  /** A body behind any headers is read when the last length they give is its own, and missed when they give none. */
  lemma ReadBehindHeaders(lines: seq<string>, body: Bytes, rest: Bytes, utf8: Bytes -> bool)
    requires AcceptsAscii(utf8) && utf8(body) && |body| <= 16 * 1024 * 1024
    requires forall i :: 0 <= i < |lines| ==> IsHeaderLine(lines[i]) && LineValue(lines[i]) != Some(None)
    ensures var stream := Lines(lines) + (Ascii("" + "\r\n") + (body + rest));
            && (LastLength(lines, None) == Some(|body|) ==> Read(stream, utf8) == (Ok(body), rest))
            && (LastLength(lines, None) == None ==> Read(stream, utf8) == (Err(MissingContentLength), body + rest))
  {
    HeadersEnd(lines, body + rest, utf8);
    BodyReads(body, rest, utf8);
  }

  /** A line that is no text ends the reading right behind it. */
  lemma NoText(lines: seq<string>, bad: Bytes, rest: Bytes, utf8: Bytes -> bool)
    requires AcceptsAscii(utf8) && !utf8(bad + [10]) && forall i :: 0 <= i < |bad| ==> bad[i] != 10
    requires forall i :: 0 <= i < |lines| ==> IsHeaderLine(lines[i]) && LineValue(lines[i]) != Some(None)
    ensures Read(Lines(lines) + (bad + [10] + rest), utf8) == (Err(InvalidData), rest)
  {
    var stream := bad + [10] + rest;
    LinesRead(lines, stream, utf8, None);
    LineLengthIs(stream, |bad|);
    assert stream[..|bad| + 1] == bad + [10] && stream[|bad| + 1..] == rest;
  }

  /** Headers without a blank line behind them are cut short. */
  lemma CutShort(lines: seq<string>, utf8: Bytes -> bool)
    requires AcceptsAscii(utf8)
    requires forall i :: 0 <= i < |lines| ==> IsHeaderLine(lines[i]) && LineValue(lines[i]) != Some(None)
    ensures Read(Lines(lines), utf8) == (Err(Eof), [])
  {
    LinesRead(lines, [], utf8, None);
    assert Lines(lines) + [] == Lines(lines);
  }

  /** So is a body shorter than announced; and one that is no text is used up and refused. */
  lemma BadBody(body: Bytes, rest: Bytes, length: nat, utf8: Bytes -> bool)
    requires |body| <= length <= 16 * 1024 * 1024
    ensures |body| < length ==> ReadBody(Some(length), body, utf8) == (Err(Eof), [])
    ensures |body| == length && !utf8(body) ==> ReadBody(Some(length), body + rest, utf8) == (Err(InvalidData), rest)
  {
    assert (body + rest)[..|body|] == body && (body + rest)[|body|..] == rest;
  }

  /** `write_message` on an output that keeps what it was given. */
  class Writer {
    var output: Bytes

    constructor ()
      ensures output == []
    {
      output := [];
    }

    method WriteMessage(body: Bytes)
      modifies this
      ensures output == old(output) + Written(body)
      ensures output == old(output) + Ascii("Content-Length: ") + Ascii(Decimal(|body|)) + [13, 10, 13, 10] + body
    {
      AsciiConcat("Content-Length: " + Decimal(|body|), "\r\n\r\n");
      AsciiConcat("Content-Length: ", Decimal(|body|));
      assert Ascii("\r\n\r\n") == [13, 10, 13, 10];
      output := output + Ascii("Content-Length: " + Decimal(|body|) + "\r\n\r\n");
      output := output + body;
    }
  }

  /** `n` messages in a row. */
  function ReadMany(stream: Bytes, utf8: Bytes -> bool, n: nat): Result<(seq<Bytes>, Bytes), FramingError>
    decreases n
  {
    if n == 0 then Ok(([], stream))
    else
      match Read(stream, utf8)
      case (Err(e), _) => Err(e)
      case (Ok(body), rest) =>
        match ReadMany(rest, utf8, n - 1)
        case Err(e) => Err(e)
        case Ok((bodies, end)) => Ok(([body] + bodies, end))
  }

  lemma Assoc(x: Bytes, y: Bytes, z: Bytes)
    ensures x + y + z == x + (y + z)
  {
  }

  lemma FirstWritten(bodies: seq<Bytes>, rest: Bytes)
    requires bodies != []
    ensures AllWritten(bodies) + rest == Written(bodies[0]) + (AllWritten(bodies[1..]) + rest)
  {
    Assoc(Written(bodies[0]), AllWritten(bodies[1..]), rest);
  }

  lemma OneThenMany(stream: Bytes, utf8: Bytes -> bool, bodies: seq<Bytes>, mid: Bytes, end: Bytes)
    requires bodies != [] && Read(stream, utf8) == (Ok(bodies[0]), mid)
    requires ReadMany(mid, utf8, |bodies| - 1) == Ok((bodies[1..], end))
    ensures ReadMany(stream, utf8, |bodies|) == Ok((bodies, end))
  {
    assert [bodies[0]] + bodies[1..] == bodies;
  }

  lemma FirstReadBack(bodies: seq<Bytes>, rest: Bytes, utf8: Bytes -> bool)
    requires AcceptsAscii(utf8) && bodies != [] && utf8(bodies[0]) && |bodies[0]| <= MAX_MESSAGE_BYTES
    ensures Read(AllWritten(bodies) + rest, utf8) == (Ok(bodies[0]), AllWritten(bodies[1..]) + rest)
  {
    FirstWritten(bodies, rest);
    ReadBack(bodies[0], AllWritten(bodies[1..]) + rest, utf8);
  }

  lemma MoreReadBack(bodies: seq<Bytes>, rest: Bytes, utf8: Bytes -> bool)
    requires AcceptsAscii(utf8) && bodies != [] && utf8(bodies[0]) && |bodies[0]| <= MAX_MESSAGE_BYTES
    requires ReadMany(AllWritten(bodies[1..]) + rest, utf8, |bodies| - 1) == Ok((bodies[1..], rest))
    ensures ReadMany(AllWritten(bodies) + rest, utf8, |bodies|) == Ok((bodies, rest))
  {
    FirstReadBack(bodies, rest, utf8);
    OneThenMany(AllWritten(bodies) + rest, utf8, bodies, AllWritten(bodies[1..]) + rest, rest);
  }

  lemma NoneReadBack(bodies: seq<Bytes>, rest: Bytes, utf8: Bytes -> bool)
    requires bodies == []
    ensures ReadMany(AllWritten(bodies) + rest, utf8, |bodies|) == Ok((bodies, rest))
  {
    assert AllWritten(bodies) + rest == rest;
  }

  /** Any list of messages within the limit survives the stream. */
  lemma {:induction false} AllReadBack(bodies: seq<Bytes>, rest: Bytes, utf8: Bytes -> bool)
    requires AcceptsAscii(utf8) && forall b :: b in bodies ==> utf8(b) && |b| <= MAX_MESSAGE_BYTES
    ensures ReadMany(AllWritten(bodies) + rest, utf8, |bodies|) == Ok((bodies, rest))
  {
    if bodies == [] {
      NoneReadBack(bodies, rest, utf8);
    } else {
      AllReadBack(bodies[1..], rest, utf8);
      MoreReadBack(bodies, rest, utf8);
    }
  }
}
