/** Taking the chunked transfer coding off a body (section 7.1 of RFC 9112). */
module Chunked {
  import opened Basics

  const CRLF: seq<u8> := [0x0d, 0x0a]
  const LIMIT := 0x1_0000_0000_0000_0000

  /** How a line of octets is turned into text.  The library does this; all that is used of it is that
      ASCII is read as itself. */
  type Decoder = seq<u8> -> string

  function Chars(line: seq<u8>): string {
    seq(|line|, i requires 0 <= i < |line| => line[i] as char)
  }

  ghost predicate IsAscii(line: seq<u8>) {
    forall i :: 0 <= i < |line| ==> line[i] < 0x80
  }

  ghost predicate ReadsAscii(decode: Decoder) {
    forall line :: IsAscii(line) ==> decode(line) == Chars(line)
  }

  // ----- The size of a chunk ----------------------------------------------------------

  /** Everything before the extensions. */
  function BeforeSemicolon(s: string): string {
    if s == "" || s[0] == ';' then "" else [s[0]] + BeforeSemicolon(s[1..])
  }

  function HexValue(c: char): Option<nat> {
    if '0' <= c <= '9' then Some(c as int - 0x30)
    else if 'a' <= c <= 'f' then Some(c as int - 0x57)
    else if 'A' <= c <= 'F' then Some(c as int - 0x37)
    else None
  }

  function HexNumber(s: string): Option<nat> {
    if s == "" then Some(0)
    else
      match (HexNumber(s[..|s| - 1]), HexValue(s[|s| - 1]))
      case (Some(high), Some(low)) => Some(16 * high + low)
      case _ => None
  }

  /** `usize::from_str_radix` with radix 16: an optional plus sign, at least one digit, and a value that
      fits. */
  function ParseHex(s: string): Option<nat> {
    var digits := if s != "" && s[0] == '+' then s[1..] else s;
    if digits == "" then None
    else
      match HexNumber(digits)
      case None => None
      case Some(n) => if n < LIMIT then Some(n) else None
  }

  function SizeOf(decode: Decoder, line: seq<u8>): Option<nat> {
    ParseHex(Trim(BeforeSemicolon(decode(line))))
  }

  // ----- Which lines have a size ----------------------------------------------------------

  /** The character is this hexadecimal digit, in either case. */
  ghost predicate IsDigit(c: char, v: nat) {
    v < 16 && (c == "0123456789abcdef"[v] || c == "0123456789ABCDEF"[v])
  }

  /** What a row of digits is worth. */
  ghost predicate AreDigits(digits: string, n: nat)
    decreases |digits|
  {
    if digits == "" then n == 0
    else IsDigit(digits[|digits| - 1], n % 16) && AreDigits(digits[..|digits| - 1], n / 16)
  }

  /** A size, with white space around it, a sign before it and an extension behind it if need be. */
  ghost predicate IsSize(text: string, before: string, sign: string, digits: string, after: string, extension: string, n: nat) {
    && text == before + (sign + digits) + after + extension
    && Blank(before) && Blank(after) && (sign == "" || sign == "+")
    && digits != "" && AreDigits(digits, n) && n < 0x1_0000_0000_0000_0000
    && (extension == "" || extension[0] == ';')
  }

  lemma DigitHasValue(c: char, v: nat)
    ensures HexValue(c) == Some(v) <==> IsDigit(c, v)
  {
    if HexValue(c).Some? {
      assert IsDigit(c, HexValue(c).value);
    }
  }

  lemma {:induction false} DigitsAreWorth(digits: string, n: nat)
    ensures HexNumber(digits) == Some(n) <==> AreDigits(digits, n)
    decreases |digits|
  {
    hide HexValue, IsDigit;
    if digits != "" {
      var high, c := digits[..|digits| - 1], digits[|digits| - 1];
      DigitHasValue(c, n % 16);
      DigitsAreWorth(high, n / 16);
      if HexNumber(digits) == Some(n) {
        DigitIsSmall(c);
        assert HexNumber(high).value == n / 16 && HexValue(c).value == n % 16;
      }
    }
  }

  lemma DigitIsSmall(c: char)
    ensures HexValue(c).Some? ==> HexValue(c).value < 16
  {
  }

  lemma {:induction false} BeforeSemicolonIsFront(s: string) returns (extension: string)
    ensures s == BeforeSemicolon(s) + extension && (extension == "" || extension[0] == ';')
    decreases |s|
  {
    if s == "" || s[0] == ';' {
      extension := s;
    } else {
      extension := BeforeSemicolonIsFront(s[1..]);
    }
  }

  lemma {:induction false} SemicolonEnds(s: string, extension: string)
    requires forall i :: 0 <= i < |s| ==> s[i] != ';'
    requires extension == "" || extension[0] == ';'
    ensures BeforeSemicolon(s + extension) == s
    decreases |s|
  {
    if s == "" {
      assert s + extension == extension;
    } else {
      SemicolonEnds(s[1..], extension);
      assert (s + extension)[1..] == s[1..] + extension;
    }
  }

  lemma {:induction false} DigitsAreDigits(digits: string, n: nat)
    requires AreDigits(digits, n)
    ensures forall i :: 0 <= i < |digits| ==> digits[i] != ';' && digits[i] != '+' && !IsSpace(digits[i])
    decreases |digits|
  {
    if digits != "" {
      DigitsAreDigits(digits[..|digits| - 1], n / 16);
    }
  }

  /** A line's text gives a size exactly if it is that size so written. */
  lemma SizeIsReadExactlyWhenWritten(text: string, n: nat)
    ensures ParseHex(Trim(BeforeSemicolon(text))) == Some(n) <==>
            exists before, sign, digits, after, extension :: IsSize(text, before, sign, digits, after, extension, n)
  {
    hide HexNumber, Trim, BeforeSemicolon, AreDigits;
    var front := BeforeSemicolon(text);
    if ParseHex(Trim(front)) == Some(n) {
      var extension := BeforeSemicolonIsFront(text);
      var before, after := TrimTrims(front);
      var inner := Trim(front);
      var digits := if inner[0] == '+' then inner[1..] else inner;
      var sign := if inner[0] == '+' then "+" else "";
      DigitsAreWorth(digits, n);
      assert inner == sign + digits;
      assert IsSize(text, before, sign, digits, after, extension, n);
    }
    if before, sign, digits, after, extension :| IsSize(text, before, sign, digits, after, extension, n) {
      WrittenIsRead(text, before, sign, digits, after, extension, n);
    }
  }

  lemma WrittenIsRead(text: string, before: string, sign: string, digits: string, after: string, extension: string, n: nat)
    requires IsSize(text, before, sign, digits, after, extension, n)
    ensures ParseHex(Trim(BeforeSemicolon(text))) == Some(n)
  {
    hide HexNumber, Trim, BeforeSemicolon, AreDigits;
    DigitsAreDigits(digits, n);
    DigitsAreWorth(digits, n);
    var inner := sign + digits;
    var front := before + inner + after;
    assert forall i :: 0 <= i < |front| ==> front[i] != ';';
    SemicolonEnds(front, extension);
    assert inner[|inner| - 1] == digits[|digits| - 1];
    assert IsTrimmed(front, before, inner, after);
    TrimIsInner(front, before, inner, after);
    assert sign == "+" ==> inner[1..] == digits;
    assert sign == "" ==> inner == digits;
  }

  // ----- The loop -----------------------------------------------------------------------

  /** `Stops`: the sum of a size and two does not fit a machine word, and the program stops, at the sum
      itself if the build checks sums, otherwise at the slice the wrapped sum lets through. */
  datatype Failure = Malformed | Stops

  /** A line ends here. */
  predicate BreaksAt(rest: seq<u8>, k: nat) {
    k + 2 <= |rest| && rest[k] == 0x0d && rest[k + 1] == 0x0a
  }

  function LineEnd(rest: seq<u8>, i: nat): Option<nat>
    decreases |rest| - i
  {
    if i + 2 > |rest| then None
    else if BreaksAt(rest, i) then Some(i)
    else LineEnd(rest, i + 1)
  }

  lemma {:induction false} LineEndIsFirst(rest: seq<u8>, i: nat, end: nat)
    ensures LineEnd(rest, i) == Some(end) <==>
              i <= end && BreaksAt(rest, end) && forall k :: i <= k < end ==> !BreaksAt(rest, k)
    decreases |rest| - i
  {
    if i + 2 <= |rest| && !BreaksAt(rest, i) {
      LineEndIsFirst(rest, i + 1, end);
    }
  }

  function Prepend(data: seq<u8>, rest: Result<seq<u8>, Failure>): Result<seq<u8>, Failure> {
    match rest
    case Err(e) => Err(e)
    case Ok(out) => Ok(data + out)
  }

  /** `checks`: the build checks sums for overflow. */
  function Dechunk(checks: bool, decode: Decoder, body: seq<u8>): Result<seq<u8>, Failure>
    decreases |body|
  {
    match LineEnd(body, 0)
    case None => Err(Malformed)
    case Some(end) =>
      LineEndIsFirst(body, 0, end);
      match SizeOf(decode, body[..end])
      case None => Err(Malformed)
      case Some(size) =>
        var rest := body[end + 2..];
        if size == 0 then Ok([])
        else if size + 2 >= LIMIT then
          if !checks && |rest| < size + 2 - LIMIT then Err(Malformed) else Err(Stops)
        else if |rest| < size + 2 then Err(Malformed)
        else Prepend(rest[..size], Dechunk(checks, decode, rest[size + 2..]))
  }

  method FindLineEnd(rest: seq<u8>) returns (end: Option<nat>)
    ensures end == LineEnd(rest, 0)
  {
    var i := 0;
    while i + 2 <= |rest|
      invariant LineEnd(rest, 0) == LineEnd(rest, i)
      decreases |rest| - i
    {
      if rest[i] == 0x0d && rest[i + 1] == 0x0a {
        return Some(i);
      }
      i := i + 1;
    }
    end := None;
  }

  method DechunkBody(checks: bool, decode: Decoder, body: seq<u8>) returns (r: Result<seq<u8>, Failure>)
    ensures r == Dechunk(checks, decode, body)
  {
    hide SizeOf, LineEnd, BreaksAt;
    var out: seq<u8>, rest := [], body;
    PrependNothing(Dechunk(checks, decode, body));
    while true
      invariant Prepend(out, Dechunk(checks, decode, rest)) == Dechunk(checks, decode, body)
      decreases |rest|
    {
      var end := FindLineEnd(rest);
      if end.None? {
        return Err(Malformed);
      }
      FoundIsALine(rest, end.value);
      var size := SizeOf(decode, rest[..end.value]);
      if size.None? {
        return Err(Malformed);
      }
      ghost var before := rest;
      rest := rest[end.value + 2..];
      if size.value == 0 {
        assert out + [] == out;
        return Ok(out);
      }
      if size.value + 2 >= LIMIT {
        var wrapped := size.value + 2 - LIMIT;
        return Err(if !checks && |rest| < wrapped then Malformed else Stops);
      }
      if |rest| < size.value + 2 {
        return Err(Malformed);
      }
      PrependTwice(out, rest[..size.value], Dechunk(checks, decode, rest[size.value + 2..]));
      assert Dechunk(checks, decode, before) == Prepend(rest[..size.value], Dechunk(checks, decode, rest[size.value + 2..]));
      out := out + rest[..size.value];
      rest := rest[size.value + 2..];
    }
  }

  lemma PrependNothing(r: Result<seq<u8>, Failure>)
    ensures Prepend([], r) == r
  {
    if r.Ok? {
      assert [] + r.value == r.value;
    }
  }

  lemma PrependTwice(a: seq<u8>, b: seq<u8>, r: Result<seq<u8>, Failure>)
    ensures Prepend(a, Prepend(b, r)) == Prepend(a + b, r)
  {
    if r.Ok? {
      assert a + (b + r.value) == (a + b) + r.value;
    }
  }

  // ----- What is accepted -----------------------------------------------------------------

  /** A line as it is written, what it announces, and the two octets after it. */
  datatype Chunk = Chunk(line: seq<u8>, data: seq<u8>, end: seq<u8>)

  ghost predicate IsLine(line: seq<u8>) {
    forall k :: 0 <= k < |line| ==> !BreaksAt(line, k)
  }

  /** A chunk with data.  The two octets after the data may be anything. */
  ghost predicate IsChunk(decode: Decoder, c: Chunk) {
    && IsLine(c.line) && |c.end| == 2
    && 0 < |c.data| < LIMIT - 2
    && SizeOf(decode, c.line) == Some(|c.data|)
  }

  function Octets(c: Chunk): seq<u8> {
    c.line + CRLF + c.data + c.end
  }

  ghost predicate AreChunks(decode: Decoder, chunks: seq<Chunk>) {
    forall i :: 0 <= i < |chunks| ==> IsChunk(decode, chunks[i])
  }

  function Written(chunks: seq<Chunk>): seq<u8> {
    if chunks == [] then [] else Octets(chunks[0]) + Written(chunks[1..])
  }

  function Carried(chunks: seq<Chunk>): seq<u8> {
    if chunks == [] then [] else chunks[0].data + Carried(chunks[1..])
  }

  /** A line that stands at the front is the line that is read. */
  lemma LineIsFound(line: seq<u8>, rest: seq<u8>)
    requires IsLine(line)
    ensures var body := line + CRLF + rest;
            LineEnd(body, 0) == Some(|line|) && body[..|line|] == line && body[|line| + 2..] == rest
  {
    var body := line + CRLF + rest;
    forall k | 0 <= k < |line|
      ensures !BreaksAt(body, k)
    {
      assert !BreaksAt(line, k);
      assert body[k] == line[k];
      if k + 1 == |line| {
        assert body[k + 1] == 0x0d;
      } else {
        assert body[k + 1] == line[k + 1];
      }
    }
    LineEndIsFirst(body, 0, |line|);
  }

  lemma FoundIsALine(body: seq<u8>, end: nat)
    requires LineEnd(body, 0) == Some(end)
    ensures end + 2 <= |body| && IsLine(body[..end]) && body == body[..end] + CRLF + body[end + 2..]
  {
    hide LineEnd;
    LineEndIsFirst(body, 0, end);
    var line := body[..end];
    forall k | 0 <= k < |line|
      ensures !BreaksAt(line, k)
    {
      assert !BreaksAt(body, k);
    }
    LineAndRest(body, end);
  }

  lemma LineAndRest(body: seq<u8>, end: nat)
    requires BreaksAt(body, end)
    ensures body == body[..end] + CRLF + body[end + 2..]
  {
    assert body[end..end + 2] == CRLF;
    assert body == body[..end] + body[end..end + 2] + body[end + 2..];
  }

  lemma ChunkIsTakenOff(checks: bool, decode: Decoder, c: Chunk, rest: seq<u8>)
    requires IsChunk(decode, c)
    ensures Dechunk(checks, decode, Octets(c) + rest) == Prepend(c.data, Dechunk(checks, decode, rest))
  {
    hide SizeOf, LineEnd, IsLine;
    var after := c.data + c.end + rest;
    var body := Octets(c) + rest;
    assert body == c.line + CRLF + after;
    LineIsFound(c.line, after);
    assert after[..|c.data|] == c.data && after[|c.data| + 2..] == rest;
  }

  lemma {:induction false} ChunksAreTakenOff(checks: bool, decode: Decoder, chunks: seq<Chunk>, rest: seq<u8>)
    requires AreChunks(decode, chunks)
    ensures Dechunk(checks, decode, Written(chunks) + rest) == Prepend(Carried(chunks), Dechunk(checks, decode, rest))
    decreases |chunks|
  {
    hide Dechunk, IsChunk, Octets;
    if chunks == [] {
      assert Written(chunks) + rest == rest;
      PrependNothing(Dechunk(checks, decode, rest));
    } else {
      var later := Written(chunks[1..]) + rest;
      assert Written(chunks) + rest == Octets(chunks[0]) + later;
      ChunkIsTakenOff(checks, decode, chunks[0], later);
      ChunksAreTakenOff(checks, decode, chunks[1..], rest);
      PrependTwice(chunks[0].data, Carried(chunks[1..]), Dechunk(checks, decode, rest));
    }
  }

  /** The body begins with a chunk that has data. */
  ghost predicate BeginsWithChunk(decode: Decoder, body: seq<u8>) {
    exists c, rest :: StartsWith(decode, body, c, rest)
  }

  ghost predicate StartsWith(decode: Decoder, body: seq<u8>, c: Chunk, rest: seq<u8>) {
    IsChunk(decode, c) && body == Octets(c) + rest
  }

  /** The line at the front is followed by less than it announces, or announces nothing readable. */
  lemma Unreadable(checks: bool, decode: Decoder, line: seq<u8>, after: seq<u8>)
    requires IsLine(line)
    requires SizeOf(decode, line).None? ||
             (0 < SizeOf(decode, line).value < LIMIT - 2 && |after| < SizeOf(decode, line).value + 2)
    ensures Dechunk(checks, decode, line + CRLF + after) == Err(Malformed)
  {
    hide SizeOf, LineEnd, IsLine;
    LineIsFound(line, after);
  }

  lemma ChunkAtFront(decode: Decoder, line: seq<u8>, after: seq<u8>, size: nat)
    requires IsLine(line) && SizeOf(decode, line) == Some(size) && 0 < size < LIMIT - 2 && size + 2 <= |after|
    ensures BeginsWithChunk(decode, line + CRLF + after)
  {
    hide SizeOf, IsLine;
    var c := Chunk(line, after[..size], after[size..size + 2]);
    var rest := after[size + 2..];
    assert after == c.data + c.end + rest;
    assert line + CRLF + after == Octets(c) + rest;
    assert StartsWith(decode, line + CRLF + after, c, rest);
  }

  lemma ChunkOrStop(checks: bool, decode: Decoder, body: seq<u8>)
    ensures BeginsWithChunk(decode, body) || Dechunk(checks, decode, body) == Err(Malformed) || StopsWell(decode, body)
  {
    hide SizeOf, LineEnd, IsLine, BeginsWithChunk;
    var end := LineEnd(body, 0);
    if end.Some? {
      FoundIsALine(body, end.value);
      var line, after := body[..end.value], body[end.value + 2..];
      var size := SizeOf(decode, line);
      if size.None? {
        Unreadable(checks, decode, line, after);
      } else if size.value == 0 || size.value + 2 >= LIMIT {
        assert StopsWith(decode, body, line, after);
      } else if |after| >= size.value + 2 {
        ChunkAtFront(decode, line, after, size.value);
      } else {
        Unreadable(checks, decode, line, after);
      }
    }
  }

  /** What reading stops at: the last line, one whose size does not fit, or something that cannot be
      read. */
  lemma {:induction false} Taken(checks: bool, decode: Decoder, body: seq<u8>) returns (chunks: seq<Chunk>, rest: seq<u8>)
    ensures AreChunks(decode, chunks) && body == Written(chunks) + rest
    ensures Dechunk(checks, decode, rest) == Err(Malformed) || StopsWell(decode, rest)
    decreases |body|
  {
    hide Dechunk, StopsWell;
    ChunkOrStop(checks, decode, body);
    if BeginsWithChunk(decode, body) {
      var c, after :| StartsWith(decode, body, c, after);
      var later;
      later, rest := Taken(checks, decode, after);
      chunks := [c] + later;
      assert chunks[1..] == later;
      assert Octets(c) + (Written(later) + rest) == Octets(c) + Written(later) + rest;
    } else {
      chunks, rest := [], body;
      assert Written(chunks) + rest == rest;
    }
  }

  ghost predicate StopsWith(decode: Decoder, rest: seq<u8>, line: seq<u8>, after: seq<u8>) {
    && IsLine(line) && rest == line + CRLF + after
    && SizeOf(decode, line).Some?
    && (SizeOf(decode, line).value == 0 || SizeOf(decode, line).value + 2 >= LIMIT)
  }

  ghost predicate StopsWell(decode: Decoder, rest: seq<u8>) {
    exists line, after :: StopsWith(decode, rest, line, after)
  }

  /** Chunks with data, and a line of this size after them. */
  ghost predicate IsBody(decode: Decoder, body: seq<u8>, chunks: seq<Chunk>, line: seq<u8>, after: seq<u8>) {
    && AreChunks(decode, chunks) && IsLine(line) && SizeOf(decode, line).Some?
    && body == Written(chunks) + (line + CRLF + after)
  }

  /** A body is accepted exactly if it is chunks followed by a line of size zero, and gives just what the
      chunks carry; the octets after each chunk's data and after the last line are not looked at. */
  lemma AcceptsExactlyChunks(checks: bool, decode: Decoder, body: seq<u8>, out: seq<u8>)
    ensures Dechunk(checks, decode, body) == Ok(out) <==>
            exists chunks, line, after ::
              IsBody(decode, body, chunks, line, after) && SizeOf(decode, line) == Some(0) && out == Carried(chunks)
  {
    hide SizeOf, LineEnd, IsLine, AreChunks;
    if Dechunk(checks, decode, body) == Ok(out) {
      var chunks, rest := Taken(checks, decode, body);
      ChunksAreTakenOff(checks, decode, chunks, rest);
      var line, after :| StopsWith(decode, rest, line, after);
      LineIsFound(line, after);
      assert IsBody(decode, body, chunks, line, after);
      assert Carried(chunks) + [] == Carried(chunks);
    }
    if chunks, line, after :| IsBody(decode, body, chunks, line, after) && SizeOf(decode, line) == Some(0) && out == Carried(chunks) {
      LineIsFound(line, after);
      ChunksAreTakenOff(checks, decode, chunks, line + CRLF + after);
      assert Carried(chunks) + [] == Carried(chunks);
    }
  }

  /** The sum stops the program exactly if, after any number of chunks, a line announces one of the two
      largest sizes a machine word holds; except that a build that does not check sums takes the largest
      with nothing after it for a malformed body. */
  lemma OverflowsExactlyAtTheLargestSizes(checks: bool, decode: Decoder, body: seq<u8>)
    ensures Dechunk(checks, decode, body) == Err(Stops) <==>
            exists chunks, line, after ::
              IsBody(decode, body, chunks, line, after) && IsTooLarge(checks, SizeOf(decode, line).value, after)
  {
    hide SizeOf, LineEnd, IsLine, AreChunks;
    SizesFit(decode);
    if Dechunk(checks, decode, body) == Err(Stops) {
      var chunks, rest := Taken(checks, decode, body);
      ChunksAreTakenOff(checks, decode, chunks, rest);
      var line, after :| StopsWith(decode, rest, line, after);
      LineIsFound(line, after);
      assert IsBody(decode, body, chunks, line, after);
    }
    if chunks, line, after :| IsBody(decode, body, chunks, line, after) && IsTooLarge(checks, SizeOf(decode, line).value, after) {
      LineIsFound(line, after);
      ChunksAreTakenOff(checks, decode, chunks, line + CRLF + after);
    }
  }

  ghost predicate IsTooLarge(checks: bool, size: nat, after: seq<u8>) {
    size == LIMIT - 2 || (size == LIMIT - 1 && (checks || after != []))
  }

  /** Sixteen digits `f` and a line end are such a body. */
  lemma SixteenDigitsStopTheProgram(checks: bool, decode: Decoder, after: seq<u8>)
    requires ReadsAscii(decode) && (checks || after != [])
    ensures Dechunk(checks, decode, seq(16, _ => 0x66) + CRLF + after) == Err(Stops)
  {
    hide HexNumber, LineEnd, IsLine;
    var line: seq<u8> := seq(16, _ => 0x66);
    var digits := Chars(line);
    AllDigitsF(16);
    assert digits == seq(16, _ => 'f');
    SemicolonEnds(digits, "");
    assert digits + "" == digits;
    assert IsAscii(line) && SizeOf(decode, line) == Some(LIMIT - 1);
    assert forall k :: 0 <= k < 16 ==> line[k] == 0x66;
    NoBreaks(line);
    LineIsFound(line, after);
  }

  lemma NoBreaks(line: seq<u8>)
    requires forall k :: 0 <= k < |line| ==> line[k] == 0x66
    ensures IsLine(line)
  {
  }

  function Pow16(n: nat): nat {
    if n == 0 then 1 else 16 * Pow16(n - 1)
  }

  lemma {:induction false} AllDigitsF(n: nat)
    ensures HexNumber(seq(n, _ => 'f')) == Some(Pow16(n) - 1)
    ensures n == 16 ==> Pow16(n) == LIMIT
  {
    if n > 0 {
      AllDigitsF(n - 1);
      var s := seq(n, _ => 'f');
      assert s[..n - 1] == seq(n - 1, _ => 'f');
    }
    if n == 16 {
      assert Pow16(4) == 0x1_0000;
      assert Pow16(8) == 0x1_0000_0000;
      assert Pow16(12) == 0x1_0000_0000_0000;
    }
  }

  lemma SizesFit(decode: Decoder)
    ensures forall line :: SizeOf(decode, line).Some? ==> SizeOf(decode, line).value < LIMIT
  {
  }

  // ----- Every chunking ----------------------------------------------------------------------

  function HexDigit(n: nat): u8
    requires n < 16
  {
    if n < 10 then n + 0x30 else n + 0x57
  }

  function HexLine(n: nat): seq<u8> {
    if n < 16 then [HexDigit(n)] else HexLine(n / 16) + [HexDigit(n % 16)]
  }

  lemma {:induction false} HexLineIsPlain(n: nat)
    ensures HexLine(n) != [] && IsAscii(HexLine(n))
    ensures forall i :: 0 <= i < |HexLine(n)| ==> HexValue(HexLine(n)[i] as char).Some?
    ensures HexNumber(Chars(HexLine(n))) == Some(n)
    decreases n
  {
    if n < 16 {
      var s := Chars(HexLine(n));
      assert s[..0] == "";
    } else {
      HexLineIsPlain(n / 16);
      var s, high := Chars(HexLine(n)), Chars(HexLine(n / 16));
      assert s[..|s| - 1] == high;
    }
  }

  /** The line a sender writes: the size in hexadecimal and any extensions. */
  ghost predicate IsExtension(extension: seq<u8>) {
    IsAscii(extension) && IsLine(extension) && (extension == [] || extension[0] == 0x3b)
  }

  lemma WrittenSizeIsRead(decode: Decoder, n: nat, extension: seq<u8>)
    requires ReadsAscii(decode) && IsExtension(extension) && n < LIMIT
    ensures SizeOf(decode, HexLine(n) + extension) == Some(n) && IsLine(HexLine(n) + extension)
  {
    hide HexLine, HexNumber, IsLine, BeforeSemicolon, HexValue, ParseHex, Trim;
    HexLineIsPlain(n);
    var line := HexLine(n) + extension;
    var digits := Chars(HexLine(n));
    assert IsAscii(line);
    assert Chars(line) == digits + Chars(extension);
    assert forall i :: 0 <= i < |digits| ==> HexValue(digits[i]).Some?;
    DigitsAreNoSemicolon(digits);
    SemicolonEnds(digits, Chars(extension));
    DigitsAreTrim(digits, n);
    LineJoins(HexLine(n), extension);
  }

  lemma DigitsAreNoSemicolon(digits: string)
    requires forall i :: 0 <= i < |digits| ==> HexValue(digits[i]).Some?
    ensures forall i :: 0 <= i < |digits| ==> digits[i] != ';'
  {
  }

  lemma DigitsAreTrim(digits: string, n: nat)
    requires digits != "" && HexNumber(digits) == Some(n) && n < LIMIT
    requires forall i :: 0 <= i < |digits| ==> HexValue(digits[i]).Some?
    ensures ParseHex(Trim(digits)) == Some(n)
  {
    hide HexNumber;
    assert !IsSpace(digits[0]) && !IsSpace(digits[|digits| - 1]) && digits[0] != '+';
  }

  lemma LineJoins(digits: seq<u8>, extension: seq<u8>)
    requires IsLine(extension) && forall i :: 0 <= i < |digits| ==> HexValue(digits[i] as char).Some?
    ensures IsLine(digits + extension)
  {
    var line := digits + extension;
    forall k | 0 <= k < |line|
      ensures !BreaksAt(line, k)
    {
      if k < |digits| {
        assert line[k] == digits[k] != 0x0d;
      } else {
        assert !BreaksAt(extension, k - |digits|);
      }
    }
  }

  /** The chunks a sender cuts a body into. */
  function Cut(pieces: seq<seq<u8>>, extensions: seq<seq<u8>>): seq<Chunk>
    requires |extensions| == |pieces|
  {
    seq(|pieces|, i requires 0 <= i < |pieces| => Chunk(HexLine(|pieces[i]|) + extensions[i], pieces[i], CRLF))
  }

  /** Round trip: however a body is cut into chunks, with whatever extensions, and whatever trailer follows,
      it is put together again. */
  lemma EveryChunkingIsUndone(checks: bool, decode: Decoder, pieces: seq<seq<u8>>, extensions: seq<seq<u8>>, last: seq<u8>, trailer: seq<u8>)
    requires ReadsAscii(decode) && |extensions| == |pieces| && IsExtension(last)
    requires forall i :: 0 <= i < |pieces| ==> 0 < |pieces[i]| < LIMIT - 2 && IsExtension(extensions[i])
    ensures Dechunk(checks, decode, Written(Cut(pieces, extensions)) + (HexLine(0) + last + CRLF + trailer)) == Ok(Flatten(pieces))
  {
    hide SizeOf, HexLine, IsLine, ReadsAscii, LineEnd;
    var chunks := Cut(pieces, extensions);
    forall i | 0 <= i < |chunks|
      ensures IsChunk(decode, chunks[i])
    {
      WrittenSizeIsRead(decode, |pieces[i]|, extensions[i]);
    }
    WrittenSizeIsRead(decode, 0, last);
    LineIsFound(HexLine(0) + last, trailer);
    ChunksAreTakenOff(checks, decode, chunks, HexLine(0) + last + CRLF + trailer);
    CarriedIsFlat(pieces, extensions);
    assert Flatten(pieces) + [] == Flatten(pieces);
  }

  lemma {:induction false} CarriedIsFlat(pieces: seq<seq<u8>>, extensions: seq<seq<u8>>)
    requires |extensions| == |pieces|
    ensures Carried(Cut(pieces, extensions)) == Flatten(pieces)
    decreases |pieces|
  {
    if pieces != [] {
      CarriedIsFlat(pieces[1..], extensions[1..]);
      assert Cut(pieces, extensions)[1..] == Cut(pieces[1..], extensions[1..]);
    }
  }
}
