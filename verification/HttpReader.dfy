/** The HTTP response reader over its growing search buffer.  Reads are a sequence of non-empty
    chunks; the end of the sequence is the read that returns 0. */
module HttpReader {
  import opened CTypes
  import opened Decimal

  const TERMINATOR := "\r\n\r\n"
  const CONTENT_LENGTH := "Content-Length: "
  const NUL := "\0"

  function ToLower(c: char): (l: char) {
    if 'A' <= c <= 'Z' then (c as int + 32) as char else c
  }

  // ---- Searching ------------------------------------------------------------------------------

  /** fold compares without regard to case. */
  predicate SameChar(a: char, b: char, fold: bool) {
    if fold then ToLower(a) == ToLower(b) else a == b
  }

  predicate Occurs(text: string, pat: string, fold: bool, i: int) {
    0 <= i <= |text| - |pat| && forall j :: 0 <= j < |pat| ==> SameChar(text[i + j], pat[j], fold)
  }

  /** The first occurrence at or after from, -1 if there is none. */
  function FindFrom(text: string, pat: string, fold: bool, from: nat): (r: int)
    ensures r == -1 || (from <= r && Occurs(text, pat, fold, r))
    ensures forall j :: from <= j && (r == -1 || j < r) ==> !Occurs(text, pat, fold, j)
    decreases |text| - from
  {
    if from + |pat| > |text| then -1
    else if Occurs(text, pat, fold, from) then from
    else if from == |text| then -1
    else FindFrom(text, pat, fold, from + 1)
  }

  function Find(text: string, pat: string, fold: bool): (r: int) {
    FindFrom(text, pat, fold, 0)
  }

  lemma FindIs(text: string, pat: string, fold: bool, i: nat)
    requires Occurs(text, pat, fold, i) && forall j :: 0 <= j < i ==> !Occurs(text, pat, fold, j)
    ensures Find(text, pat, fold) == i
  {
  }

  /** First matches are stable: a prefix of the text has the same first match, or, where that
      does not fit, none. */
  lemma FindInPrefix(text: string, n: nat, pat: string, fold: bool)
    requires n <= |text|
    ensures var r := Find(text, pat, fold);
      Find(text[..n], pat, fold) == if r >= 0 && r + |pat| <= n then r else -1
  {
    var r, q := Find(text, pat, fold), Find(text[..n], pat, fold);
    if q >= 0 { assert Occurs(text, pat, fold, q); }
    if r >= 0 && r + |pat| <= n { assert Occurs(text[..n], pat, fold, r); }
  }

  // ---- The buffer -----------------------------------------------------------------------------

  class Buffer {
    var data: array?<char>
    var size: nat

    ghost predicate Valid()
      reads this
    {
      if data == null then size == 0 else data.Length == size
    }

    ghost function Contents(): (s: string)
      reads this, data
      requires Valid()
    {
      if data == null then "" else data[..]
    }

    constructor ()
      ensures Valid() && Contents() == "" && data == null
    {
      data, size := null, 0;
    }

    method Add(more: string)
      requires Valid()
      modifies this
      ensures Valid() && Contents() == old(Contents()) + more
      ensures data != null && fresh(data)
    {
      var grown: array<char>;
      if data != null {
        grown := new char[size + |more|];
        var k := 0;
        while k < size
          invariant k <= size && grown.Length == size + |more| && fresh(grown)
          invariant Valid() && data == old(data) && size == old(size) && data != null
          invariant data[..] == old(Contents())
          invariant grown[..k] == data[..k]
        {
          grown[k] := data[k];
          k := k + 1;
        }
      } else {
        grown := new char[|more|](_ => '\0');
      }
      var j := 0;
      ghost var front := old(Contents());
      assert grown[..size] == front;
      while j < |more|
        invariant j <= |more| && grown.Length == size + |more| && size == |front|
        invariant grown[..size + j] == front + more[..j]
        modifies grown
      {
        grown[size + j] := more[j];
        j := j + 1;
      }
      data := grown;
      size := size + |more|;
      assert more[..j] == more;
    }

    /** The pointer data + start. */
    method From(start: nat) returns (s: string)
      requires Valid() && start <= |Contents()|
      ensures s == Contents()[start..]
    {
      s := if data == null then "" else data[start..];
    }

    /** buffer_find and, with fold, buffer_find_insensitive. */
    method FindIn(pat: string, fold: bool) returns (r: int)
      requires Valid()
      ensures r == Find(Contents(), pat, fold)
    {
      ghost var text := Contents();
      if |pat| > size { return -1; }
      if data == null {
        FindIs(text, pat, fold, 0);
        return 0;
      }
      var lastPos := size - |pat| + 1;
      var i := 0;
      while i < lastPos
        invariant i <= lastPos && forall k :: 0 <= k < i ==> !Occurs(text, pat, fold, k)
      {
        var j := 0;
        while j < |pat|
          invariant j <= |pat| && forall k :: 0 <= k < j ==> SameChar(text[i + k], pat[k], fold)
        {
          if !SameChar(data[i + j], pat[j], fold) {
            assert !SameChar(text[i + j], pat[j], fold);
            break;
          }
          j := j + 1;
        }
        if j == |pat| {
          FindIs(text, pat, fold, i);
          return i;
        }
        i := i + 1;
      }
      return -1;
    }
  }

  // ---- The stream ------------------------------------------------------------------------------

  function Flat(chunks: seq<string>): (s: string) {
    if |chunks| == 0 then "" else Flat(chunks[..|chunks| - 1]) + chunks[|chunks| - 1]
  }

  lemma {:induction false} FlatPrefix(chunks: seq<string>, k: nat)
    requires k <= |chunks|
    ensures Flat(chunks[..k]) <= Flat(chunks)
  {
    if k < |chunks| {
      FlatPrefix(chunks[..|chunks| - 1], k);
      assert chunks[..|chunks| - 1][..k] == chunks[..k];
    } else {
      assert chunks[..k] == chunks;
    }
  }

  /** Where the header of the stream ends, if it does. */
  function HeaderEnd(stream: string): (h: int) {
    Find(stream, TERMINATOR, false) + |TERMINATOR|
  }

  function LengthStart(stream: string): (c: int) {
    Find(stream, CONTENT_LENGTH, true) + |CONTENT_LENGTH|
  }

  /** The header is complete, has a Content-Length followed by a digit, and its value and the end of
      the header fit an int. */
  predicate HasLength(stream: string) {
    && Find(stream, TERMINATOR, false) >= 0
    && Find(stream, CONTENT_LENGTH, true) >= 0
    && LengthStart(stream) < HeaderEnd(stream) <= |stream|
    && IsDigit(stream[LengthStart(stream)])
    && BodyLength(stream) < 0x8000_0000 && HeaderEnd(stream) < 0x8000_0000
  }

  /** The digits after Content-Length, read as a number. */
  function BodyLength(stream: string): (n: nat) {
    var c := LengthStart(stream);
    if 0 <= c <= |stream| then Value(stream[c..][..Leading(stream[c..])]) else 0
  }

  /** Exactly one response: header, Content-Length, and that many bytes of body. */
  predicate OneResponse(stream: string) {
    HasLength(stream) && |stream| == HeaderEnd(stream) + BodyLength(stream)
  }

  // ---- The reader ------------------------------------------------------------------------------

  /** A count of chunks after which the reader stops: the first to reach the total. */
  predicate StopsAt(chunks: seq<string>, k: nat, total: nat) {
    && k <= |chunks|
    && (|Flat(chunks[..k])| >= total || k == |chunks|)
    && (forall j :: 0 <= j < k ==> |Flat(chunks[..j])| < total)
  }

  /** That count, looking from k chunks on. */
  function StopFrom(chunks: seq<string>, k: nat, total: nat): (r: nat)
    requires k <= |chunks| && forall j :: 0 <= j < k ==> |Flat(chunks[..j])| < total
    ensures StopsAt(chunks, r, total)
    decreases |chunks| - k
  {
    if k == |chunks| || |Flat(chunks[..k])| >= total then k else StopFrom(chunks, k + 1, total)
  }

  /** What the reader makes of a stream whose header shows a length, cut into chunks. */
  function Response(chunks: seq<string>): (response: string)
    requires HasLength(Flat(chunks))
  {
    Flat(chunks[..StopFrom(chunks, 0, HeaderEnd(Flat(chunks)) + BodyLength(Flat(chunks)))]) + NUL
  }

  lemma ResponseIs(chunks: seq<string>, k: nat)
    requires HasLength(Flat(chunks))
    requires StopsAt(chunks, k, HeaderEnd(Flat(chunks)) + BodyLength(Flat(chunks)))
    ensures Response(chunks) == Flat(chunks[..k]) + NUL
  {
    hide Flat, BodyLength;
    var k' := StopFrom(chunks, 0, HeaderEnd(Flat(chunks)) + BodyLength(Flat(chunks)));
    assert k == k';
  }

  /** The terminator stops the digits. */
  lemma DigitsEndInHeader(stream: string)
    requires HasLength(stream)
    ensures var c := LengthStart(stream);
      0 <= c && 0 < Leading(stream[c..]) && c + Leading(stream[c..]) < HeaderEnd(stream)
  {
    var c, t := LengthStart(stream), Find(stream, TERMINATOR, false);
    assert Occurs(stream, TERMINATOR, false, t);
    assert stream[t] == TERMINATOR[0] && stream[t + 1] == TERMINATOR[1];
    assert stream[t + 2] == TERMINATOR[2] && stream[t + 3] == TERMINATOR[3];
    assert c < t;
    assert !IsDigit(stream[c..][t - c]);
    assert forall i :: 0 <= i < Leading(stream[c..]) ==> IsDigit(stream[c..][..Leading(stream[c..])][i]);
  }

  /** size_t arithmetic on an int and a size_t. */
  function Total(contentLength: int, headerEnd: int): (t: nat) {
    (contentLength + headerEnd) % 0x1_0000_0000_0000_0000
  }

  // ---- What the reader returns, for every stream -------------------------------------------------

  /** The first loop ends: a terminator and, anywhere in what has been read, a Content-Length. */
  predicate Sees(text: string) {
    Find(text, TERMINATOR, false) >= 0 && Find(text, CONTENT_LENGTH, true) >= 0
  }

  /** The first count of chunks, from k on, at which it does. */
  function LookFrom(chunks: seq<string>, k: nat): (r: nat)
    requires k <= |chunks|
    ensures k <= r <= |chunks| && (r == |chunks| || Sees(Flat(chunks[..r])))
    ensures forall j :: k <= j < r ==> !Sees(Flat(chunks[..j]))
    decreases |chunks| - k
  {
    if k == |chunks| || Sees(Flat(chunks[..k])) then k else LookFrom(chunks, k + 1)
  }

  /** The first count of chunks, from k on, that reaches the total. */
  function Reach(chunks: seq<string>, k: nat, total: nat): (r: nat)
    requires k <= |chunks|
    ensures k <= r <= |chunks| && (r == |chunks| || |Flat(chunks[..r])| >= total)
    ensures forall j :: k <= j < r ==> |Flat(chunks[..j])| < total
    decreases |chunks| - k
  {
    if k == |chunks| || |Flat(chunks[..k])| >= total then k else Reach(chunks, k + 1, total)
  }

  /** Header and length as text shows them; strtol is not told where to stop, so beyond is
      whatever lies in memory after the buffer. */
  function TotalSeen(text: string, beyond: string): (total: nat)
    requires Sees(text)
  {
    Total(ToInt32(Strtol(text[LengthStart(text)..] + beyond)), HeaderEnd(text))
  }

  /** The number of chunks taken in the end. */
  function Taken(chunks: seq<string>, beyond: string): (k: nat)
    ensures k <= |chunks|
  {
    var k := LookFrom(chunks, 0);
    if Sees(Flat(chunks[..k])) then Reach(chunks, k, TotalSeen(Flat(chunks[..k]), beyond)) else k
  }

  lemma PrefixOfStream(chunks: seq<string>, k: nat)
    requires k <= |chunks|
    ensures var text := Flat(chunks[..k]); |text| <= |Flat(chunks)| && text == Flat(chunks)[..|text|]
  {
    FlatPrefix(chunks, k);
  }

  /** Without a terminator or without a Content-Length in the stream everything is read. */
  lemma NoLengthReadsAll(chunks: seq<string>, beyond: string)
    requires !Sees(Flat(chunks))
    ensures Taken(chunks, beyond) == |chunks| && Flat(chunks[..|chunks|]) == Flat(chunks)
  {
    hide Find, Flat, Strtol;
    var k := LookFrom(chunks, 0);
    var text := Flat(chunks[..k]);
    PrefixOfStream(chunks, k);
    FindInPrefix(Flat(chunks), |text|, TERMINATOR, false);
    FindInPrefix(Flat(chunks), |text|, CONTENT_LENGTH, true);
    assert chunks[..|chunks|] == chunks;
  }

  /** The stream has a terminator and a Content-Length with a number, in either order. */
  predicate HasBoth(stream: string) {
    && Sees(stream) && LengthStart(stream) < |stream| && IsDigit(stream[LengthStart(stream)])
    && BodyLength(stream) < 0x8000_0000 && HeaderEnd(stream) < 0x8000_0000
  }

  /** Wherever the Content-Length stands, in the header or only behind it: the first loop ends with
      the read that completes the later of the two, and if that read shows the whole number the
      second loop goes on to header plus number. */
  lemma LengthAnywhere(chunks: seq<string>, beyond: string)
    requires HasBoth(Flat(chunks))
    ensures var stream, k := Flat(chunks), LookFrom(chunks, 0);
      var seen, c := |Flat(chunks[..k])|, LengthStart(stream);
      && HeaderEnd(stream) <= seen && c <= seen
      && (forall j :: 0 <= j < k ==> |Flat(chunks[..j])| < HeaderEnd(stream) || |Flat(chunks[..j])| < c)
      && (c + Leading(stream[c..]) < seen ==>
            Taken(chunks, beyond) == Reach(chunks, k, HeaderEnd(stream) + BodyLength(stream)))
  {
    hide Flat, Find, Value, Leading, Strtol, ToInt32, IsDigit;
    var stream, k := Flat(chunks), LookFrom(chunks, 0);
    assert chunks[..|chunks|] == chunks;
    forall j | 0 <= j <= |chunks|
      ensures var n := |Flat(chunks[..j])|;
        Sees(Flat(chunks[..j])) <==> HeaderEnd(stream) <= n && LengthStart(stream) <= n
    {
      PrefixOfStream(chunks, j);
      FindInPrefix(stream, |Flat(chunks[..j])|, TERMINATOR, false);
      FindInPrefix(stream, |Flat(chunks[..j])|, CONTENT_LENGTH, true);
    }
    PrefixOfStream(chunks, k);
    hide HeaderEnd, LengthStart, TotalSeen, BodyLength;
    NumberSeen(stream, |Flat(chunks[..k])|, beyond);
    TotalIsSum(stream, |Flat(chunks[..k])|, beyond);
  }

  lemma TotalIsSum(stream: string, n: nat, beyond: string)
    requires HasBoth(stream) && n <= |stream| && Sees(stream[..n])
    requires HeaderEnd(stream[..n]) == HeaderEnd(stream) && LengthStart(stream[..n]) == LengthStart(stream)
    ensures ToInt32(Strtol(stream[..n][LengthStart(stream)..] + beyond)) == BodyLength(stream) ==>
              TotalSeen(stream[..n], beyond) == HeaderEnd(stream) + BodyLength(stream)
  {
    hide Find, Strtol, ToInt32, BodyLength;
  }

  lemma NumberSeen(stream: string, n: nat, beyond: string)
    requires HasBoth(stream) && n <= |stream| && HeaderEnd(stream) <= n
    requires LengthStart(stream) <= n
    ensures Sees(stream[..n])
    ensures HeaderEnd(stream[..n]) == HeaderEnd(stream) && LengthStart(stream[..n]) == LengthStart(stream)
    ensures LengthStart(stream) + Leading(stream[LengthStart(stream)..]) < n ==>
              ToInt32(Strtol(stream[..n][LengthStart(stream)..] + beyond)) == BodyLength(stream)
  {
    hide Find, Value, Leading, Strtol, ToInt32;
    FindInPrefix(stream, n, TERMINATOR, false);
    FindInPrefix(stream, n, CONTENT_LENGTH, true);
    var c, len := LengthStart(stream), Leading(stream[LengthStart(stream)..]);
    if c + len < n {
      var digits := stream[c..][..len];
      var rest := stream[c + len..n] + beyond;
      assert stream[..n][c..] + beyond == digits + rest;
      assert rest[0] == stream[c..][len];
      DigitFirst(stream[c..]);
      StrtolOfDigits(digits, rest);
    }
  }

  /** The part of the stream read so far shows the header exactly when it contains it, and then
      the length it shows is that of the stream. */
  lemma HeaderVisible(stream: string, n: nat, beyond: string)
    requires HasLength(stream) && n <= |stream|
    ensures Find(stream[..n], TERMINATOR, false) >= 0 <==> HeaderEnd(stream) <= n
    ensures HeaderEnd(stream) <= n ==>
      && HeaderEnd(stream[..n]) == HeaderEnd(stream) && LengthStart(stream[..n]) == LengthStart(stream)
      && ToInt32(Strtol(stream[..n][LengthStart(stream)..] + beyond)) == BodyLength(stream)
  {
    hide Find, BodyLength, Leading, Strtol, ToInt32;
    FindInPrefix(stream, n, TERMINATOR, false);
    if HeaderEnd(stream) <= n {
      DigitsEndInHeader(stream);
      NumberSeen(stream, n, beyond);
    }
  }

  lemma DigitFirst(s: string)
    requires |s| > 0 && IsDigit(s[0])
    ensures Leading(s) > 0
  {
  }

  /** A negative number makes the reader stop at once, or, when it outweighs the header, wrap round
      and read to the end of any stream below 2^63 bytes. */
  lemma NegativeLength(chunks: seq<string>, beyond: string)
    requires Sees(Flat(chunks[..LookFrom(chunks, 0)])) && |Flat(chunks)| < 0x8000_0000_0000_0000
    requires var text := Flat(chunks[..LookFrom(chunks, 0)]);
      ToInt32(Strtol(text[LengthStart(text)..] + beyond)) < 0
    ensures var k, text := LookFrom(chunks, 0), Flat(chunks[..LookFrom(chunks, 0)]);
      Taken(chunks, beyond) == if ToInt32(Strtol(text[LengthStart(text)..] + beyond)) + HeaderEnd(text) >= 0
                               then k else |chunks|
  {
    hide Flat, Strtol, LookFrom, Find;
    var k := LookFrom(chunks, 0);
    var text := Flat(chunks[..k]);
    PrefixOfStream(chunks, k);
    HeaderEndFits(text);
    var n := ToInt32(Strtol(text[LengthStart(text)..] + beyond));
    WrapsBelowZero(n, HeaderEnd(text));
    var r := Reach(chunks, k, TotalSeen(text, beyond));
    PrefixOfStream(chunks, r);
  }

  lemma HeaderEndFits(text: string)
    requires Sees(text)
    ensures 4 <= HeaderEnd(text) <= |text| && 16 <= LengthStart(text) <= |text|
  {
    FindFits(text, CONTENT_LENGTH, true);
  }

  lemma WrapsBelowZero(n: int, h: int)
    requires -0x8000_0000 <= n < 0 && 0 <= h < 0x8000_0000_0000_0000
    ensures Total(n, h) == if n + h >= 0 then n + h else 0x1_0000_0000_0000_0000 + n + h
  {
  }

  /** For a header with a length that is the response already described. */
  lemma TakenIsResponse(chunks: seq<string>, beyond: string)
    requires HasLength(Flat(chunks))
    ensures StopsAt(chunks, Taken(chunks, beyond), HeaderEnd(Flat(chunks)) + BodyLength(Flat(chunks)))
    ensures Response(chunks) == Flat(chunks[..Taken(chunks, beyond)]) + NUL
  {
    hide Flat, Find, BodyLength, Response, Leading;
    var stream, k := Flat(chunks), LookFrom(chunks, 0);
    DigitsEndInHeader(stream);
    LengthAnywhere(chunks, beyond);
    ResponseIs(chunks, Taken(chunks, beyond));
  }

  /** receive_from_server. */
  method ReceiveFromServer(chunks: seq<string>, beyond: string) returns (response: string, ghost k: nat)
    requires forall i :: 0 <= i < |chunks| ==> 0 < |chunks[i]| <= 4096
    ensures k == Taken(chunks, beyond) && response == Flat(chunks[..k]) + "\0"
    ensures !Sees(Flat(chunks)) ==> response == Flat(chunks) + NUL
    ensures HasLength(Flat(chunks)) ==>
      && StopsAt(chunks, k, HeaderEnd(Flat(chunks)) + BodyLength(Flat(chunks)))
      && response == Response(chunks)
    ensures OneResponse(Flat(chunks)) ==> response == Flat(chunks) + NUL
  {
    hide Find, BodyLength, HeaderEnd, LengthStart, Flat, Response, StopFrom, Sees, LookFrom;
    var buffer := new Buffer();
    var pos, headerEnd, contentLength := ReadHeader(buffer, chunks, beyond);
    var total := Total(contentLength, headerEnd);
    ghost var first := pos;
    while buffer.size < total && pos < |chunks|
      invariant first <= pos <= |chunks| && buffer.Valid() && buffer.Contents() == Flat(chunks[..pos])
      invariant fresh(buffer) && (buffer.data != null ==> fresh(buffer.data))
      invariant Reach(chunks, pos, total) == Reach(chunks, first, total)
      decreases |chunks| - pos
    {
      FlatNext(chunks, pos);
      buffer.Add(chunks[pos]);
      pos := pos + 1;
    }
    k := pos;
    if !Sees(Flat(chunks)) { NoLengthReadsAll(chunks, beyond); }
    if HasLength(Flat(chunks)) { TakenIsResponse(chunks, beyond); }
    if OneResponse(Flat(chunks)) { StopsAtEnd(chunks, k); }
    buffer.Add(NUL);
    response := buffer.data[..];
  }

  /** The first loop of receive_from_server. */
  method ReadHeader(buffer: Buffer, chunks: seq<string>, beyond: string)
    returns (pos: nat, headerEnd: int, contentLength: int)
    requires buffer.Valid() && buffer.data == null && buffer.Contents() == ""
    modifies buffer
    ensures pos == LookFrom(chunks, 0) && buffer.Valid() && buffer.Contents() == Flat(chunks[..pos])
    ensures buffer.data != null ==> fresh(buffer.data)
    ensures var text := Flat(chunks[..pos]); Sees(text) ==>
      && headerEnd == HeaderEnd(text)
      && contentLength == ToInt32(Strtol(text[LengthStart(text)..] + beyond))
    ensures !Sees(Flat(chunks[..pos])) ==> pos == |chunks|
  {
    hide *;
    headerEnd, contentLength, pos := 0, 0, 0;
    NothingRead(chunks);
    while pos < |chunks|
      invariant pos <= |chunks| && buffer.Valid() && buffer.Contents() == Flat(chunks[..pos])
      invariant LookFrom(chunks, pos) == LookFrom(chunks, 0) && !Sees(Flat(chunks[..pos]))
      invariant buffer.data != null ==> fresh(buffer.data)
      decreases |chunks| - pos
    {
      FlatNext(chunks, pos);
      buffer.Add(chunks[pos]);
      pos := pos + 1;
      LookStep(chunks, pos);
      headerEnd := buffer.FindIn(TERMINATOR, false);
      if headerEnd >= 0 {
        headerEnd := headerEnd + |TERMINATOR|;
        var start := buffer.FindIn(CONTENT_LENGTH, true);
        if start < 0 { continue; }
        start := start + |CONTENT_LENGTH|;
        var rest := buffer.From(start);
        contentLength := ToInt32(Strtol(rest + beyond));
        return;
      }
    }
    LookStep(chunks, pos);
  }

  lemma NothingRead(chunks: seq<string>)
    ensures Flat(chunks[..0]) == "" && !Sees(Flat(chunks[..0]))
  {
  }

  /** The first loop ends where it sees both. */
  lemma LookStep(chunks: seq<string>, pos: nat)
    requires pos <= |chunks|
    ensures LookFrom(chunks, pos) ==
      if pos == |chunks| || Sees(Flat(chunks[..pos])) then pos else LookFrom(chunks, pos + 1)
    ensures var text := Flat(chunks[..pos]);
      var t, c := Find(text, TERMINATOR, false), Find(text, CONTENT_LENGTH, true);
      && (Sees(text) <==> t >= 0 && c >= 0)
      && HeaderEnd(text) == t + |TERMINATOR| && LengthStart(text) == c + |CONTENT_LENGTH|
      && (c == -1 || 0 <= c <= |text| - |CONTENT_LENGTH|)
  {
    FindFits(Flat(chunks[..pos]), CONTENT_LENGTH, true);
    hide Find, Flat;
  }

  lemma FindFits(text: string, pat: string, fold: bool)
    ensures 0 <= Find(text, pat, fold) <= |text| - |pat| || Find(text, pat, fold) == -1
  {
  }

  lemma FlatNext(chunks: seq<string>, pos: nat)
    requires pos < |chunks|
    ensures Flat(chunks[..pos + 1]) == Flat(chunks[..pos]) + chunks[pos]
  {
    assert chunks[..pos + 1][..pos] == chunks[..pos];
  }

  /** When the stream does not go on after the response, the reader has read all of it. */
  lemma StopsAtEnd(chunks: seq<string>, k: nat)
    requires HasLength(Flat(chunks)) && |Flat(chunks)| <= HeaderEnd(Flat(chunks)) + BodyLength(Flat(chunks))
    requires StopsAt(chunks, k, HeaderEnd(Flat(chunks)) + BodyLength(Flat(chunks)))
    ensures Flat(chunks[..k]) == Flat(chunks)
  {
    hide HasLength, HeaderEnd, BodyLength, Flat;
    FlatPrefix(chunks, k);
    assert chunks[..|chunks|] == chunks;
  }

  // ---- When the cutting matters ------------------------------------------------------------------

  /** The reads of one receive loop: none is empty or longer than the local buffer. */
  predicate Cuts(chunks: seq<string>, stream: string) {
    Flat(chunks) == stream && forall i :: 0 <= i < |chunks| ==> 0 < |chunks[i]| <= 4096
  }

  function Singles(text: string): (chunks: seq<string>) {
    seq(|text|, i requires 0 <= i < |text| => [text[i]])
  }

  lemma {:induction false} FlatSingles(text: string)
    ensures Flat(Singles(text)) == text
  {
    if |text| > 0 {
      FlatSingles(text[..|text| - 1]);
      assert Singles(text)[..|text| - 1] == Singles(text[..|text| - 1]);
    }
  }

  lemma {:induction false} FlatAppend(a: seq<string>, b: seq<string>)
    ensures Flat(a + b) == Flat(a) + Flat(b)
    decreases |b|
  {
    if |b| == 0 {
      assert a + b == a;
    } else {
      hide Flat;
      var front, last := b[..|b| - 1], b[|b| - 1];
      FlatAppend(a, front);
      FlatNext(a + b, |a + b| - 1);
      FlatNext(b, |b| - 1);
      assert (a + b)[..|a + b| - 1] == a + front && (a + b)[..|a + b|] == a + b && b[..|b|] == b;
      assert (Flat(a) + Flat(front)) + last == Flat(a) + (Flat(front) + last);
    }
  }

  /** Byte by byte up to n, then a chunk of size bytes, then byte by byte again. */
  function Lump(stream: string, n: nat, size: nat): (chunks: seq<string>)
    requires n + size <= |stream|
  {
    Singles(stream[..n]) + [stream[n..n + size]] + Singles(stream[n + size..])
  }

  lemma LumpFlat(stream: string, n: nat, size: nat)
    requires n + size <= |stream| && 1 <= size <= 4096
    ensures Cuts(Lump(stream, n, size), stream)
    ensures forall j :: 0 <= j <= n ==> Flat(Lump(stream, n, size)[..j]) == stream[..j]
    ensures Flat(Lump(stream, n, size)[..n + 1]) == stream[..n + size]
  {
    hide Flat;
    var chunks, lump := Lump(stream, n, size), [stream[n..n + size]];
    FlatSingles(stream[n + size..]);
    FlatSingles(stream[..n]);
    FlatOne(stream[n..n + size]);
    FlatAppend(Singles(stream[..n]), lump);
    FlatAppend(Singles(stream[..n]) + lump, Singles(stream[n + size..]));
    assert stream[..n] + stream[n..n + size] == stream[..n + size];
    assert stream[..n + size] + stream[n + size..] == stream;
    assert chunks[..n + 1] == Singles(stream[..n]) + lump;
    forall j | 0 <= j <= n ensures Flat(chunks[..j]) == stream[..j] {
      FlatSingles(stream[..j]);
      assert chunks[..j] == Singles(stream[..j]);
    }
  }

  lemma FlatOne(chunk: string)
    ensures Flat([chunk]) == chunk
  {
    assert [chunk][..0] == [];
  }

  /** A stream that goes on after the response, with a read that ends size - 1 bytes behind it. */
  lemma LumpResponse(stream: string, size: nat)
    requires HasLength(stream) && 1 <= size <= 4096
    requires HeaderEnd(stream) + BodyLength(stream) - 1 + size <= |stream|
    ensures var end := HeaderEnd(stream) + BodyLength(stream);
      && Cuts(Lump(stream, end - 1, size), stream)
      && Response(Lump(stream, end - 1, size)) == stream[..end - 1 + size] + NUL
  {
    hide HasLength, BodyLength, Flat, Response;
    var end := HeaderEnd(stream) + BodyLength(stream);
    LumpFlat(stream, end - 1, size);
    ResponseIs(Lump(stream, end - 1, size), end);
  }

  /** Every way of cutting the stream gives the same text exactly when nothing follows the
      response: a response that is whole, or cut short by the end of the stream. */
  lemma CuttingDoesNotMatter(stream: string)
    requires HasLength(stream)
    ensures (forall chunks, chunks' :: Cuts(chunks, stream) && Cuts(chunks', stream) ==>
               Response(chunks) == Response(chunks'))
       <==> |stream| <= HeaderEnd(stream) + BodyLength(stream)
    ensures |stream| <= HeaderEnd(stream) + BodyLength(stream) ==>
              forall chunks :: Cuts(chunks, stream) ==> Response(chunks) == stream + NUL
  {
    hide HasLength, BodyLength, Flat, Lump, Response;
    var end := HeaderEnd(stream) + BodyLength(stream);
    if |stream| <= end {
      forall chunks | Cuts(chunks, stream) ensures Response(chunks) == stream + NUL {
        var k := StopFrom(chunks, 0, end);
        StopsAtEnd(chunks, k);
        ResponseIs(chunks, k);
      }
    } else {
      LumpResponse(stream, 1);
      LumpResponse(stream, 2);
      assert |Response(Lump(stream, end - 1, 1))| != |Response(Lump(stream, end - 1, 2))|;
    }
  }
}
