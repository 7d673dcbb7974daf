/** The subscriber's framing: bytes are read one at a time into a buffer until a newline that
    is not the first byte, or until the buffer is full. */
module Framing {
  import opened Decimal
  import opened Payload

  /** How many bytes the loop takes from a stream, from position n on. */
  function FrameFrom(stream: string, n: nat): (len: nat)
    requires n <= |stream| && n <= MAX_LEN
    ensures n <= len <= |stream| && len <= MAX_LEN
    decreases |stream| - n
  {
    if n == MAX_LEN || n == |stream| then n
    else if n > 0 && stream[n] == '\n' then n + 1
    else FrameFrom(stream, n + 1)
  }

  function FrameLength(stream: string): (len: nat)
    ensures len <= |stream| && (|stream| > 0 ==> len > 0)
  {
    FrameFrom(stream, 0)
  }

  /** One pass of the reading loop; the rest stays in the socket. */
  method ReadFrame(stream: string) returns (frame: string, rest: string)
    ensures frame == stream[..FrameLength(stream)] && rest == stream[FrameLength(stream)..]
  {
    var buf := new char[MAX_LEN](_ => '\0');
    var bufPtr := 0;
    rest := stream;
    while bufPtr < MAX_LEN && |rest| > 0
      invariant bufPtr <= MAX_LEN && bufPtr <= |stream| && rest == stream[bufPtr..]
      invariant buf[..bufPtr] == stream[..bufPtr] && FrameFrom(stream, bufPtr) == FrameLength(stream)
      decreases MAX_LEN - bufPtr
    {
      buf[bufPtr] := rest[0];
      rest := rest[1..];
      if bufPtr > 0 && buf[bufPtr] == '\n' {
        bufPtr := bufPtr + 1;
        break;
      }
      bufPtr := bufPtr + 1;
    }
    frame := buf[..bufPtr];
  }

  /** Reading until the stream is empty. */
  function Frames(stream: string): (frames: seq<string>)
    decreases |stream|
  {
    if |stream| == 0 then []
    else [stream[..FrameLength(stream)]] + Frames(stream[FrameLength(stream)..])
  }

  function Concat(lines: seq<string>): (s: string) {
    if |lines| == 0 then "" else lines[0] + Concat(lines[1..])
  }

  /** Two bytes at least, no newline between the first byte and the last, which is one. */
  predicate Line(l: string) {
    && 2 <= |l| <= MAX_LEN && l[|l| - 1] == '\n'
    && forall i :: 1 <= i < |l| - 1 ==> l[i] != '\n'
  }

  /** A piece the reader cuts out of any stream that starts with it: a line, or a full buffer
      without a newline. */
  predicate Piece(l: string) {
    Line(l) || (|l| == MAX_LEN && forall i :: 1 <= i < |l| ==> l[i] != '\n')
  }

  /** A piece, or what the end of the stream leaves of a line. */
  predicate LastPiece(l: string) {
    Piece(l) || (0 < |l| < MAX_LEN && forall i :: 1 <= i < |l| ==> l[i] != '\n')
  }

  lemma {:induction false} FrameFromIs(l: string, rest: string, n: nat)
    requires n < |l| <= MAX_LEN
    requires forall i :: n <= i < |l| - 1 && i > 0 ==> l[i] != '\n'
    requires |l| == MAX_LEN || rest == "" || (|l| > 1 && l[|l| - 1] == '\n')
    ensures FrameFrom(l + rest, n) == |l|
    decreases |l| - n
  {
    if n + 1 < |l| {
      FrameFromIs(l, rest, n + 1);
    } else {
      assert (l + rest)[n] == l[n];
    }
  }

  lemma PieceIsCut(l: string, rest: string)
    requires Piece(l) || (LastPiece(l) && rest == "")
    ensures FrameLength(l + rest) == |l|
  {
    FrameFromIs(l, rest, 0);
  }

  /** What the loop stops at. */
  lemma {:induction false} FrameStops(stream: string, n: nat)
    requires n <= |stream| && n <= MAX_LEN
    ensures var k := FrameFrom(stream, n);
      && (forall i :: n <= i < k - 1 && i > 0 ==> stream[i] != '\n')
      && (k == MAX_LEN || k == |stream| || (k > 1 && k > n && stream[k - 1] == '\n'))
    decreases |stream| - n
  {
    if !(n == MAX_LEN || n == |stream| || (n > 0 && stream[n] == '\n')) {
      FrameStops(stream, n + 1);
    }
  }

  lemma CutIsPiece(stream: string)
    requires |stream| > 0
    ensures var k := FrameLength(stream);
      if k < |stream| then Piece(stream[..k]) else LastPiece(stream[..k])
  {
    var k := FrameLength(stream);
    FrameStops(stream, 0);
    var l := stream[..k];
    assert forall i :: 0 <= i < k ==> l[i] == stream[i];
  }

  /** The reader gives back the pieces it was sent exactly when each is a line or fills the
      buffer, the last one possibly unfinished. */
  ghost predicate Readable(lines: seq<string>) {
    forall i :: 0 <= i < |lines| ==> if i < |lines| - 1 then Piece(lines[i]) else LastPiece(lines[i])
  }

  lemma {:induction false} FramesAreLines(lines: seq<string>)
    ensures Frames(Concat(lines)) == lines <==> Readable(lines)
  {
    if |lines| > 0 {
      var l, rest := lines[0], Concat(lines[1..]);
      var stream := l + rest;
      FramesAreLines(lines[1..]);
      if Readable(lines) {
        ReadableTail(lines);
        if |lines| == 1 { assert rest == ""; }
        PieceIsCut(l, rest);
        assert stream[..|l|] == l && stream[|l|..] == rest;
        assert [l] + lines[1..] == lines;
      }
      if Frames(stream) == lines {
        assert |stream| > 0;
        var k := FrameLength(stream);
        CutIsPiece(stream);
        assert Frames(stream)[0] == stream[..k] == l;
        assert stream[k..] == rest && Frames(stream)[1..] == Frames(rest);
        if k == |stream| { assert rest == "" && lines[1..] == []; }
        ReadableCons(lines);
      }
    }
  }

  lemma ReadableTail(lines: seq<string>)
    requires |lines| > 0 && Readable(lines)
    ensures Readable(lines[1..])
  {
  }

  lemma ReadableCons(lines: seq<string>)
    requires |lines| > 0 && Readable(lines[1..])
    requires if |lines| == 1 then LastPiece(lines[0]) else Piece(lines[0])
    ensures Readable(lines)
  {
    hide Piece, LastPiece;
    forall i | 0 <= i < |lines|
      ensures if i < |lines| - 1 then Piece(lines[i]) else LastPiece(lines[i])
    {
      if i > 0 { assert lines[i] == lines[1..][i - 1]; }
    }
  }

  /** Every sequence of lines comes through as sent. */
  lemma LinesComeThrough(lines: seq<string>)
    requires forall i :: 0 <= i < |lines| ==> Line(lines[i])
    ensures Frames(Concat(lines)) == lines
  {
    FramesAreLines(lines);
  }

  // ---- The lines the server sends -----------------------------------------------------------------

  /** The text of a message for a client, lines 200 to 202 of the server. */
  function MessageLine(ip: string, port: nat, topic: string, kind: string, payload: string): (s: string) {
    ip + ":" + Text(port) + " - " + topic + " - " + kind + " - " + payload + "\n"
  }

  predicate OneLine(s: string) {
    forall i :: 0 <= i < |s| ==> s[i] != '\n'
  }

  /** A message without inner newlines is a line, whatever its parts within their limits. */
  lemma MessageIsLine(ip: string, port: nat, topic: string, kind: string, payload: string)
    requires |ip| <= 15 && port < 0x1_0000 && |topic| <= 50 && |kind| <= 10 && |payload| <= 1500
    requires OneLine(ip) && OneLine(topic) && OneLine(kind) && OneLine(payload)
    ensures Line(MessageLine(ip, port, topic, kind, payload))
  {
    assert Power10(5) == 100000;
    TextLength(port, 5);
    hide Text;
    var head := ip + ":" + Text(port) + " - ";
    var s := head + topic + " - " + kind + " - " + payload;
    assert OneLine(head) && OneLine(head + topic + " - ");
    assert OneLine(head + topic + " - " + kind + " - ");
    assert OneLine(s);
    assert MessageLine(ip, port, topic, kind, payload) == s + "\n";
  }

  // ---- What a line says ------------------------------------------------------------------------------

  const DASH := " - "

  predicate StartsAt(s: string, sep: string, i: nat) {
    i + |sep| <= |s| && s[i..i + |sep|] == sep
  }

  /** Where sep first occurs from position n on, |s| if nowhere. */
  function Split(s: string, sep: string, n: nat): (i: nat)
    requires n <= |s|
    ensures i <= |s| && (i < |s| ==> StartsAt(s, sep, i))
    ensures forall k :: n <= k < i ==> !StartsAt(s, sep, k)
    decreases |s| - n
  {
    if n == |s| || StartsAt(s, sep, n) then n else Split(s, sep, n + 1)
  }

  /** The part before the separator and the part behind it. */
  function Head(s: string, sep: string): (h: string) {
    s[..Split(s, sep, 0)]
  }

  function Tail(s: string, sep: string): (t: string) {
    var i := Split(s, sep, 0);
    if i + |sep| <= |s| then s[i + |sep|..] else ""
  }

  /** sep does not occur in a, nor does a piece of a run into it. */
  predicate Free(a: string, sep: string) {
    forall k :: 0 <= k < |a| ==> !StartsAt(a + sep, sep, k)
  }

  lemma SplitAt(a: string, sep: string, b: string)
    requires Free(a, sep) && |sep| > 0
    ensures Head(a + sep + b, sep) == a && Tail(a + sep + b, sep) == b
  {
    var s := a + sep + b;
    assert StartsAt(s, sep, |a|);
    forall k | 0 <= k < |a| ensures !StartsAt(s, sep, k) {
      assert !StartsAt(a + sep, sep, k) && (a + sep)[k..k + |sep|] == s[k..k + |sep|];
    }
    var i := Split(s, sep, 0);
    assert i == |a|;
  }

  /** The parts of a line can be told apart: up to the first colon, then at the dashes.  The
      payload may contain anything. */
  lemma LineReadsBack(ip: string, port: nat, topic: string, kind: string, payload: string)
    requires Free(ip, ":") && Free(topic, DASH) && Free(kind, DASH)
    ensures var line := MessageLine(ip, port, topic, kind, payload);
      var afterIp := Tail(line, ":");
      var afterPort := Tail(afterIp, DASH);
      var afterTopic := Tail(afterPort, DASH);
      && Head(line, ":") == ip
      && AllDigits(Head(afterIp, DASH)) && Value(Head(afterIp, DASH)) == port
      && Head(afterPort, DASH) == topic && Head(afterTopic, DASH) == kind
      && Tail(afterTopic, DASH) == payload + "\n"
  {
    ValueOfText(port);
    DigitsFree(Text(port));
    hide Text, Free, Head, Tail, Value;
    var d := payload + "\n";
    var c := kind + DASH + d;
    var b := topic + DASH + c;
    var a := Text(port) + DASH + b;
    assert MessageLine(ip, port, topic, kind, payload) == ip + ":" + a;
    SplitAt(ip, ":", a);
    SplitAt(Text(port), DASH, b);
    SplitAt(topic, DASH, c);
    SplitAt(kind, DASH, d);
  }

  lemma DigitsFree(s: string)
    requires AllDigits(s)
    ensures Free(s, DASH)
  {
    forall k | 0 <= k < |s| ensures !StartsAt(s + DASH, DASH, k) {
      assert (s + DASH)[k..k + 3][0] == s[k];
      assert IsDigit(s[k]) && DASH[0] == ' ';
    }
  }

  /** Printed numbers meet the limit. */
  lemma NumberFits(n: nat, p: nat)
    requires n < 0x1_0000_0000 && p < 0x100
    ensures |Fixed(n, p)| + 1 <= 1500 && OneLine(Fixed(n, p))
  {
    assert Power10(10) == 10000000000;
    TextLength(n, 10);
    hide Text;
  }
}
