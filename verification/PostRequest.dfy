/** The POST request builder, and the round trip through the reader's own searches. */
module PostRequest {
  import opened Wrappers
  import opened Decimal
  import opened HttpReader

  /** The arguments of compute_post_request: C strings, cookies possibly NULL. */
  datatype Fields = Fields(host: string, url: string, contentType: string,
                           body: seq<string>, cookies: Option<seq<string>>)

  const BUFLEN: nat := 4096
  const LINELEN: nat := 1000
  const CRLF := "\r\n"

  // ---- The message as a whole ----------------------------------------------------------------------

  function Join(fields: seq<string>): (s: string) {
    if |fields| == 0 then ""
    else if |fields| == 1 then fields[0]
    else fields[0] + "&" + Join(fields[1..])
  }

  function CookieList(cookies: seq<string>): (s: string) {
    if |cookies| == 0 then "" else CookieList(cookies[..|cookies| - 1]) + (cookies[|cookies| - 1] + ";")
  }

  function RequestLine(f: Fields): (s: string) { "POST " + f.url + " HTTP/1.1" }
  function HostLine(f: Fields): (s: string) { "Host: " + f.host }
  function TypeLine(f: Fields): (s: string) { "Content-Type: " + f.contentType }
  function LengthLine(f: Fields): (s: string) { CONTENT_LENGTH + Text(|Join(f.body)|) }
  function CookieLine(f: Fields): (s: string)
    requires f.cookies.Some?
  {
    "Cookie: " + CookieList(f.cookies.value)
  }

  function FrontLines(f: Fields): (lines: seq<string>) {
    [RequestLine(f), HostLine(f), TypeLine(f), LengthLine(f)]
  }

  function HeaderLines(f: Fields): (lines: seq<string>) {
    FrontLines(f) + if f.cookies.Some? then [CookieLine(f)] else []
  }

  function Lines(lines: seq<string>): (s: string) {
    if |lines| == 0 then "" else Lines(lines[..|lines| - 1]) + lines[|lines| - 1] + CRLF
  }

  function Message(f: Fields): (s: string) {
    Lines(HeaderLines(f)) + CRLF + Join(f.body) + CRLF
  }

  // ---- The builder ------------------------------------------------------------------------------------

  /** A char buffer of fixed capacity holding a C string; overflow is set where the C code
      would write past the end. */
  class CString {
    const capacity: nat
    var text: string
    var overflow: bool

    constructor (capacity: nat)
      ensures this.capacity == capacity && text == "" && !overflow
    {
      this.capacity, text, overflow := capacity, "", false;
    }

    /** strcat. */
    method Cat(s: string)
      modifies this
      ensures text == old(text) + s
      ensures overflow <==> old(overflow) || |old(text) + s| >= capacity
    {
      text := text + s;
      overflow := overflow || |text| >= capacity;
    }

    /** sprintf into the buffer: the old text is gone. */
    method Print(s: string)
      modifies this
      ensures text == s && (overflow <==> old(overflow) || |s| >= capacity)
    {
      text := s;
      overflow := overflow || |s| >= capacity;
    }
  }

  /** compute_message. */
  method ComputeMessage(message: CString, line: string)
    modifies message
    ensures message.text == old(message.text) + line + CRLF
    ensures message.overflow <==> old(message.overflow) || |message.text| >= message.capacity
  {
    message.Cat(line);
    message.Cat(CRLF);
  }

  /** A body field with its separator fits into a line. */
  predicate FieldFits(body: seq<string>, i: nat)
    requires i < |body|
  {
    |body[i]| + (if i < |body| - 1 then 1 else 0) < LINELEN
  }

  /** Everything stays within its buffer. */
  predicate Fits(f: Fields) {
    && |Message(f)| < BUFLEN && |Join(f.body)| < LINELEN
    && (forall i :: 0 <= i < |HeaderLines(f)| ==> |HeaderLines(f)[i]| < LINELEN)
    && (forall i :: 0 <= i < |f.body| ==> FieldFits(f.body, i))
  }

  method ComputePostRequest(f: Fields) returns (r: Option<string>)
    ensures r == if Fits(f) then Some(Message(f)) else None
  {
    hide *;
    var message := new CString(BUFLEN);
    var line := new CString(LINELEN);
    var bodyDataBuffer := new CString(LINELEN);
    WriteFront(f, message, line, bodyDataBuffer);
    if f.cookies.Some? {
      CookieData(f.cookies.value, line);
      ComputeMessage(message, line.text);
      OneMoreLine(FrontLines(f), line.text);
    }
    MessageParts(f);
    WhatFits(f);
    ComputeMessage(message, "");
    ComputeMessage(message, bodyDataBuffer.text);
    r := if message.overflow || line.overflow || bodyDataBuffer.overflow then None else Some(message.text);
  }

  /** The lines every request has, and the body text. */
  method WriteFront(f: Fields, message: CString, line: CString, bodyDataBuffer: CString)
    requires message != line && message != bodyDataBuffer && line != bodyDataBuffer
    requires message.text == "" && bodyDataBuffer.text == ""
    requires !message.overflow && !line.overflow && !bodyDataBuffer.overflow
    requires message.capacity == BUFLEN && line.capacity == LINELEN && bodyDataBuffer.capacity == LINELEN
    modifies message, line, bodyDataBuffer
    ensures message.text == Lines(FrontLines(f)) && bodyDataBuffer.text == Join(f.body)
    ensures message.overflow <==> |message.text| >= BUFLEN
    ensures bodyDataBuffer.overflow <==> |Join(f.body)| >= LINELEN
    ensures !line.overflow <==>
      && |RequestLine(f)| < LINELEN && |HostLine(f)| < LINELEN && |TypeLine(f)| < LINELEN
      && |LengthLine(f)| < LINELEN && (forall i :: 0 <= i < |f.body| ==> FieldFits(f.body, i))
  {
    hide Join, Text, Lines, FieldFits;
    ghost var ls: seq<string> := [];
    NoLines();
    line.Print("POST " + f.url + " HTTP/1.1");
    ComputeMessage(message, line.text);
    OneMoreLine(ls, line.text);
    ls := ls + [line.text];
    line.Print("Host: " + f.host);
    ComputeMessage(message, line.text);
    OneMoreLine(ls, line.text);
    ls := ls + [line.text];
    line.Print("Content-Type: " + f.contentType);
    ComputeMessage(message, line.text);
    OneMoreLine(ls, line.text);
    ls := ls + [line.text];
    var contentLen := BodyData(f.body, line, bodyDataBuffer);
    line.Print(CONTENT_LENGTH + Text(contentLen));
    ComputeMessage(message, line.text);
    OneMoreLine(ls, line.text);
    ls := ls + [line.text];
    hide RequestLine, HostLine, TypeLine, LengthLine;
    assert ls == FrontLines(f);
  }

  lemma NoLines()
    ensures Lines([]) == ""
  {
  }

  lemma OneMoreLine(ls: seq<string>, l: string)
    ensures Lines(ls + [l]) == Lines(ls) + l + CRLF
  {
    assert (ls + [l])[..|ls|] == ls;
  }

  lemma MessageParts(f: Fields)
    ensures Message(f) == Lines(HeaderLines(f)) + "" + CRLF + Join(f.body) + CRLF
    ensures HeaderLines(f) == if f.cookies.Some? then FrontLines(f) + ["Cookie: " + CookieList(f.cookies.value)]
                              else FrontLines(f)
  {
    hide RequestLine, HostLine, TypeLine, Lines, Join, Text, CookieList;
  }

  lemma WhatFits(f: Fields)
    ensures Fits(f) <==>
      && |Message(f)| < BUFLEN && |Join(f.body)| < LINELEN
      && |RequestLine(f)| < LINELEN && |HostLine(f)| < LINELEN && |TypeLine(f)| < LINELEN
      && |LengthLine(f)| < LINELEN
      && (f.cookies.Some? ==> |"Cookie: " + CookieList(f.cookies.value)| < LINELEN)
      && (forall i :: 0 <= i < |f.body| ==> FieldFits(f.body, i))
    ensures f.cookies.Some? ==> CookieLine(f) == "Cookie: " + CookieList(f.cookies.value)
  {
    hide RequestLine, HostLine, TypeLine, Join, Text, Message, CookieList, FieldFits;
    var ls := HeaderLines(f);
    assert ls[0] == RequestLine(f) && ls[1] == HostLine(f) && ls[2] == TypeLine(f) && ls[3] == LengthLine(f);
    if f.cookies.Some? { assert ls[4] == CookieLine(f); }
  }

  /** The loop over the body fields. */
  method BodyData(body: seq<string>, line: CString, buffer: CString) returns (contentLen: nat)
    requires line != buffer && buffer.text == "" && !buffer.overflow
    requires line.capacity == LINELEN && buffer.capacity == LINELEN
    modifies line, buffer
    ensures buffer.text == Join(body) && contentLen == |Join(body)|
    ensures buffer.overflow <==> |Join(body)| >= LINELEN
    ensures line.overflow <==> old(line.overflow) || exists k :: 0 <= k < |body| && !FieldFits(body, k)
  {
    contentLen := 0;
    var i := 0;
    assert body[0..] == body;
    while i < |body|
      invariant i <= |body| && buffer.text + Join(body[i..]) == Join(body) && contentLen == |buffer.text|
      invariant buffer.overflow <==> |buffer.text| >= LINELEN
      invariant line.overflow <==> old(line.overflow) || exists k :: 0 <= k < i && !FieldFits(body, k)
    {
      assert body[i..][1..] == body[i + 1..];
      ghost var before := buffer.text;
      contentLen := contentLen + |body[i]|;
      line.Print(body[i]);
      if i < |body| - 1 {
        line.Cat("&");
        contentLen := contentLen + 1;
        assert before + (body[i] + "&" + Join(body[i + 1..])) == before + (body[i] + "&") + Join(body[i + 1..]);
      } else {
        assert body[i + 1..] == [];
      }
      assert (exists k :: 0 <= k < i + 1 && !FieldFits(body, k)) <==>
        (exists k :: 0 <= k < i && !FieldFits(body, k)) || !FieldFits(body, i);
      buffer.Cat(line.text);
      i := i + 1;
    }
  }

  /** The loop over the cookies. */
  method CookieData(cookies: seq<string>, line: CString)
    requires line.capacity == LINELEN
    modifies line
    ensures line.text == "Cookie: " + CookieList(cookies)
    ensures line.overflow <==> old(line.overflow) || |line.text| >= LINELEN
  {
    line.Print("Cookie: ");
    var i := 0;
    while i < |cookies|
      invariant i <= |cookies| && line.text == "Cookie: " + CookieList(cookies[..i])
      invariant line.overflow <==> old(line.overflow) || |line.text| >= LINELEN
    {
      assert cookies[..i + 1][..i] == cookies[..i];
      line.Cat(cookies[i]);
      line.Cat(";");
      i := i + 1;
    }
    assert cookies[..i] == cookies;
  }

  // ---- The round trip ------------------------------------------------------------------------------

  /** No field breaks its line. */
  predicate Unbroken(f: Fields) {
    && NoBreak(f.host) && NoBreak(f.url) && NoBreak(f.contentType)
    && (f.cookies.Some? ==> forall i :: 0 <= i < |f.cookies.value| ==> NoBreak(f.cookies.value[i]))
  }

  /** No line break inside a field, and no second Content-Length before the builder's own. */
  predicate Clean(f: Fields) {
    Unbroken(f) && Find(Lines([RequestLine(f), HostLine(f), TypeLine(f)]), CONTENT_LENGTH, true) == -1
  }

  predicate NoBreak(s: string) {
    forall i :: 0 <= i < |s| - 1 ==> !(s[i] == '\r' && s[i + 1] == '\n')
  }

  /** Fixed text with neither CR nor LF can be put around a field. */
  predicate Plain(s: string) {
    forall i :: 0 <= i < |s| ==> s[i] != '\r' && s[i] != '\n'
  }

  lemma NoBreakAround(a: string, s: string, b: string)
    requires Plain(a) && NoBreak(s) && Plain(b)
    ensures NoBreak(a + s + b)
  {
    var t := a + s + b;
    forall i | 0 <= i < |t| - 1 ensures !(t[i] == '\r' && t[i + 1] == '\n') {
      if |a| <= i && i + 1 < |a| + |s| { assert t[i] == s[i - |a|] && t[i + 1] == s[i + 1 - |a|]; }
    }
  }

  lemma {:induction false} NoBreakCookies(cookies: seq<string>)
    requires forall i :: 0 <= i < |cookies| ==> NoBreak(cookies[i])
    ensures NoBreak(CookieList(cookies))
    ensures |cookies| > 0 ==> |CookieList(cookies)| > 0 && CookieList(cookies)[|CookieList(cookies)| - 1] == ';'
  {
    if |cookies| > 0 {
      var n := |cookies| - 1;
      NoBreakCookies(cookies[..n]);
      NoBreakAround("", cookies[n], ";");
      var a, b := CookieList(cookies[..n]), "" + cookies[n] + ";";
      assert b == cookies[n] + ";";
      forall i | 0 <= i < |a + b| - 1 ensures !((a + b)[i] == '\r' && (a + b)[i + 1] == '\n') {
        if i + 1 < |a| { assert !(a[i] == '\r' && a[i + 1] == '\n'); }
        if i >= |a| { assert !(b[i - |a|] == '\r' && b[i - |a| + 1] == '\n'); }
      }
    }
  }

  lemma PlainDigits(s: string)
    requires AllDigits(s)
    ensures Plain(s)
  {
  }

  /** A header line has no break inside and starts like a header line. */
  predicate HeaderLine(l: string) {
    NoBreak(l) && |l| > 0 && l[0] != '\r'
  }

  lemma HeaderLinesClean(f: Fields)
    requires Unbroken(f)
    ensures forall i :: 0 <= i < |HeaderLines(f)| ==> HeaderLine(HeaderLines(f)[i])
  {
    hide Find, Join, Text, Lines;
    NoBreakAround("POST ", f.url, " HTTP/1.1");
    NoBreakAround("Host: ", f.host, "");
    NoBreakAround("Content-Type: ", f.contentType, "");
    PlainDigits(Text(|Join(f.body)|));
    NoBreakAround(CONTENT_LENGTH, "", Text(|Join(f.body)|));
    assert "Host: " + f.host + "" == HostLine(f) && "Content-Type: " + f.contentType + "" == TypeLine(f);
    assert CONTENT_LENGTH + "" + Text(|Join(f.body)|) == LengthLine(f);
    if f.cookies.Some? {
      NoBreakCookies(f.cookies.value);
      NoBreakAround("Cookie: ", CookieList(f.cookies.value), "");
      assert "Cookie: " + CookieList(f.cookies.value) + "" == CookieLine(f);
    }
    hide Plain, NoBreak, RequestLine, HostLine, TypeLine, LengthLine, CookieLine;
  }

  lemma {:induction false} LinesCons(ls: seq<string>)
    requires |ls| > 0
    ensures Lines(ls) == ls[0] + CRLF + Lines(ls[1..])
  {
    if |ls| == 1 {
      assert ls[..0] == [] && ls[1..] == [];
    } else {
      var n := |ls| - 1;
      LinesCons(ls[..n]);
      assert ls[..n][1..] == ls[1..][..n - 1] && ls[1..][n - 1] == ls[n];
      assert Lines(ls) == (ls[0] + CRLF + Lines(ls[1..][..n - 1])) + ls[n] + CRLF;
      assert Lines(ls) == ls[0] + CRLF + (Lines(ls[1..][..n - 1]) + ls[n] + CRLF);
    }
  }

  /** Skipping a line without a terminator moves the first terminator by its length. */
  lemma TerminatorSkipsLine(l: string, rest: string, i: nat)
    requires HeaderLine(l) && i < |l| + 2
    requires |rest| >= 2 && (rest[0] != '\r' || rest[..2] == CRLF)
    ensures Occurs(l + CRLF + rest, TERMINATOR, false, i) <==> i == |l| && rest[..2] == CRLF
  {
    var t := l + CRLF + rest;
    assert t[|l|] == '\r' && t[|l| + 1] == '\n' && t[|l| + 2] == rest[0] && t[|l| + 3] == rest[1];
    TerminatorAt(t, i);
    if i + 1 < |l| { assert t[i] == l[i] && t[i + 1] == l[i + 1]; }
  }

  lemma TerminatorAt(t: string, i: int)
    ensures Occurs(t, TERMINATOR, false, i) <==>
      0 <= i <= |t| - 4 && t[i] == '\r' && t[i + 1] == '\n' && t[i + 2] == '\r' && t[i + 3] == '\n'
  {
    if Occurs(t, TERMINATOR, false, i) {
      assert SameChar(t[i + 0], TERMINATOR[0], false) && SameChar(t[i + 1], TERMINATOR[1], false);
      assert SameChar(t[i + 2], TERMINATOR[2], false) && SameChar(t[i + 3], TERMINATOR[3], false);
    }
  }

  /** The first terminator of a message is the empty line after its header lines. */
  lemma {:induction false} FirstTerminator(ls: seq<string>, body: string)
    requires |ls| > 0 && forall i :: 0 <= i < |ls| ==> HeaderLine(ls[i])
    ensures |Lines(ls)| >= 2 && HeaderEnd(Lines(ls) + CRLF + body) == |Lines(ls)| + 2
  {
    hide Lines, HeaderLine, Occurs, FindFrom, Find;
    var text := Lines(ls) + CRLF + body;
    LinesCons(ls);
    var rest := Lines(ls[1..]) + CRLF + body;
    assert text == ls[0] + CRLF + rest;
    if |ls| == 1 {
      NoLines();
      assert ls[1..] == [] && rest == CRLF + body && rest[..2] == CRLF;
      forall j | 0 <= j < |ls[0]| ensures !Occurs(text, TERMINATOR, false, j) {
        TerminatorSkipsLine(ls[0], rest, j);
      }
      TerminatorSkipsLine(ls[0], rest, |ls[0]|);
      FindIs(text, TERMINATOR, false, |ls[0]|);
    } else {
      LinesCons(ls[1..]);
      LineStart(ls[1]);
      FirstTerminator(ls[1..], body);
      assert rest[0] == ls[1][0];
      assert rest[..2][0] == rest[0];
      forall j | 0 <= j < |ls[0]| + 2 ensures !Occurs(text, TERMINATOR, false, j) {
        TerminatorSkipsLine(ls[0], rest, j);
      }
      FindAfter(ls[0] + CRLF, rest);
    }
  }

  lemma LineStart(l: string)
    requires HeaderLine(l)
    ensures |l| > 0 && l[0] != '\r'
  {
  }

  /** A part without a terminator in front moves the first terminator by its length. */
  lemma FindAfter(a: string, b: string)
    requires Find(b, TERMINATOR, false) >= 0
    requires forall j :: 0 <= j < |a| ==> !Occurs(a + b, TERMINATOR, false, j)
    ensures Find(a + b, TERMINATOR, false) == |a| + Find(b, TERMINATOR, false)
  {
    var r := Find(b, TERMINATOR, false);
    OccursShifted(a, b);
    hide Occurs;
    forall j | |a| <= j < |a| + r ensures !Occurs(a + b, TERMINATOR, false, j) {
      assert |a| + (j - |a|) == j && !Occurs(b, TERMINATOR, false, j - |a|);
    }
    FindIs(a + b, TERMINATOR, false, |a| + r);
  }

  lemma OccursShifted(a: string, b: string)
    ensures forall j :: j >= 0 ==>
      (Occurs(a + b, TERMINATOR, false, |a| + j) <==> Occurs(b, TERMINATOR, false, j))
  {
    forall j | j >= 0
      ensures Occurs(a + b, TERMINATOR, false, |a| + j) <==> Occurs(b, TERMINATOR, false, j)
    {
      TerminatorAt(a + b, |a| + j);
      TerminatorAt(b, j);
    }
  }

  /** No earlier occurrence of the length header can run into the builder's own line. */
  lemma FirstLength(head: string, rest: string)
    requires Find(head, CONTENT_LENGTH, true) == -1 && |head| > 0 && head[|head| - 1] == '\n'
    ensures Find(head + (CONTENT_LENGTH + rest), CONTENT_LENGTH, true) == |head|
  {
    var text := head + (CONTENT_LENGTH + rest);
    forall i | 0 <= i < |head| ensures !Occurs(text, CONTENT_LENGTH, true, i) {
      if Occurs(text, CONTENT_LENGTH, true, i) {
        if i + |CONTENT_LENGTH| <= |head| {
          OccursInFront(head, CONTENT_LENGTH + rest, CONTENT_LENGTH, true, i);
        } else {
          var j := |head| - 1 - i;
          assert SameChar(text[i + j], CONTENT_LENGTH[j], true);
          NoLineFeed(j);
        }
      }
    }
    assert Occurs(text, CONTENT_LENGTH, true, |head|);
    FindIs(text, CONTENT_LENGTH, true, |head|);
  }

  lemma OccursInFront(head: string, tail: string, pat: string, fold: bool, i: nat)
    requires i + |pat| <= |head| && Occurs(head + tail, pat, fold, i)
    ensures Occurs(head, pat, fold, i)
  {
    forall j | 0 <= j < |pat| ensures SameChar(head[i + j], pat[j], fold) {
      assert SameChar((head + tail)[i + j], pat[j], fold);
    }
  }

  lemma NoLineFeed(j: nat)
    requires j < |CONTENT_LENGTH|
    ensures !SameChar('\n', CONTENT_LENGTH[j], true)
  {
    assert CONTENT_LENGTH == ['C', 'o', 'n', 't', 'e', 'n', 't', '-', 'L', 'e', 'n', 'g', 't', 'h', ':', ' '];
  }

  /** A clean request that fits reads back: the reader's searches find the end of the header
      and, in it, the length of the body, and the body starts where the header ends. */
  lemma RoundTrip(f: Fields)
    requires Clean(f) && Fits(f)
    ensures var m, n := Message(f), |Join(f.body)|;
      && HasLength(m) && BodyLength(m) == n && HeaderEnd(m) <= |m| - n
      && m[HeaderEnd(m)..HeaderEnd(m) + n] == Join(f.body)
  {
    var m, n := Message(f), |Join(f.body)|;
    assert n < 0x8000_0000 && |m| < 0x8000_0000;
    hide Fits, Message, Join, Clean, Find, Value, Leading;
    BodyFound(f);
    LengthFound(f);
  }

  lemma BodyFound(f: Fields)
    requires Clean(f)
    ensures var m, body := Message(f), Join(f.body);
      && HeaderEnd(m) == |Lines(HeaderLines(f))| + 2 <= |m| - |body|
      && m[HeaderEnd(m)..HeaderEnd(m) + |body|] == body
      && Find(m, TERMINATOR, false) >= 0
  {
    var ls, body := HeaderLines(f), Join(f.body);
    HeaderLinesClean(f);
    hide Join, Lines, Clean, HeaderLine, Find;
    FirstTerminator(ls, body + CRLF);
    assert Message(f) == Lines(ls) + CRLF + (body + CRLF);
  }

  lemma LengthFound(f: Fields)
    requires Clean(f)
    ensures var m := Message(f);
      && Find(m, CONTENT_LENGTH, true) >= 0 && LengthStart(m) < |Lines(HeaderLines(f))| && LengthStart(m) < |m|
      && IsDigit(m[LengthStart(m)]) && BodyLength(m) == |Join(f.body)|
  {
    var m, digits := Message(f), Text(|Join(f.body)|);
    var rest := LengthLineSplit(f);
    var head := Lines(FrontLines(f)[..3]);
    FirstLength(head, digits + rest);
    hide Find, Join, Text, Lines, Message, FrontLines, HeaderLines;
    var c := LengthStart(m);
    assert c == |head| + |CONTENT_LENGTH|;
    assert m == (head + CONTENT_LENGTH) + (digits + rest);
    assert m[c..] == digits + rest && m[c] == digits[0];
    LeadingOf(digits, rest);
    ValueOfText(|Join(f.body)|);
  }

  /** The message around its length line. */
  lemma LengthLineSplit(f: Fields) returns (rest: string)
    ensures |rest| > 0 && rest[0] == '\r'
    ensures Message(f) == Lines(FrontLines(f)[..3]) + (CONTENT_LENGTH + (Text(|Join(f.body)|) + rest))
    ensures |Lines(FrontLines(f)[..3])| + |CONTENT_LENGTH| < |Lines(HeaderLines(f))|
    ensures FrontLines(f)[..3] == [RequestLine(f), HostLine(f), TypeLine(f)]
    ensures var head := Lines(FrontLines(f)[..3]); |head| > 0 && head[|head| - 1] == '\n'
  {
    hide RequestLine, HostLine, TypeLine, Join, Text, CookieList;
    var front, body := FrontLines(f), Join(f.body);
    var head := Lines(front[..3]);
    assert Lines(front) == head + LengthLine(f) + CRLF;
    var more := if f.cookies.Some? then CookieLine(f) + CRLF else "";
    if f.cookies.Some? {
      OneMoreLine(front, CookieLine(f));
      assert Lines(HeaderLines(f)) == Lines(front) + more;
    } else {
      assert HeaderLines(f) == front;
    }
    rest := CRLF + (more + CRLF + body + CRLF);
    assert Message(f) == head + (CONTENT_LENGTH + (Text(|body|) + rest));
  }
}
