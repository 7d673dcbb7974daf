/** A built POST request as its receiver reads it: line by line up to the empty line, the target
    between the method and the version, and each field by its name. */
module RequestFields {
  import opened Wrappers
  import opened Decimal
  import opened HttpReader
  import opened PostRequest

  // ---- The receiver -------------------------------------------------------------------------------

  /** Where the line ends that runs through position n. */
  function LineEnd(text: string, n: nat): (e: nat)
    requires n <= |text|
    ensures n <= e <= |text|
    decreases |text| - n
  {
    if n == |text| || (n + 1 < |text| && text[n] == '\r' && text[n + 1] == '\n') then n else LineEnd(text, n + 1)
  }

  /** The lines up to the first empty one. */
  function HeaderOf(text: string): (lines: seq<string>)
    decreases |text|
  {
    var e := LineEnd(text, 0);
    if e == 0 then [] else [text[..e]] + if e + 2 <= |text| then HeaderOf(text[e + 2..]) else []
  }

  /** The line starts with the name, in any case. */
  predicate Named(line: string, name: string) {
    |name| <= |line| && forall i :: 0 <= i < |name| ==> ToLower(line[i]) == ToLower(name[i])
  }

  /** The value of the first line of that name. */
  function FieldOf(lines: seq<string>, name: string): (value: Option<string>) {
    if |lines| == 0 then None
    else if Named(lines[0], name) then Some(lines[0][|name|..])
    else FieldOf(lines[1..], name)
  }

  /** What stands between front and back. */
  function Between(line: string, front: string, back: string): (middle: Option<string>) {
    if |front| + |back| <= |line| && line[..|front|] == front && line[|line| - |back|..] == back
    then Some(line[|front|..|line| - |back|]) else None
  }

  /** The pieces each of which is followed by the separator. */
  function Ended(s: string, sep: char, n: nat): (pieces: seq<string>)
    requires n <= |s|
    decreases |s|, |s| - n
  {
    if n == |s| then []
    else if s[n] == sep then [s[..n]] + Ended(s[n + 1..], sep, 0)
    else Ended(s, sep, n + 1)
  }

  /** The pieces between separators. */
  function Separated(s: string, sep: char): (pieces: seq<string>) {
    Ended(s + [sep], sep, 0)
  }

  // ---- Lines come back ------------------------------------------------------------------------------

  lemma {:induction false} LineEndIs(l: string, rest: string, n: nat)
    requires NoBreak(l) && n <= |l|
    ensures LineEnd(l + CRLF + rest, n) == |l|
    decreases |l| - n
  {
    var text := l + CRLF + rest;
    assert text[|l|] == '\r' && text[|l| + 1] == '\n';
    if n < |l| {
      assert text[n] == l[n] && (n + 1 < |l| ==> text[n + 1] == l[n + 1]);
      LineEndIs(l, rest, n + 1);
    }
  }

  lemma {:induction false} HeaderComesBack(ls: seq<string>, body: string)
    requires forall i :: 0 <= i < |ls| ==> HeaderLine(ls[i])
    ensures HeaderOf(Lines(ls) + CRLF + body) == ls
  {
    hide Lines, LineEnd;
    var text := Lines(ls) + CRLF + body;
    if |ls| == 0 {
      NoLines();
      LineEndIs("", body, 0);
      assert text == "" + CRLF + body;
    } else {
      LinesCons(ls);
      var rest := Lines(ls[1..]) + CRLF + body;
      assert text == ls[0] + CRLF + rest;
      LineEndIs(ls[0], rest, 0);
      assert text[..|ls[0]|] == ls[0] && text[|ls[0]| + 2..] == rest;
      HeaderComesBack(ls[1..], body);
    }
  }

  // ---- Pieces come back -------------------------------------------------------------------------------

  predicate Without(s: string, c: char) {
    forall i :: 0 <= i < |s| ==> s[i] != c
  }

  lemma {:induction false} EndedFirst(a: string, sep: char, rest: string, n: nat)
    requires Without(a, sep) && n <= |a|
    ensures Ended(a + [sep] + rest, sep, n) == [a] + Ended(rest, sep, 0)
    decreases |a| - n
  {
    var s := a + [sep] + rest;
    if n < |a| {
      assert s[n] == a[n];
      EndedFirst(a, sep, rest, n + 1);
    } else {
      assert s[n] == sep && s[..n] == a && s[n + 1..] == rest;
    }
  }

  lemma {:induction false} BodyComesBack(body: seq<string>)
    requires |body| > 0 && forall i :: 0 <= i < |body| ==> Without(body[i], '&')
    ensures Separated(Join(body), '&') == body
  {
    hide Ended, Without;
    if |body| == 1 {
      EndedFirst(body[0], '&', "", 0);
      EndedNone('&');
      assert body[0] + ['&'] + "" == Join(body) + ['&'];
    } else {
      BodyComesBack(body[1..]);
      var rest := Join(body[1..]) + ['&'];
      EndedFirst(body[0], '&', rest, 0);
      assert body[0] + ['&'] + rest == Join(body) + ['&'];
    }
  }

  lemma EndedNone(sep: char)
    ensures Ended("", sep, 0) == []
  {
  }

  lemma {:induction false} CookieCons(cookies: seq<string>)
    requires |cookies| > 0
    ensures CookieList(cookies) == cookies[0] + [';'] + CookieList(cookies[1..])
  {
    var n := |cookies| - 1;
    if n == 0 {
      assert cookies[..0] == [] && cookies[1..] == [];
    } else {
      CookieCons(cookies[..n]);
      assert cookies[..n][1..] == cookies[1..][..n - 1] && cookies[1..][n - 1] == cookies[n];
      var mid, last := CookieList(cookies[1..][..n - 1]), cookies[n] + ";";
      assert (cookies[0] + [';'] + mid) + last == cookies[0] + [';'] + (mid + last);
    }
  }

  lemma {:induction false} CookiesComeBack(cookies: seq<string>)
    requires forall i :: 0 <= i < |cookies| ==> Without(cookies[i], ';')
    ensures Ended(CookieList(cookies), ';', 0) == cookies
  {
    if |cookies| > 0 {
      hide Ended, CookieList, Without;
      CookieCons(cookies);
      EndedFirst(cookies[0], ';', CookieList(cookies[1..]), 0);
      CookiesComeBack(cookies[1..]);
    }
  }

  // ---- The request --------------------------------------------------------------------------------------

  /** Every request whose fields have no line break reads back: the target, the host, the type, the
      length of the body and the cookies, each under its name. */
  lemma RequestReadsBack(f: Fields)
    requires Unbroken(f)
    ensures var lines := HeaderOf(Message(f));
      && |lines| == (if f.cookies.Some? then 5 else 4)
      && Between(lines[0], "POST ", " HTTP/1.1") == Some(f.url)
      && FieldOf(lines, "host: ") == Some(f.host)
      && FieldOf(lines, "content-type: ") == Some(f.contentType)
      && FieldOf(lines, "content-length: ") == Some(Text(|Join(f.body)|))
      && (f.cookies.Some? <==> FieldOf(lines, "cookie: ").Some?)
      && (f.cookies.Some? && (forall i :: 0 <= i < |f.cookies.value| ==> Without(f.cookies.value[i], ';')) ==>
            Ended(FieldOf(lines, "cookie: ").value, ';', 0) == f.cookies.value)
  {
    HeaderLinesClean(f);
    assert Message(f) == Lines(HeaderLines(f)) + CRLF + (Join(f.body) + CRLF);
    HeaderComesBack(HeaderLines(f), Join(f.body) + CRLF);
    FieldsInLines(f);
    hide Lines, Join, Text, HeaderOf, Message, FieldOf, HeaderLine, CookieList;
    if f.cookies.Some? && (forall i :: 0 <= i < |f.cookies.value| ==> Without(f.cookies.value[i], ';')) {
      CookiesComeBack(f.cookies.value);
    }
  }

  lemma {:induction false} FieldAt(lines: seq<string>, name: string, k: nat)
    requires k <= |lines| && forall j :: 0 <= j < k ==> !Named(lines[j], name)
    ensures k == |lines| ==> FieldOf(lines, name) == None
    ensures k < |lines| && Named(lines[k], name) ==> FieldOf(lines, name) == Some(lines[k][|name|..])
  {
    hide Named;
    if k > 0 {
      FieldAt(lines[1..], name, k - 1);
    }
  }

  /** A field line, built with its own spelling of the name. */
  lemma NamedLine(title: string, value: string, name: string)
    requires |title| == |name| && forall i :: 0 <= i < |name| ==> ToLower(title[i]) == ToLower(name[i])
    ensures Named(title + value, name) && (title + value)[|name|..] == value
  {
  }

  lemma OtherName(title: string, value: string, name: string, i: nat)
    requires i < |title| && i < |name| && ToLower(title[i]) != ToLower(name[i])
    ensures !Named(title + value, name)
  {
    assert (title + value)[i] == title[i];
  }

  lemma FieldsInLines(f: Fields)
    ensures var lines := HeaderLines(f);
      && |lines| == (if f.cookies.Some? then 5 else 4)
      && Between(lines[0], "POST ", " HTTP/1.1") == Some(f.url)
      && FieldOf(lines, "host: ") == Some(f.host)
      && FieldOf(lines, "content-type: ") == Some(f.contentType)
      && FieldOf(lines, "content-length: ") == Some(Text(|Join(f.body)|))
      && FieldOf(lines, "cookie: ") == if f.cookies.Some? then Some(CookieList(f.cookies.value)) else None
  {
    hide *;
    var lines, post := HeaderLines(f), f.url + " HTTP/1.1";
    LineTexts(f);
    TargetBetween(f.url);
    NamesApart(post, f.host, f.contentType, Text(|Join(f.body)|));
    FieldAt(lines, "host: ", 1);
    FieldAt(lines, "content-type: ", 2);
    FieldAt(lines, "content-length: ", 3);
    if f.cookies.Some? { CookieNamed(CookieList(f.cookies.value)); }
    FieldAt(lines, "cookie: ", 4);
  }

  lemma LineTexts(f: Fields)
    ensures var lines := HeaderLines(f);
      && |lines| == (if f.cookies.Some? then 5 else 4)
      && lines[0] == "POST " + (f.url + " HTTP/1.1") && lines[1] == "Host: " + f.host
      && lines[2] == "Content-Type: " + f.contentType && lines[3] == "Content-Length: " + Text(|Join(f.body)|)
      && (f.cookies.Some? ==> lines[4] == "Cookie: " + CookieList(f.cookies.value))
  {
    hide Text, Join, CookieList;
    assert "POST " + f.url + " HTTP/1.1" == "POST " + (f.url + " HTTP/1.1");
  }

  lemma TargetBetween(url: string)
    ensures Between("POST " + (url + " HTTP/1.1"), "POST ", " HTTP/1.1") == Some(url)
  {
    var line := "POST " + (url + " HTTP/1.1");
    assert line[|line| - 9..] == " HTTP/1.1" && line[5..|line| - 9] == url;
  }

  /** Which of the first four lines answers to which name. */
  lemma NamesApart(post: string, host: string, kind: string, length: string)
    ensures !Named("POST " + post, "host: ") && !Named("POST " + post, "content-type: ")
    ensures !Named("POST " + post, "content-length: ") && !Named("POST " + post, "cookie: ")
    ensures !Named("Host: " + host, "content-type: ") && !Named("Host: " + host, "content-length: ")
    ensures !Named("Host: " + host, "cookie: ") && !Named("Content-Type: " + kind, "content-length: ")
    ensures !Named("Content-Type: " + kind, "cookie: ") && !Named("Content-Length: " + length, "cookie: ")
    ensures Named("Host: " + host, "host: ") && ("Host: " + host)[6..] == host
    ensures Named("Content-Type: " + kind, "content-type: ") && ("Content-Type: " + kind)[14..] == kind
    ensures Named("Content-Length: " + length, "content-length: ") && ("Content-Length: " + length)[16..] == length
  {
    hide Named;
    OtherName("POST ", post, "host: ", 0);
    OtherName("POST ", post, "content-type: ", 0);
    OtherName("POST ", post, "content-length: ", 0);
    OtherName("POST ", post, "cookie: ", 0);
    OtherName("Host: ", host, "content-type: ", 0);
    OtherName("Host: ", host, "content-length: ", 0);
    OtherName("Host: ", host, "cookie: ", 0);
    OtherName("Content-Type: ", kind, "content-length: ", 8);
    OtherName("Content-Type: ", kind, "cookie: ", 2);
    OtherName("Content-Length: ", length, "cookie: ", 2);
    NamedLine("Host: ", host, "host: ");
    NamedLine("Content-Type: ", kind, "content-type: ");
    NamedLine("Content-Length: ", length, "content-length: ");
  }

  lemma CookieNamed(list: string)
    ensures Named("Cookie: " + list, "cookie: ") && ("Cookie: " + list)[8..] == list
  {
    hide Named;
    NamedLine("Cookie: ", list, "cookie: ");
  }

  /** And where the reader's searches find the body of a clean request that fits, its pieces are
      the fields it was built from. */
  lemma BodyReadsBack(f: Fields)
    requires Clean(f) && Fits(f) && |f.body| > 0
    requires forall i :: 0 <= i < |f.body| ==> Without(f.body[i], '&')
    ensures HasLength(Message(f)) && HeaderEnd(Message(f)) + BodyLength(Message(f)) <= |Message(f)|
    ensures var m := Message(f); Separated(m[HeaderEnd(m)..HeaderEnd(m) + BodyLength(m)], '&') == f.body
  {
    hide *;
    RoundTrip(f);
    BodyComesBack(f.body);
    HeaderEndPositive(Message(f));
  }

  lemma HeaderEndPositive(m: string)
    requires HasLength(m)
    ensures HeaderEnd(m) >= 4
  {
  }
}
