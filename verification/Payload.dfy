/** The payload texts of a datagram: numbers printed by the server, and how they read back. */
module Payload {
  import opened CTypes
  import opened Decimal

  const TOPIC_SIZE: nat := 50
  const MAX_LEN: nat := 1600

  // ---- Printing a number with a fixed number of decimals -----------------------------------------

  function ZeroChars(n: nat): (s: string)
    ensures |s| == n && AllDigits(s)
  {
    seq(n, _ => '0')
  }

  /** The digits of k, at least one of them in front of p decimals. */
  function Digits(k: nat, p: nat): (s: string)
    ensures |s| > p && AllDigits(s)
  {
    if |Text(k)| > p then Text(k) else ZeroChars(p + 1 - |Text(k)|) + Text(k)
  }

  /** k / 10^p written with p decimals. */
  function Fixed(k: nat, p: nat): (s: string) {
    var d := Digits(k, p);
    if p == 0 then d else d[..|d| - p] + "." + d[|d| - p..]
  }

  function Pow10(p: nat): (r: real)
    ensures r >= 1.0
  {
    if p == 0 then 1.0 else 10.0 * Pow10(p - 1)
  }

  /** quotient is number / 10^power up to a relative error of 2^-50 (both sides times 10^power). */
  predicate CloseTo(quotient: real, number: nat, power: nat) {
    var err := quotient * Pow10(power) - number as real;
    -(number as real) <= err * 1125899906842624.0 <= number as real
  }

  /** k is the integer nearest to x, either one at a tie. */
  predicate Nearest(k: int, x: real) {
    -0.5 <= x - k as real <= 0.5
  }

  /** fixed << setprecision(p) << quotient: the nearest decimal, some tie-breaking rule. */
  ghost predicate Printed(text: string, quotient: real, p: nat) {
    exists k: nat :: Nearest(k, quotient * Pow10(p)) && text == Fixed(k, p)
  }

  /** Below 2^32 the error of the division never reaches the printed digits. */
  lemma PrintedExactly(text: string, quotient: real, number: nat, power: nat)
    requires number < 0x1_0000_0000 && CloseTo(quotient, number, power)
    ensures Printed(text, quotient, power) <==> text == Fixed(number, power)
  {
    var x := quotient * Pow10(power);
    assert -0.25 <= x - number as real <= 0.25;
    assert Nearest(number, x);
    forall k: nat | Nearest(k, x) ensures k == number {
      assert -0.75 <= k as real - number as real <= 0.75;
    }
  }

  // ---- Reading it back ------------------------------------------------------------------------------

  /** sign, digits without the point, number of decimals: the value is mantissa / 10^decimals. */
  datatype Read = Read(negative: bool, mantissa: nat, decimals: nat) | NotANumber

  function ReadNumber(text: string): (r: Read) {
    if |text| > 0 && text[0] == '-' then ReadDigits(true, text[1..]) else ReadDigits(false, text)
  }

  function ReadDigits(negative: bool, t: string): (r: Read) {
    var k := Leading(t);
    if k == 0 then NotANumber
    else if k == |t| then Read(negative, Value(t), 0)
    else if t[k] == '.' && AllDigits(t[k + 1..]) then
      Read(negative, Value(t[..k] + t[k + 1..]), |t| - k - 1)
    else NotANumber
  }

  lemma {:induction false} LeadingZeros(n: nat, s: string)
    requires AllDigits(s)
    ensures Value(ZeroChars(n) + s) == Value(s)
    decreases |s|, n
  {
    var z := ZeroChars(n);
    if |s| > 0 {
      LeadingZeros(n, s[..|s| - 1]);
      assert (z + s)[..|z + s| - 1] == z + s[..|s| - 1];
    } else if n > 0 {
      LeadingZeros(n - 1, "");
      assert z + s == z && z[..n - 1] == ZeroChars(n - 1) + "";
    }
  }

  lemma DigitsValue(k: nat, p: nat)
    ensures Value(Digits(k, p)) == k
  {
    ValueOfText(k);
    if |Text(k)| <= p { LeadingZeros(p + 1 - |Text(k)|, Text(k)); }
  }

  lemma FixedReadsUnsigned(negative: bool, k: nat, p: nat)
    ensures ReadDigits(negative, Fixed(k, p)) == Read(negative, k, p)
    ensures |Fixed(k, p)| > 0 && Fixed(k, p)[0] != '-'
  {
    DigitsValue(k, p);
    hide Value, Leading, Digits;
    var d, t := Digits(k, p), Fixed(k, p);
    if p == 0 {
      LeadingOf(d, "");
      assert d + "" == t;
    } else {
      var whole, fraction := d[..|d| - p], d[|d| - p..];
      LeadingOf(whole, "." + fraction);
      assert t == whole + ("." + fraction);
      assert t[|whole|] == '.' && t[|whole| + 1..] == fraction && t[..|whole|] == whole;
      assert whole + fraction == d;
    }
  }

  /** Every printed number reads back exactly. */
  lemma FixedReadsBack(negative: bool, k: nat, p: nat)
    ensures ReadNumber((if negative then "-" else "") + Fixed(k, p)) == Read(negative, k, p)
  {
    FixedReadsUnsigned(negative, k, p);
    hide Fixed, ReadDigits;
    var text := (if negative then "-" else "") + Fixed(k, p);
    assert if negative then text[1..] == Fixed(k, p) else text == Fixed(k, p);
  }

  lemma {:induction false} TextLength(n: nat, k: nat)
    requires n < Power10(k) && k > 0
    ensures |Text(n)| <= k
  {
    if n >= 10 { TextLength(n / 10, k - 1); }
  }

  function Power10(k: nat): (p: nat) {
    if k == 0 then 1 else 10 * Power10(k - 1)
  }

  // ---- The datagram -----------------------------------------------------------------------------------

  datatype Packet =
    | Invalid
    | NoTopic
    | Packet(topic: string, kind: string, payload: string)

  /** The bytes before the first zero. */
  function CStr(bytes: seq<Byte>): (s: string)
    ensures |s| <= |bytes|
  {
    if |bytes| == 0 || bytes[0] == 0 then "" else [bytes[0] as char] + CStr(bytes[1..])
  }

  function BytesOf(text: string): (b: seq<Byte>)
    requires forall i :: 0 <= i < |text| ==> 0 < text[i] as int < 0x100
  {
    seq(|text|, i requires 0 <= i < |text| => text[i] as int)
  }

  /** A text written with its zero, or filling its field, is read back. */
  lemma {:induction false} StringComesBack(text: string, rest: seq<Byte>)
    requires forall i :: 0 <= i < |text| ==> 0 < text[i] as int < 0x100
    requires |rest| > 0 ==> rest[0] == 0
    ensures CStr(BytesOf(text) + rest) == text
  {
    if |text| > 0 {
      StringComesBack(text[1..], rest);
      assert (BytesOf(text) + rest)[1..] == BytesOf(text[1..]) + rest;
    }
  }

  /** The number and the power the payload of a real is printed from. */
  function NumberOf(buf: seq<Byte>): (n: nat)
    requires |buf| == MAX_LEN
    ensures n < 0x1_0000_0000
  {
    if buf[TOPIC_SIZE] == 1 then Be16(buf[TOPIC_SIZE + 1], buf[TOPIC_SIZE + 2])
    else Be32(buf[TOPIC_SIZE + 2..TOPIC_SIZE + 6])
  }

  function PowerOf(buf: seq<Byte>): (p: nat)
    requires |buf| == MAX_LEN
  {
    if buf[TOPIC_SIZE] == 0 then 0
    else if buf[TOPIC_SIZE] == 1 then 2 else buf[TOPIC_SIZE + 6]
  }

  function SignOf(buf: seq<Byte>): (negative: bool)
    requires |buf| == MAX_LEN
  {
    buf[TOPIC_SIZE] != 1 && buf[TOPIC_SIZE + 1] == 1
  }

  /** The number a datagram carries, byte by byte.  INT: sign at 51, four bytes from 52 on, the first
      the most significant.  SHORT_REAL: two bytes from 51 on, in hundredths.  FLOAT: sign and four
      bytes like INT, and the number of decimals at 56. */
  function Sent(buf: seq<Byte>): (r: Read)
    requires |buf| == MAX_LEN && buf[50] <= 2
  {
    var long := buf[52] as int * 0x100_0000 + buf[53] as int * 0x1_0000 + buf[54] as int * 0x100 + buf[55] as int;
    if buf[50] == 0 then Read(buf[51] == 1, long, 0)
    else if buf[50] == 1 then Read(false, buf[51] as int * 0x100 + buf[52] as int, 2)
    else Read(buf[51] == 1, long, buf[56])
  }

  lemma SentParts(buf: seq<Byte>)
    requires |buf| == MAX_LEN && buf[50] <= 2
    ensures Sent(buf) == Read(SignOf(buf), NumberOf(buf), PowerOf(buf))
  {
  }

  /** A datagram made for a sign, a number and a power carries them. */
  lemma SentRoundTrip(buf: seq<Byte>, negative: bool, n: nat, power: Byte)
    requires |buf| == MAX_LEN && n < 0x1_0000_0000
    ensures var float := buf[..50] + [2, if negative then 1 else 0] + Bytes4(n) + [power] + buf[57..];
            Sent(float) == Read(negative, n, power)
    ensures var int32 := buf[..50] + [0, if negative then 1 else 0] + Bytes4(n) + buf[56..];
            Sent(int32) == Read(negative, n, 0)
    ensures n < 0x1_0000 ==>
      var short := buf[..50] + [1, n / 0x100, n % 0x100] + buf[53..]; Sent(short) == Read(false, n, 2)
  {
    var b := Bytes4(n);
    assert b[0] as int * 0x100_0000 + b[1] as int * 0x1_0000 + b[2] as int * 0x100 + b[3] as int == n;
  }

  /** htonl and memcpy. */
  function Bytes4(n: nat): (b: seq<Byte>)
    requires n < 0x1_0000_0000
    ensures |b| == 4
  {
    [n / 0x100_0000, n / 0x1_0000 % 0x100, n / 0x100 % 0x100, n % 0x100]
  }

  /** processUdpPacket.  print stands for the stream's text of the double quotient; a datagram
      without a topic makes strtok return NULL. */
  method ProcessUdpPacket(buf: array<Byte>, quotient: real, printed: string) returns (pkt: Packet)
    requires buf.Length == MAX_LEN
    requires buf[TOPIC_SIZE] in {1, 2} ==>
      CloseTo(quotient, NumberOf(buf[..]), PowerOf(buf[..])) && Printed(printed, quotient, PowerOf(buf[..]))
    modifies buf
    ensures buf[..] == old(buf[..])[TOPIC_SIZE := if pkt.Invalid? then old(buf[TOPIC_SIZE]) else 0]
    ensures pkt.Invalid? <==> old(buf[TOPIC_SIZE]) > 3
    ensures pkt.NoTopic? <==> old(buf[TOPIC_SIZE]) <= 3 && old(buf[0]) == 0
    ensures pkt.Packet? ==> pkt.topic == CStr(old(buf[..])[..TOPIC_SIZE]) && |pkt.topic| <= TOPIC_SIZE
    ensures pkt.Packet? && old(buf[TOPIC_SIZE]) <= 2 ==> ReadNumber(pkt.payload) == Sent(old(buf[..]))
    ensures pkt.Packet? && old(buf[TOPIC_SIZE]) == 3 ==> pkt.payload == CStr(old(buf[..])[TOPIC_SIZE + 1..])
    ensures pkt.Packet? ==> pkt.kind == ["INT", "SHORT_REAL", "FLOAT", "STRING"][old(buf[TOPIC_SIZE])]
  {
    hide ReadNumber, Printed, CloseTo, Fixed, CStr, Text, Sent;
    ghost var was := buf[..];
    if buf[TOPIC_SIZE] <= 2 { SentParts(was); }
    var payload, kind := "", "";
    if buf[TOPIC_SIZE] == 0 {
      var numberInt := Be32(buf[TOPIC_SIZE + 2..TOPIC_SIZE + 6]);
      payload := Text(numberInt);
      if buf[TOPIC_SIZE + 1] == 1 { payload := "-" + payload; }
      kind := "INT";
      FixedReadsBack(SignOf(was), numberInt, 0);
      FixedZero(numberInt);
      assert payload == (if SignOf(was) then "-" else "") + Fixed(numberInt, 0);
    } else if buf[TOPIC_SIZE] == 1 {
      payload := printed;
      kind := "SHORT_REAL";
      PrintedExactly(printed, quotient, NumberOf(was), 2);
      FixedReadsBack(false, NumberOf(was), 2);
      assert payload == "" + Fixed(NumberOf(was), 2);
    } else if buf[TOPIC_SIZE] == 2 {
      if buf[TOPIC_SIZE + 1] == 1 { payload := "-"; }
      payload := payload + printed;
      kind := "FLOAT";
      PrintedExactly(printed, quotient, NumberOf(was), PowerOf(was));
      FixedReadsBack(SignOf(was), NumberOf(was), PowerOf(was));
    } else if buf[TOPIC_SIZE] == 3 {
      payload := CStr(buf[TOPIC_SIZE + 1..]);
      kind := "STRING";
    } else {
      return Invalid;
    }
    buf[TOPIC_SIZE] := 0;
    var topic := CStr(buf[..]);
    CStrStops(was, TOPIC_SIZE);
    if topic == "" { return NoTopic; }
    pkt := Packet(topic, kind, payload);
  }

  lemma FixedZero(n: nat)
    ensures Fixed(n, 0) == Text(n)
  {
  }

  /** A zero written at n ends the string there. */
  lemma {:induction false} CStrStops(bytes: seq<Byte>, n: nat)
    requires n < |bytes|
    ensures CStr(bytes[n := 0]) == CStr(bytes[..n])
    ensures CStr(bytes[..n]) == "" <==> n == 0 || bytes[0] == 0
  {
    if n > 0 && bytes[0] != 0 {
      CStrStops(bytes[1..], n - 1);
      assert bytes[n := 0][1..] == bytes[1..][n - 1 := 0];
      assert bytes[..n][1..] == bytes[1..][..n - 1];
    }
  }
}
