/** Decimal texts: what %d and to_string write and what strtol reads back. */
module Decimal {
  import opened CTypes

  predicate IsDigit(c: char) {
    '0' <= c <= '9'
  }

  predicate AllDigits(s: string) {
    forall i :: 0 <= i < |s| ==> IsDigit(s[i])
  }

  function DigitChar(d: nat): (c: char)
    requires d < 10
    ensures IsDigit(c) && c as int - '0' as int == d
  {
    ('0' as int + d) as char
  }

  function Text(n: nat): (s: string)
    ensures |s| > 0 && AllDigits(s)
  {
    if n < 10 then [DigitChar(n)] else Text(n / 10) + [DigitChar(n % 10)]
  }

  function Value(s: string): (n: nat)
    requires AllDigits(s)
  {
    if |s| == 0 then 0 else Value(s[..|s| - 1]) * 10 + (s[|s| - 1] as int - '0' as int)
  }

  lemma {:induction false} ValueOfText(n: nat)
    ensures Value(Text(n)) == n
  {
    if n >= 10 {
      ValueOfText(n / 10);
      assert Text(n)[..|Text(n)| - 1] == Text(n / 10);
    }
  }

  /** The number of digits s starts with. */
  function Leading(s: string): (k: nat)
    ensures k <= |s| && AllDigits(s[..k]) && (k < |s| ==> !IsDigit(s[k]))
  {
    if |s| == 0 || !IsDigit(s[0]) then 0 else 1 + Leading(s[1..])
  }

  lemma LeadingOf(digits: string, rest: string)
    requires AllDigits(digits) && (|rest| > 0 ==> !IsDigit(rest[0]))
    ensures Leading(digits + rest) == |digits| && (digits + rest)[..Leading(digits + rest)] == digits
  {
    var s, k := digits + rest, Leading(digits + rest);
    assert forall i :: 0 <= i < |digits| ==> IsDigit(s[i]);
    assert |digits| < |s| ==> !IsDigit(s[|digits|]);
    assert forall i :: 0 <= i < k ==> IsDigit(s[..k][i]) && s[..k][i] == s[i];
  }

  predicate IsSpace(c: char) {
    c == ' ' || '\t' <= c <= '\r'
  }

  function SkipSpace(s: string): (t: string) {
    if |s| > 0 && IsSpace(s[0]) then SkipSpace(s[1..]) else s
  }

  function Clamp64(v: int): (n: int) {
    if v > 0x7fff_ffff_ffff_ffff then 0x7fff_ffff_ffff_ffff
    else if v < -0x8000_0000_0000_0000 then -0x8000_0000_0000_0000 else v
  }

  /** strtol(s, NULL, 10). */
  function Strtol(s: string): (n: int) {
    var t := SkipSpace(s);
    if |t| > 0 && t[0] == '-' then Clamp64(-(Value(t[1..][..Leading(t[1..])]) as int))
    else
      var u := if |t| > 0 && t[0] == '+' then t[1..] else t;
      Clamp64(Value(u[..Leading(u)]))
  }

  lemma StrtolOfDigits(digits: string, rest: string)
    requires |digits| > 0 && AllDigits(digits) && (|rest| > 0 ==> !IsDigit(rest[0]))
    requires Value(digits) < 0x8000_0000
    ensures ToInt32(Strtol(digits + rest)) == Value(digits)
  {
    var s := digits + rest;
    assert IsDigit(s[0]);
    assert SkipSpace(s) == s;
    LeadingOf(digits, rest);
    hide Value, Leading, SkipSpace;
    assert Strtol(s) == Value(digits);
    SmallInt(Value(digits));
  }

  lemma Unspaced(s: string)
    requires |s| > 0 && !IsSpace(s[0])
    ensures SkipSpace(s) == s
  {
  }

  lemma StrtolPlain(u: string)
    requires |u| > 0 && IsDigit(u[0])
    ensures Strtol(u) == Clamp64(Value(u[..Leading(u)]))
  {
    Unspaced(u);
    hide Value, Leading, Clamp64, SkipSpace;
  }

  lemma StrtolSigned(c: char, u: string)
    requires c in {'+', '-'}
    ensures Strtol([c] + u) == Clamp64(if c == '-' then -(Value(u[..Leading(u)]) as int) else Value(u[..Leading(u)]))
  {
    var s := [c] + u;
    Unspaced(s);
    hide Value, Leading, Clamp64, SkipSpace, AllDigits;
    assert s[1..] == u;
  }

  predicate White(spaces: string) {
    forall i :: 0 <= i < |spaces| ==> spaces[i] in {' ', '\t', '\n', '\U{0b}', '\U{0c}', '\r'}
  }

  lemma {:induction false} StrtolSkips(spaces: string, s: string)
    requires White(spaces)
    ensures Strtol(spaces + s) == Strtol(s)
  {
    if |spaces| == 0 {
      assert spaces + s == s;
    } else {
      StrtolSkips(spaces[1..], s);
      SkipOne(spaces + s);
      hide Strtol;
      assert (spaces + s)[1..] == spaces[1..] + s;
    }
  }

  lemma SkipOne(s: string)
    requires |s| > 0 && IsSpace(s[0])
    ensures Strtol(s) == Strtol(s[1..])
  {
    hide Value, Leading, Clamp64;
  }

  lemma Clamped(n: int)
    ensures Clamp64(n) == if n >= 0x8000_0000_0000_0000 then 0x7fff_ffff_ffff_ffff
                          else if n < -0x8000_0000_0000_0000 then -0x8000_0000_0000_0000 else n
  {
  }

  /** White space, a sign and digits are read in this order, up to the first other character; the
      result is clamped to 64 bits. */
  lemma StrtolReads(spaces: string, u: string)
    requires White(spaces) && |u| > 0 && IsDigit(u[0])
    ensures var n: int := Value(u[..Leading(u)]);
      && Strtol(spaces + u) == Strtol(spaces + (['+'] + u))
         == (if n >= 0x8000_0000_0000_0000 then 0x7fff_ffff_ffff_ffff else n)
      && Strtol(spaces + (['-'] + u)) == if n > 0x8000_0000_0000_0000 then -0x8000_0000_0000_0000 else -n
  {
    hide *;
    var n: int := Value(u[..Leading(u)]);
    StrtolSkips(spaces, u);
    StrtolSkips(spaces, ['+'] + u);
    StrtolSkips(spaces, ['-'] + u);
    StrtolPlain(u);
    StrtolSigned('+', u);
    StrtolSigned('-', u);
    Clamped(n);
    Clamped(-n);
  }

  lemma SmallInt(n: nat)
    requires n < 0x8000_0000
    ensures ToInt32(n) == n
  {
  }
}
