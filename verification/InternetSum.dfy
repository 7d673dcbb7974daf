/** The reference: the checksum of RFC 1071 section 1 over a byte string, stated with no
    word size, alignment or deferred carry.  The one's complement sum of 16-bit words is
    arithmetic modulo 0xffff in which zero is written 0xffff as soon as a term is non-zero. */
module InternetSum {
  import opened CTypes

  ghost predicate AllZero(s: seq<Byte>) {
    forall i :: 0 <= i < |s| ==> s[i] == 0
  }

  /** The 16-bit big-endian words of s added up, an odd last byte padded with a zero byte. */
  function Sum16(s: seq<Byte>): (t: nat) {
    if |s| == 0 then 0
    else if |s| == 1 then Be16(s[0], 0)
    else Be16(s[0], s[1]) + Sum16(s[2..])
  }

  /** The value of [1, 0xffff] congruent to x modulo 0xffff. */
  function Canon(x: int): (c: nat)
    ensures 1 <= c <= 0xffff
  {
    if x % 0xffff == 0 then 0xffff else x % 0xffff
  }

  lemma CanonUnique(c: int, x: int)
    requires 1 <= c <= 0xffff
    ensures c == Canon(x) <==> (c - x) % 0xffff == 0
  {
  }

  lemma CanonCongruent(x: int, y: int)
    ensures Canon(x) == Canon(y) <==> (x - y) % 0xffff == 0
  {
    CanonUnique(Canon(x), x);
    CanonUnique(Canon(y), y);
  }

  /** htons on a little-endian host. */
  function Swap16(v: nat): (w: nat)
    requires v <= 0xffff
    ensures w <= 0xffff
  {
    v % 0x100 * 0x100 + v / 0x100
  }

  /** Swapping the bytes of a 16-bit word multiplies it by 256 modulo 0xffff. */
  lemma SwapIsTimes256(v: nat)
    requires v <= 0xffff
    ensures (Swap16(v) - 0x100 * v) % 0xffff == 0
    ensures Swap16(Swap16(v)) == v
    ensures v >= 1 ==> Swap16(v) >= 1
  {
    assert Swap16(v) - 0x100 * v == 0xffff * -(v / 0x100);
  }

  lemma SwapComplement(v: nat)
    requires v <= 0xffff
    ensures Swap16(0xffff - v) == 0xffff - Swap16(v)
  {
    assert v == v / 0x100 * 0x100 + v % 0x100;
    assert 0xffff - v == (0xff - v / 0x100) * 0x100 + (0xff - v % 0x100);
  }

  lemma CanonSwap(x: int)
    ensures Swap16(Canon(x)) == Canon(0x100 * x)
  {
    hide *;
    var c := Canon(x);
    SwapIsTimes256(c);
    CanonUnique(c, x);
    var k, m := (c - x) / 0xffff, (Swap16(c) - 0x100 * c) / 0xffff;
    assert Swap16(c) - 0x100 * x == 0xffff * (m + 0x100 * k);
    CanonUnique(Swap16(c), 0x100 * x);
  }

  /** The checksum as the routers store it: a uint16_t in network byte order. */
  function Checksum(s: seq<Byte>): (r: nat)
    ensures r <= 0xffff
  {
    Swap16(0xffff - Canon(Sum16(s)))
  }

  // ---- The byte-weighted form of the sum --------------------------------------------------

  /** Bytes weigh 256 and 1 in turn; odd says that the first one weighs 1. */
  function WeightedSum(s: seq<Byte>, odd: bool): (t: nat) {
    if |s| == 0 then 0
    else (if odd then Be16(0, s[0]) else Be16(s[0], 0)) + WeightedSum(s[1..], !odd)
  }

  lemma {:induction false} Sum16IsWeighted(s: seq<Byte>)
    ensures Sum16(s) == WeightedSum(s, false)
  {
    if |s| >= 2 {
      Sum16IsWeighted(s[2..]);
      assert s[1..][1..] == s[2..];
    }
  }

  lemma {:induction false} WeightedAppend(s: seq<Byte>, t: seq<Byte>, odd: bool)
    ensures WeightedSum(s + t, odd)
         == WeightedSum(s, odd) + WeightedSum(t, if |s| % 2 == 1 then !odd else odd)
  {
    if |s| == 0 {
      assert s + t == t;
    } else {
      WeightedAppend(s[1..], t, !odd);
      assert (s + t)[1..] == s[1..] + t;
    }
  }

  lemma {:induction false} WeightedZeros(n: nat, odd: bool)
    ensures WeightedSum(Zeros(n), odd) == 0
  {
    if n > 0 {
      WeightedZeros(n - 1, !odd);
      assert Zeros(n)[1..] == Zeros(n - 1);
    }
  }

  /** Starting one byte later multiplies the sum by 256 (RFC 1071 section 2(B)). */
  lemma {:induction false} ShiftByOneByte(s: seq<Byte>, odd: bool)
    ensures (0x100 * WeightedSum(s, odd) - WeightedSum(s, !odd)) % 0xffff == 0
  {
    if |s| > 0 {
      ShiftByOneByte(s[1..], !odd);
      var a: int, b: int, first: int := WeightedSum(s[1..], !odd), WeightedSum(s[1..], odd), s[0];
      assert (0x100 * a - b) % 0xffff == 0;
      if odd {
        assert 0x100 * WeightedSum(s, odd) - WeightedSum(s, !odd) == 0x100 * a - b;
      } else {
        assert 0x100 * WeightedSum(s, odd) - WeightedSum(s, !odd)
            == 0x100 * a - b + 0xffff * first;
      }
    }
  }

  lemma {:induction false} SumIsZeroIffAllZero(s: seq<Byte>, odd: bool)
    ensures WeightedSum(s, odd) == 0 <==> AllZero(s)
  {
    if |s| > 0 {
      SumIsZeroIffAllZero(s[1..], !odd);
      if AllZero(s) {
        assert AllZero(s[1..]);
      } else if s[0] == 0 {
        var i :| 0 <= i < |s| && s[i] != 0;
        assert s[1..][i - 1] != 0;
      }
    }
  }

  // ---- The one's complement machine of RFC 1071 --------------------------------------------

  /** One's complement addition: the carry out of 16 bits comes back in at the bottom. */
  function OnesAdd(a: nat, b: nat): (c: nat)
    requires a <= 0xffff && b <= 0xffff
    ensures c <= 0xffff
  {
    (a + b) % 0x10000 + (a + b) / 0x10000
  }

  /** One's complement addition of the 16-bit words of s to acc, carries folded at each step. */
  function OnesSum(acc: nat, s: seq<Byte>): (c: nat)
    requires acc <= 0xffff
    ensures c <= 0xffff
    decreases |s|
  {
    if |s| == 0 then acc
    else if |s| == 1 then OnesAdd(acc, Be16(s[0], 0))
    else OnesSum(OnesAdd(acc, Be16(s[0], s[1])), s[2..])
  }

  /** What remains to be added sees no difference between a carry folded now and later. */
  lemma FoldNowOrLater(a: nat, b: nat, rest: nat)
    requires a <= 0xffff && b <= 0xffff
    ensures Canon(OnesAdd(a, b) + rest) == Canon(a + b + rest)
    ensures OnesAdd(a, b) + rest == 0 <==> a + b + rest == 0
  {
    if a + b >= 0x10000 {
      assert (a + b) / 0x10000 == 1;
    }
    CanonCongruent(OnesAdd(a, b) + rest, a + b + rest);
  }

  lemma {:induction false} OnesSumMeaning(acc: nat, s: seq<Byte>)
    requires acc <= 0xffff
    ensures OnesSum(acc, s) == if acc + Sum16(s) == 0 then 0 else Canon(acc + Sum16(s))
    decreases |s|
  {
    hide Canon, OnesAdd, Be16;
    if |s| == 0 {
      if acc > 0 { CanonUnique(acc, acc); }
    } else if |s| == 1 {
      FoldNowOrLater(acc, Be16(s[0], 0), 0);
      OnesSumMeaning(OnesAdd(acc, Be16(s[0], 0)), []);
    } else {
      FoldNowOrLater(acc, Be16(s[0], s[1]), Sum16(s[2..]));
      OnesSumMeaning(OnesAdd(acc, Be16(s[0], s[1])), s[2..]);
    }
  }

  lemma ComplementMatters(c: nat, d: nat)
    requires c <= 0xffff && d <= 0xffff
    ensures Swap16(0xffff - c) == Swap16(0xffff - d) <==> c == d
  {
    SwapIsTimes256(0xffff - c);
    SwapIsTimes256(0xffff - d);
  }

  /** The machine of RFC 1071, started at zero, stores the same checksum exactly when some byte
      is non-zero; on all-zero data it stores 0xffff and the routers store 0. */
  lemma ChecksumIsOnesComplementSum(s: seq<Byte>)
    ensures Checksum(s) == Swap16(0xffff - OnesSum(0, s)) <==> !AllZero(s)
    ensures Checksum(s) == Swap16(0xffff - OnesSum(0xffff, s))
    ensures AllZero(s) ==> Checksum(s) == 0 && Swap16(0xffff - OnesSum(0, s)) == 0xffff
  {
    OnesSumValues(s);
    ComplementMatters(Canon(Sum16(s)), OnesSum(0, s));
  }

  lemma OnesSumValues(s: seq<Byte>)
    ensures OnesSum(0xffff, s) == Canon(Sum16(s))
    ensures OnesSum(0, s) == if AllZero(s) then 0 else Canon(Sum16(s))
    ensures AllZero(s) ==> Canon(Sum16(s)) == 0xffff
  {
    Sum16ZeroIffAllZero(s);
    OnesSumMeaning(0, s);
    OnesSumMeaning(0xffff, s);
    CanonPlusModulus(Sum16(s));
  }

  lemma CanonPlusModulus(t: nat)
    ensures Canon(0xffff + t) == Canon(t)
  {
    CanonCongruent(0xffff + t, t);
  }

  lemma Sum16ZeroIffAllZero(s: seq<Byte>)
    ensures Sum16(s) == 0 <==> AllZero(s)
  {
    Sum16IsWeighted(s);
    SumIsZeroIffAllZero(s, false);
  }

  /** The worked example of RFC 1071 section 3: the words sum to ddf2 and the checksum is 220d, in
      network byte order. */
  lemma Rfc1071Example()
    ensures var data: seq<Byte> := [0x00, 0x01, 0xf2, 0x03, 0xf4, 0xf5, 0xf6, 0xf7];
            Canon(Sum16(data)) == 0xddf2 && Checksum(data) == Swap16(0x220d) == 0x0d22
  {
    var data: seq<Byte> := [0x00, 0x01, 0xf2, 0x03, 0xf4, 0xf5, 0xf6, 0xf7];
    assert data[2..] == [0xf2, 0x03, 0xf4, 0xf5, 0xf6, 0xf7];
    assert data[2..][2..] == [0xf4, 0xf5, 0xf6, 0xf7];
    assert data[2..][2..][2..] == [0xf6, 0xf7];
    assert Sum16(data[2..][2..][2..]) == 0xf6f7;
    assert Sum16(data) == 0x2ddf0;
  }
}
