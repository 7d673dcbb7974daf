/** 32-bit words as the bits a C program sees, least significant first.  An address in network
    byte order on a little-endian host has its first octet in bits 0..7. */
module Words {
  type Word = w: seq<bool> | |w| == 32 witness seq(32, _ => false)

  function Clear(): (w: Word)
    ensures forall i :: 0 <= i < 32 ==> !w[i]
  {
    seq(32, _ => false)
  }

  const ZERO: Word := Clear()

  function And(a: Word, b: Word): (c: Word) {
    seq(32, i requires 0 <= i < 32 => a[i] && b[i])
  }

  /** The unsigned value. */
  function Value(bits: seq<bool>): (v: nat) {
    if |bits| == 0 then 0 else (if bits[0] then 1 else 0) + 2 * Value(bits[1..])
  }

  /** htonl and ntohl. */
  function ByteSwap(w: Word): (s: Word) {
    w[24..] + w[16..24] + w[8..16] + w[..8]
  }

  /** The contiguous mask of length len in host order: the top len bits. */
  function HostMask(len: nat): (m: Word)
    requires len <= 32
  {
    seq(32, i requires 0 <= i < 32 => i >= 32 - len)
  }

  function NetMask(len: nat): (m: Word)
    requires len <= 32
  {
    ByteSwap(HostMask(len))
  }

  ghost predicate Within(a: seq<bool>, b: seq<bool>)
    requires |a| == |b|
  {
    forall i :: 0 <= i < |a| ==> (a[i] ==> b[i])
  }

  lemma {:induction false} MoreBitsMoreValue(a: seq<bool>, b: seq<bool>)
    requires |a| == |b| && Within(a, b)
    ensures Value(a) <= Value(b) && (a != b ==> Value(a) < Value(b))
  {
    if |a| > 0 {
      MoreBitsMoreValue(a[1..], b[1..]);
      assert a == [a[0]] + a[1..] && b == [b[0]] + b[1..];
    }
  }

  /** Longer masks stay numerically greater after the byte swap. */
  lemma NetMaskOrder(x: nat, y: nat)
    requires x <= y <= 32
    ensures x < y <==> Value(NetMask(x)) < Value(NetMask(y))
    ensures x == y <==> NetMask(x) == NetMask(y)
  {
    hide Value;
    var a, b := NetMask(x), NetMask(y);
    SwapKeepsWithin(HostMask(x), HostMask(y));
    MoreBitsMoreValue(a, b);
    if x < y {
      var j := 31 - x;
      var k := (3 - j / 8) * 8 + j % 8;
      assert !HostMask(x)[j] && HostMask(y)[j];
      assert ByteSwap(HostMask(x))[k] == HostMask(x)[j] by { SwapAt(HostMask(x), j); }
      assert ByteSwap(HostMask(y))[k] == HostMask(y)[j] by { SwapAt(HostMask(y), j); }
    }
  }

  lemma SwapKeepsWithin(v: Word, w: Word)
    requires Within(v, w)
    ensures Within(ByteSwap(v), ByteSwap(w))
  {
  }

  lemma SwapAt(w: Word, j: nat)
    requires j < 32
    ensures ByteSwap(w)[(3 - j / 8) * 8 + j % 8] == w[j]
  {
  }

  lemma SwapTwice(w: Word)
    ensures ByteSwap(ByteSwap(w)) == w
  {
    hide ByteSwap;
    forall k | 0 <= k < 32 ensures ByteSwap(ByteSwap(w))[k] == w[k] {
      var j := (3 - k / 8) * 8 + k % 8;
      SwapAt(w, k);
      SwapAt(ByteSwap(w), j);
      assert (3 - j / 8) * 8 + j % 8 == k;
    }
  }

  lemma {:induction false} ZeroValue(bits: seq<bool>)
    ensures Value(bits) == 0 <==> forall i :: 0 <= i < |bits| ==> !bits[i]
  {
    if |bits| > 0 {
      ZeroValue(bits[1..]);
      assert bits == [bits[0]] + bits[1..];
      if forall i :: 0 <= i < |bits[1..]| ==> !bits[1..][i] {
        assert forall i :: 1 <= i < |bits| ==> bits[i] == bits[1..][i - 1];
      }
    }
  }

  lemma {:induction false} ValueInjective(a: seq<bool>, b: seq<bool>)
    requires |a| == |b| && Value(a) == Value(b)
    ensures a == b
  {
    if |a| > 0 {
      ValueInjective(a[1..], b[1..]);
      assert a == [a[0]] + a[1..] && b == [b[0]] + b[1..];
    }
  }

  lemma {:induction false} ValueBound(bits: seq<bool>)
    requires |bits| <= 32
    ensures Value(bits) < Power2(|bits|)
  {
    if |bits| > 0 { ValueBound(bits[1..]); }
  }

  function Power2(n: nat): (p: nat)
    ensures p >= 1
  {
    if n == 0 then 1 else 2 * Power2(n - 1)
  }
}
