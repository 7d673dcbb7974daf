/** The two checksum routines of the router skeleton, on a little-endian host.  Words are
    mathematical integers; the width of the C accumulator is written out as a remainder. */
module Skel {
  import opened CTypes
  import opened InternetSum

  const TWO64: nat := 0x1_0000_0000_0000_0000

  /** The words of data from a word boundary on, the last one filled up with zero bytes. */
  ghost function TailSum(data: seq<Byte>): (t: nat) {
    if |data| == 0 then 0
    else if |data| < 4 then Be32(data + Zeros(4 - |data|))
    else Be32(data[..4]) + TailSum(data[4..])
  }

  /** How many bytes precede the first word boundary at address align modulo 4. */
  function Head(data: seq<Byte>, align: nat): (count: nat)
    requires align < 4
    ensures count <= |data|
  {
    if align == 0 then 0 else if 4 - align > |data| then |data| else 4 - align
  }

  /** The partial word at the start: the bytes before data are read as zero. */
  ghost function HeadWord(data: seq<Byte>, align: nat): (w: seq<Byte>)
    requires align < 4
    ensures |w| == 4
  {
    var count := Head(data, align);
    if align == 0 then Zeros(4) else Zeros(align) + data[..count] + Zeros(4 - align - count)
  }

  /** What the accumulator would hold if it were unbounded. */
  ghost function Total(data: seq<Byte>, align: nat): (t: nat)
    requires align < 4
  {
    0xffff + Be32(HeadWord(data, align)) + TailSum(data[Head(data, align)..])
  }

  /** How often the 64-bit accumulator wraps round; every wrap loses one carry. */
  ghost function Wraps(data: seq<Byte>, align: nat): (k: nat)
    requires align < 4
  {
    Total(data, align) / TWO64
  }

  /** An odd address swaps the two bytes of every 16-bit word: its sums are 256 times too big. */
  function Scaled(align: nat, x: int): (y: int) {
    if align % 2 == 1 then 0x100 * x else x
  }

  /** What ip_checksum returns for data of any length: each carry lost in a wrap is missing
      from the sum, and a total of exactly k * 2^64 looks like no data at all. */
  ghost function IpResult(data: seq<Byte>, align: nat): (r: nat)
    requires align < 4
  {
    if Total(data, align) % TWO64 == 0 then 0xffff
    else Swap16(0xffff - Canon(Sum16(data) - Scaled(align, Wraps(data, align))))
  }

  /** ip_checksum.  align is the address of data modulo 4.  The three phases of the C function
      are the words, the deferred carries and the byte swap. */
  method IpChecksum(data: seq<Byte>, align: nat) returns (r: nat)
    requires align < 4
    ensures r == IpResult(data, align)
    ensures align + |data| <= 0x4_0000_0000 ==> r == Checksum(data)
  {
    hide *;
    if align + |data| <= 0x4_0000_0000 { NoCarryLost(data, align); }
    var acc := AddWords(data, align);
    acc := FoldCarries(acc);
    SwapSteps(acc);
    LastSwap(data, align, acc);
    if align % 2 == 1 {
      acc := acc / 0x100 + acc % 0x100 * 0x100;
    }
    r := Swap16(0xffff - acc);
  }

  lemma LastSwap(data: seq<Byte>, align: nat, acc: nat)
    requires align < 4
    requires acc == var t := Total(data, align) % TWO64; if t == 0 then 0 else Canon(t)
    ensures acc <= 0xffff
    ensures Swap16(0xffff - (if align % 2 == 1 then Swap16(acc) else acc)) == IpResult(data, align)
    ensures Wraps(data, align) == 0 ==> IpResult(data, align) == Checksum(data)
  {
    hide Canon, Swap16, Sum16, TailSum, HeadWord, Be32;
    TotalMeaning(data, align);
    SwapEnds();
  }

  /** The words of ip_checksum, added in 64 bits. */
  method AddWords(data: seq<Byte>, align: nat) returns (acc: nat)
    requires align < 4
    ensures acc == Total(data, align) % TWO64 && acc < TWO64
  {
    hide Be32, HeadWord, TailSum, Total, Zeros, Head;
    acc := 0xffff;
    ghost var exact: nat := 0xffff + Be32(HeadWord(data, align));
    var pos, length := 0, |data|;
    if align != 0 {
      var count := 4 - align;
      if count > length { count := length; }
      var word := Zeros(align) + data[..count] + Zeros(4 - align - count);
      acc := (acc + Be32(word)) % TWO64;
      pos, length := count, length - count;
    }
    HeadWordValue(data, align);
    HeadValue(data, align);
    TotalParts(data, align);
    var end := pos + length / 4 * 4;
    while pos != end
      invariant pos <= end <= |data| < end + 4 && (end - pos) % 4 == 0
      invariant acc == exact % TWO64 && exact + TailSum(data[pos..]) == Total(data, align)
    {
      var word := data[pos..pos + 4];
      TailStep(data, pos);
      ModAdd(exact, Be32(word));
      acc := (acc + Be32(word)) % TWO64;
      exact := exact + Be32(word);
      pos := pos + 4;
    }
    length := |data| - pos;
    TailEnd(data[pos..]);
    if length != 0 {
      var word := data[pos..] + Zeros(4 - length);
      ModAdd(exact, Be32(word));
      acc := (acc + Be32(word)) % TWO64;
    }
  }

  /** The deferred carries of ip_checksum. */
  method FoldCarries(total: nat) returns (acc: nat)
    requires total < TWO64
    ensures acc == if total == 0 then 0 else Canon(total)
  {
    FirstFold(total);
    acc := total % 0x1_0000_0000 + total / 0x1_0000_0000;
    while acc / 0x1_0000 != 0
      invariant (acc == 0 <==> total == 0) && Canon(acc) == Canon(total)
      decreases acc
    {
      Fold(acc);
      acc := acc % 0x1_0000 + acc / 0x1_0000;
    }
    if acc > 0 { CanonUnique(acc, acc); }
  }

  lemma TailStep(data: seq<Byte>, pos: nat)
    requires pos + 4 <= |data|
    ensures TailSum(data[pos..]) == Be32(data[pos..pos + 4]) + TailSum(data[pos + 4..])
  {
    assert data[pos..][..4] == data[pos..pos + 4] && data[pos..][4..] == data[pos + 4..];
  }

  lemma TailEnd(rest: seq<Byte>)
    requires |rest| < 4
    ensures TailSum(rest) == if |rest| == 0 then 0 else Be32(rest + Zeros(4 - |rest|))
  {
  }

  lemma HeadValue(data: seq<Byte>, align: nat)
    requires align < 4
    ensures Head(data, align) == if align == 0 then 0 else if 4 - align > |data| then |data| else 4 - align
  {
  }

  lemma TotalParts(data: seq<Byte>, align: nat)
    requires align < 4
    ensures Total(data, align) == 0xffff + Be32(HeadWord(data, align)) + TailSum(data[Head(data, align)..])
  {
  }

  lemma HeadWordValue(data: seq<Byte>, align: nat)
    requires align < 4
    ensures align == 0 ==> Be32(HeadWord(data, align)) == 0
    ensures align > 0 ==> var count := Head(data, align);
                          HeadWord(data, align) == Zeros(align) + data[..count] + Zeros(4 - align - count)
  {
    ZeroWord();
  }

  lemma ZeroWord()
    ensures Be32(Zeros(4)) == 0
  {
    var z := Zeros(4);
    assert z[0] == 0 && z[1] == 0 && z[2] == 0 && z[3] == 0;
  }

  lemma SwapEnds()
    ensures Swap16(0) == 0 && Swap16(0xffff) == 0xffff
  {
  }

  lemma SwapSteps(acc: nat)
    requires acc <= 0xffff
    ensures Swap16(acc) == acc / 0x100 + acc % 0x100 * 0x100
  {
  }

  lemma ModAdd(t: nat, w: nat)
    ensures (t % TWO64 + w) % TWO64 == (t + w) % TWO64
  {
  }

  lemma FirstFold(acc: nat)
    requires acc < TWO64
    ensures var f := acc % 0x1_0000_0000 + acc / 0x1_0000_0000;
            f < 0x2_0000_0000 && Canon(f) == Canon(acc) && (acc >= 1 ==> f >= 1)
  {
    var q := acc / 0x1_0000_0000;
    var f := acc % 0x1_0000_0000 + q;
    assert acc - f == 0xffff * (q * 0x1_0001);
    CanonCongruent(f, acc);
  }

  lemma Fold(acc: nat)
    ensures var f := acc % 0x1_0000 + acc / 0x1_0000;
            Canon(f) == Canon(acc) && (acc >= 1 ==> f >= 1) && (acc >= 0x1_0000 ==> f < acc)
  {
    var q := acc / 0x1_0000;
    var f := acc % 0x1_0000 + q;
    assert acc - f == 0xffff * q;
    CanonCongruent(f, acc);
  }

  // ---- What the accumulated total means ----------------------------------------------------

  lemma OneBlock(w: seq<Byte>)
    requires |w| == 4
    ensures (Be32(w) - WeightedSum(w, false)) % 0xffff == 0
  {
    Sum16IsWeighted(w);
    assert w[2..][2..] == [];
    assert Sum16(w[2..]) == Be16(w[2], w[3]);
    assert Sum16(w) == Be16(w[0], w[1]) + Be16(w[2], w[3]);
    assert Be32(w) - Sum16(w) == 0xffff * Be16(w[0], w[1]);
  }

  lemma {:induction false} TailIsWeighted(data: seq<Byte>)
    ensures (TailSum(data) - WeightedSum(data, false)) % 0xffff == 0
  {
    if 0 < |data| < 4 {
      var pad := Zeros(4 - |data|);
      OneBlock(data + pad);
      WeightedAppend(data, pad, false);
      WeightedZeros(|pad|, |data| % 2 == 1);
    } else if |data| >= 4 {
      OneBlock(data[..4]);
      TailIsWeighted(data[4..]);
      assert data == data[..4] + data[4..];
      WeightedAppend(data[..4], data[4..], false);
      AddCongruences(Be32(data[..4]), WeightedSum(data[..4], false),
                     TailSum(data[4..]), WeightedSum(data[4..], false));
    }
  }

  lemma AddCongruences(a: nat, b: nat, c: nat, d: nat)
    requires (a - b) % 0xffff == 0 && (c - d) % 0xffff == 0
    ensures ((a + c) - (b + d)) % 0xffff == 0
  {
  }

  lemma HeadIsWeighted(data: seq<Byte>, align: nat)
    requires align < 4
    ensures (Be32(HeadWord(data, align)) - WeightedSum(data[..Head(data, align)], align % 2 == 1)) % 0xffff == 0
  {
    hide Be32, HeadWord;
    OneBlock(HeadWord(data, align));
    HeadWordValue(data, align);
    if align == 0 {
      assert data[..0] == [];
    } else {
      PaddedWeight(data[..Head(data, align)], align);
    }
  }

  /** Zero bytes around a string weigh nothing. */
  lemma PaddedWeight(front: seq<Byte>, align: nat)
    requires 0 < align && align + |front| <= 4
    ensures WeightedSum(Zeros(align) + front + Zeros(4 - align - |front|), false)
         == WeightedSum(front, align % 2 == 1)
  {
    hide WeightedSum;
    var pad := Zeros(4 - align - |front|);
    assert Zeros(align) + front + pad == Zeros(align) + (front + pad);
    WeightedAppend(Zeros(align), front + pad, false);
    WeightedAppend(front, pad, align % 2 == 1);
    WeightedZeros(align, false);
    WeightedZeros(|pad|, if |front| % 2 == 1 then align % 2 != 1 else align % 2 == 1);
  }

  lemma TotalIsWeighted(data: seq<Byte>, align: nat)
    requires align < 4
    ensures (Total(data, align) - 0xffff - WeightedSum(data, align % 2 == 1)) % 0xffff == 0
  {
    hide TailSum, Be32, HeadWord;
    var count := Head(data, align);
    var front, back := data[..count], data[count..];
    HeadIsWeighted(data, align);
    TailIsWeighted(back);
    assert data == front + back;
    WeightedAppend(front, back, align % 2 == 1);
    assert WeightedSum(data, align % 2 == 1)
        == WeightedSum(front, align % 2 == 1) + WeightedSum(back, false);
    AddCongruences(Be32(HeadWord(data, align)), WeightedSum(front, align % 2 == 1),
                   TailSum(back), WeightedSum(back, false));
  }

  lemma AlignmentScales(data: seq<Byte>, align: nat)
    ensures (WeightedSum(data, align % 2 == 1) - Scaled(align, Sum16(data))) % 0xffff == 0
  {
    Sum16IsWeighted(data);
    if align % 2 == 1 {
      ShiftByOneByte(data, false);
      var a: int, b: int := Sum16(data), WeightedSum(data, true);
      assert (0x100 * a - b) % 0xffff == 0;
      assert b - 0x100 * a == -(0x100 * a - b);
    }
  }

  lemma TotalMeaning(data: seq<Byte>, align: nat)
    requires align < 4
    ensures var c := Canon(Total(data, align) % TWO64);
            (if align % 2 == 1 then Swap16(c) else c)
            == Canon(Sum16(data) - Scaled(align, Wraps(data, align)))
  {
    hide TailSum, HeadWord, Be32, WeightedSum, Canon, Swap16, Scaled, Sum16;
    TotalIsWeighted(data, align);
    AlignmentScales(data, align);
    TotalResidue(Total(data, align), WeightedSum(data, align % 2 == 1), Scaled(align, Sum16(data)));
    SwapBack(align, Total(data, align) % TWO64, Sum16(data), Wraps(data, align));
  }

  /** The final byte swap undoes the factor 256 of an odd address. */
  lemma SwapBack(align: nat, r: nat, s: nat, k: nat)
    requires Canon(r) == Canon(Scaled(align, s) - k)
    ensures (if align % 2 == 1 then Swap16(Canon(r)) else Canon(r)) == Canon(s - Scaled(align, k))
  {
    if align % 2 == 1 {
      CanonSwap(r);
      TimesTwiceTwoFiftySix(r, s, k);
    }
  }

  lemma TotalResidue(t: nat, w: nat, s: int)
    requires (t - 0xffff - w) % 0xffff == 0 && (w - s) % 0xffff == 0
    ensures Canon(t % TWO64) == Canon(s - t / TWO64)
  {
    var r, k := t % TWO64, t / TWO64;
    assert t == TWO64 * k + r;
    assert TWO64 * k == k + 0xffff * (0x1_0001_0001_0001 * k);
    var x: int, y: int := (t - 0xffff - w) / 0xffff, (w - s) / 0xffff;
    assert r - (s - k) == 0xffff * (1 + x + y - 0x1_0001_0001_0001 * k);
    CanonCongruent(r, s - k);
  }

  lemma TimesTwiceTwoFiftySix(r: int, s: nat, k: nat)
    requires Canon(r) == Canon(0x100 * s - k)
    ensures Canon(0x100 * r) == Canon(s - 0x100 * k)
  {
    hide *;
    CanonCongruent(r, 0x100 * s - k);
    var x := (r - (0x100 * s - k)) / 0xffff;
    assert 0x100 * r - (s - 0x100 * k) == 0xffff * (0x100 * x + s);
    CanonCongruent(0x100 * r, s - 0x100 * k);
  }

  // ---- When the 64-bit accumulator is wide enough -------------------------------------------

  lemma {:induction false} TailBound(data: seq<Byte>)
    ensures TailSum(data) <= (|data| + 3) / 4 * 0xffff_ffff
  {
    if |data| >= 4 {
      TailBound(data[4..]);
      assert (|data| + 3) / 4 == (|data[4..]| + 3) / 4 + 1;
    }
  }

  /** Up to 2^32 words no carry is lost, so the checksum does not depend on the address. */
  lemma NoCarryLost(data: seq<Byte>, align: nat)
    requires align < 4 && align + |data| <= 0x4_0000_0000
    ensures Wraps(data, align) == 0
  {
    var count := Head(data, align);
    TailBound(data[count..]);
    var words := (|data| - count + 3) / 4;
    if align > 0 {
      assert words <= 0xffff_ffff;
    } else {
      assert words <= 0x1_0000_0000;
      HeadWordValue(data, align);
    }
    assert words * 0xffff_ffff <= (if align > 0 then 0xffff_ffff else 0x1_0000_0000) * 0xffff_ffff;
  }

  /** A lost carry shows: the result is right exactly when the accumulator did not end at zero and
      the number of wraps is a multiple of 0xffff.  Below 0xffff wraps, as for any buffer that
      fits a memory, that means that it did not wrap. */
  lemma LostCarryShows(data: seq<Byte>, align: nat)
    requires align < 4
    ensures IpResult(data, align) == Checksum(data) <==>
              Total(data, align) % TWO64 != 0 && Wraps(data, align) % 0xffff == 0
    ensures Wraps(data, align) < 0xffff ==>
              (IpResult(data, align) == Checksum(data) <==> Wraps(data, align) == 0)
  {
    hide Canon, Swap16, Sum16, TailSum, HeadWord, Be32, Scaled;
    var c, k := Canon(Sum16(data)), Wraps(data, align);
    SwapEnds();
    if Total(data, align) % TWO64 == 0 {
      ComplementMatters(c, 0);
    } else {
      ScaledIsZero(align, Sum16(data), k);
      ComplementMatters(c, Canon(Sum16(data) - Scaled(align, k)));
    }
  }

  lemma ScaledIsZero(align: nat, s: nat, k: nat)
    ensures Canon(s) == Canon(s - Scaled(align, k)) <==> k % 0xffff == 0
  {
    hide Canon;
    CanonCongruent(s, s - Scaled(align, k));
    Times256IsZero(k);
    assert s - (s - Scaled(align, k)) == Scaled(align, k);
  }

  lemma Times256IsZero(k: nat)
    ensures 0x100 * k % 0xffff == 0 <==> k % 0xffff == 0
  {
    if k % 0xffff == 0 {
      Multiple(0x100 * k, 0x100 * (k / 0xffff));
    }
    if 0x100 * k % 0xffff == 0 {
      Multiple(k, 0x100 * (0x100 * k / 0xffff) - k);
    }
  }

  lemma Multiple(x: nat, q: int)
    requires x == 0xffff * q
    ensures x % 0xffff == 0
  {
  }

  lemma {:induction false} AllOnes(n: nat)
    ensures TailSum(seq(4 * n, _ => 0xff as Byte)) == n * 0xffff_ffff
  {
    if n > 0 {
      var d := seq(4 * n, _ => 0xff as Byte);
      AllOnes(n - 1);
      assert d[4..] == seq(4 * (n - 1), _ => 0xff as Byte);
      assert Be32(d[..4]) == 0xffff_ffff;
    }
  }

  /** One word more than the bound: data on which the accumulator wraps and the result is wrong. */
  lemma BoundIsTight()
    ensures exists data: seq<Byte> :: |data| == 0x4_0000_0004 && IpResult(data, 0) != Checksum(data)
  {
    hide TailSum, IpResult, Checksum;
    var data: seq<Byte> := seq(4 * 0x1_0000_0001, _ => 0xff as Byte);
    AllOnes(0x1_0000_0001);
    assert data[0..] == data;
    HeadWordValue(data, 0);
    assert Wraps(data, 0) == 1;
    LostCarryShows(data, 0);
    assert |data| == 0x4_0000_0004 && IpResult(data, 0) != Checksum(data);
  }

  // ---- icmp_checksum ------------------------------------------------------------------------

  /** The 16-bit words as a little-endian host reads them. */
  function Le16Sum(s: seq<Byte>): (t: nat) {
    if |s| < 2 then 0 else Be16(s[1], s[0]) + Le16Sum(s[2..])
  }

  /** The two folds of icmp_checksum leave a carry behind iff this is above 0xffff. */
  function AfterTwoFolds(t: nat): (x: nat) {
    var once := t / 0x1_0000 + t % 0x1_0000;
    once % 0x1_0000 + once / 0x1_0000
  }

  function IcmpResult(data: seq<Byte>): (r: nat) {
    0xffff - AfterTwoFolds(Le16Sum(data)) % 0x1_0000
  }

  /** icmp_checksum on an even number of bytes (on an odd number it reads past the end).
      size is 32 bits wide, so the 64-bit sum cannot wrap. */
  method IcmpChecksum(data: seq<Byte>) returns (r: nat)
    requires |data| % 2 == 0 && |data| < 0x1_0000_0000
    ensures r == IcmpResult(data)
    ensures |data| <= 0x2_0004 && !AllZero(data) ==> r == Checksum(data)
  {
    hide *;
    IcmpAgreesWithIp(data);
    var cksum: nat, size: nat, buffer: nat := 0, |data|, 0;
    assert data[0..] == data;
    while size > 1
      invariant buffer + size == |data| && size % 2 == 0
      invariant cksum + Le16Sum(data[buffer..]) == Le16Sum(data)
    {
      Le16Step(data, buffer);
      cksum := cksum + Be16(data[buffer + 1], data[buffer]);
      buffer := buffer + 2;
      size := size - 2;
    }
    Le16Bound(data[buffer..]);
    IcmpFolds(data);
    cksum := cksum / 0x1_0000 + cksum % 0x1_0000;
    cksum := cksum + cksum / 0x1_0000;
    r := 0xffff - cksum % 0x1_0000;
  }

  lemma Le16Step(data: seq<Byte>, buffer: nat)
    requires buffer + 2 <= |data|
    ensures Le16Sum(data[buffer..]) == Be16(data[buffer + 1], data[buffer]) + Le16Sum(data[buffer + 2..])
  {
    assert data[buffer..][2..] == data[buffer + 2..];
  }

  lemma IcmpFolds(data: seq<Byte>)
    ensures var t := Le16Sum(data);
            var once := t / 0x1_0000 + t % 0x1_0000;
            0xffff - (once + once / 0x1_0000) % 0x1_0000 == IcmpResult(data)
  {
    hide Le16Sum;
  }

  lemma {:induction false} Le16Bound(data: seq<Byte>)
    requires |data| % 2 == 0
    ensures Le16Sum(data) <= |data| / 2 * 0xffff
  {
    if |data| >= 2 { Le16Bound(data[2..]); }
  }

  lemma {:induction false} Le16IsSwapped(data: seq<Byte>)
    requires |data| % 2 == 0
    ensures (Le16Sum(data) - WeightedSum(data, true)) % 0xffff == 0
    ensures Le16Sum(data) == WeightedSum(data, true)
  {
    if |data| >= 2 {
      Le16IsSwapped(data[2..]);
      assert data[1..][1..] == data[2..];
    }
  }

  /** The value icmp_checksum would store had it folded until no carry was left. */
  lemma FoldedByteOrder(data: seq<Byte>)
    requires |data| % 2 == 0
    ensures Canon(Le16Sum(data)) == Swap16(Canon(Sum16(data)))
    ensures Le16Sum(data) == 0 <==> AllZero(data)
  {
    Le16IsSwapped(data);
    SumIsZeroIffAllZero(data, true);
    Sum16IsWeighted(data);
    ShiftByOneByte(data, false);
    CanonSwap(Sum16(data));
    CanonCongruent(0x100 * Sum16(data), Le16Sum(data));
  }

  lemma TwoFoldsMeaning(t: nat)
    requires 0 < t < 0x8000_0000 * 0x1_0000
    ensures AfterTwoFolds(t) <= 0xffff ==> AfterTwoFolds(t) == Canon(t)
    ensures AfterTwoFolds(t) > 0xffff ==> AfterTwoFolds(t) % 0x1_0000 != Canon(t)
    ensures t < 0x1_0000_ffff ==> AfterTwoFolds(t) <= 0xffff
  {
    hide Canon;
    var once := t % 0x1_0000 + t / 0x1_0000;
    Fold(t);
    Fold(once);
    FoldsSmall(t, once);
    NotCanon(AfterTwoFolds(t), t);
  }

  lemma FoldsSmall(t: nat, once: nat)
    requires 0 < t < 0x8000_0000 * 0x1_0000 && once == t / 0x1_0000 + t % 0x1_0000
    ensures 1 <= AfterTwoFolds(t) < 0x1_ffff
    ensures t < 0x1_0000_ffff ==> AfterTwoFolds(t) <= 0xffff
  {
    assert t / 0x1_0000 < 0x8000_0000;
    assert once < 0x8001_0000;
    if t < 0x1_0000_ffff {
      assert once <= 0x1_fffe;
    }
  }

  lemma NotCanon(x: nat, t: nat)
    requires Canon(x) == Canon(t) && 1 <= x < 0x1_ffff
    ensures x <= 0xffff ==> x == Canon(t)
    ensures x > 0xffff ==> x % 0x1_0000 != Canon(t)
  {
    hide Canon;
    if x <= 0xffff {
      CanonUnique(x, x);
    } else if x > 0x1_0000 {
      CanonUnique(x - 0x1_0000, x);
    }
  }

  /** Byte order independence (RFC 1071 section 2(B)): both routines store the same two bytes,
      unless the data are all zero or two folds were too few. */
  lemma IcmpAgreesWithIp(data: seq<Byte>)
    requires |data| % 2 == 0 && |data| < 0x1_0000_0000
    ensures IcmpResult(data) == Checksum(data) <==> !AllZero(data) && AfterTwoFolds(Le16Sum(data)) <= 0xffff
    ensures |data| <= 0x2_0004 ==> AfterTwoFolds(Le16Sum(data)) <= 0xffff
    ensures AllZero(data) ==> IcmpResult(data) == 0xffff && Checksum(data) == 0
  {
    hide Canon, Swap16, Sum16, Le16Sum, AfterTwoFolds, AllZero, Checksum;
    var t, c := Le16Sum(data), Canon(Sum16(data));
    FoldedByteOrder(data);
    ChecksumValue(data);
    Le16Bound(data);
    if t == 0 {
      ZeroValues();
    } else {
      TwoFoldsMeaning(t);
    }
  }

  lemma {:induction false} AllOnesLe16(n: nat)
    ensures Le16Sum(seq(2 * n, _ => 0xff as Byte)) == n * 0xffff
  {
    if n > 0 {
      var d := seq(2 * n, _ => 0xff as Byte);
      AllOnesLe16(n - 1);
      assert d[2..] == seq(2 * (n - 1), _ => 0xff as Byte);
    }
  }

  /** Two bytes more and two folds can be too few. */
  lemma TwoFoldsTooFew()
    ensures exists data: seq<Byte> ::
      |data| == 0x2_0006 && !AllZero(data) && IcmpResult(data) != Checksum(data)
  {
    hide Le16Sum, IcmpResult, Checksum;
    var ones: seq<Byte> := seq(2 * 0x1_0002, _ => 0xff as Byte);
    var data: seq<Byte> := [1, 0] + ones;
    AllOnesLe16(0x1_0002);
    assert data[2..] == ones;
    assert Le16Sum(data) == 0x1_0000_ffff by { Le16Step(data, 0); assert data[0..] == data; }
    assert AfterTwoFolds(0x1_0000_ffff) == 0x1_0000;
    assert data[0] == 1;
    IcmpAgreesWithIp(data);
    assert |data| == 0x2_0006 && !AllZero(data) && IcmpResult(data) != Checksum(data);
  }

  lemma ChecksumValue(s: seq<Byte>)
    ensures Checksum(s) == 0xffff - Swap16(Canon(Sum16(s)))
  {
    SwapComplement(Canon(Sum16(s)));
  }

  lemma ZeroValues()
    ensures AfterTwoFolds(0) == 0 && Canon(0) == 0xffff
  {
  }
}
