/** The IPv4 header as the routers see it: 20 bytes in memory, 16-bit fields read and written
    by a little-endian host.  Two acceptance tests are in use and one way of forwarding. */
module Header {
  import opened CTypes
  import opened InternetSum
  import Skel

  const SIZE := 20
  const TTL := 8
  const PROTOCOL := 9
  const CHECK := 10
  const SADDR := 12
  const DADDR := 16

  type Bytes20 = h: seq<Byte> | |h| == SIZE witness Zeros(20)

  function Load16(h: Bytes20, k: nat): (v: nat)
    requires k + 1 < SIZE
  {
    Be16(h[k + 1], h[k])
  }

  function Store16(h: Bytes20, k: nat, v: nat): (h': Bytes20)
    requires k + 1 < SIZE && v <= 0xffff
  {
    h[k := v % 0x100][k + 1 := v / 0x100]
  }

  /** The check of the assignment's routers: blank the field, recompute, compare. */
  predicate AcceptedByRecomputing(h: Bytes20) {
    Checksum(Store16(h, CHECK, 0)) == Load16(h, CHECK)
  }

  /** The check of the laboratory router: the checksum of the whole header is zero. */
  predicate AcceptedByZeroSum(h: Bytes20) {
    Checksum(h) == 0
  }

  /** check = 0; check = ip_checksum(header). */
  function Stamped(h: Bytes20): (h': Bytes20) {
    var blank := Store16(h, CHECK, 0);
    Store16(blank, CHECK, Checksum(blank))
  }

  /** ttl - 1 in a uint8_t. */
  function OneLess(ttl: Byte): (t: Byte) {
    if ttl == 0 then 0xff else ttl - 1
  }

  /** The header a router sends on. */
  function Forwarded(h: Bytes20): (h': Bytes20) {
    Stamped(h[TTL := OneLess(h[TTL])])
  }

  /** The routers rewrite the received header in place; align is its address modulo 4. */
  method RewriteInPlace(h: array<Byte>, align: nat)
    requires h.Length == SIZE && align < 4
    modifies h
    ensures h[..] == Forwarded(old(h[..]))
  {
    hide Checksum;
    h[TTL] := OneLess(h[TTL]);
    h[CHECK], h[CHECK + 1] := 0, 0;
    assert h[..] == Store16(old(h[..])[TTL := OneLess(old(h[TTL]))], CHECK, 0);
    var checksum := Skel.IpChecksum(h[..], align);
    h[CHECK], h[CHECK + 1] := checksum % 0x100, checksum / 0x100;
  }

  lemma FieldSum(h: Bytes20, v: nat)
    requires v <= 0xffff
    ensures Sum16(Store16(h, CHECK, v)) == Sum16(Store16(h, CHECK, 0)) + Swap16(v)
  {
    hide Sum16, Swap16;
    SplitAtField(h, v);
    SplitAtField(h, 0);
    SwapValue(v);
    SwapValue(0);
  }

  lemma SwapValue(v: nat)
    requires v <= 0xffff
    ensures Swap16(v) == Be16(v % 0x100, v / 0x100)
  {
  }

  lemma SplitAtField(h: Bytes20, v: nat)
    requires v <= 0xffff
    ensures Sum16(Store16(h, CHECK, v))
         == WeightedSum(h[..CHECK], false) + Be16(v % 0x100, v / 0x100) + WeightedSum(h[CHECK + 2..], false)
  {
    var s, field: seq<Byte> := Store16(h, CHECK, v), [v % 0x100, v / 0x100];
    assert s == h[..CHECK] + (field + h[CHECK + 2..]);
    Sum16IsWeighted(s);
    WeightedAppend(h[..CHECK], field + h[CHECK + 2..], false);
    WeightedAppend(field, h[CHECK + 2..], false);
    Sum16IsWeighted(field);
    assert field[2..] == [];
  }

  lemma LoadBack(h: Bytes20)
    ensures Load16(h, CHECK) <= 0xffff && Store16(h, CHECK, Load16(h, CHECK)) == h
  {
    var hi: int, lo: int := h[CHECK + 1], h[CHECK];
    assert Load16(h, CHECK) == hi * 0x100 + lo;
  }

  /** Blanked, the rest of the header sums to t; c completes it to a whole header. */
  lemma Completing(t: nat, c: nat)
    requires c <= 0xffff
    ensures Canon(t + c) == 0xffff <==> c == 0xffff - Canon(t) || (c == 0xffff && Canon(t) == 0xffff)
  {
    CanonUnique(Canon(t), t);
    CanonUnique(0xffff, t + c);
  }

  lemma ChecksumIsZero(s: seq<Byte>)
    ensures Checksum(s) == 0 <==> Canon(Sum16(s)) == 0xffff
  {
    ComplementMatters(Canon(Sum16(s)), 0xffff);
    assert Swap16(0) == 0;
  }

  /** Recomputing rejects one kind of header that the whole sum accepts: the field holding the
      negative zero of RFC 1624 section 3. */
  lemma AcceptanceTestsDiffer(h: Bytes20)
    ensures AcceptedByRecomputing(h) <==> AcceptedByZeroSum(h) && Load16(h, CHECK) != 0xffff
  {
    hide Canon, Swap16, Sum16, Be16;
    var v, blank := Load16(h, CHECK), Store16(h, CHECK, 0);
    var t := Sum16(blank);
    LoadBack(h);
    FieldSum(h, v);
    ChecksumIsZero(h);
    Completing(t, Swap16(v));
    SwapIsTimes256(v);
    SwapIsTimes256(0xffff - Canon(t));
    OnlyAllOnesSwapsToAllOnes(v);
  }

  lemma OnlyAllOnesSwapsToAllOnes(v: nat)
    requires v <= 0xffff
    ensures Swap16(v) == 0xffff <==> v == 0xffff
  {
  }

  /** Both tests accept a header stamped by a router. */
  lemma StampedIsAccepted(h: Bytes20)
    ensures AcceptedByRecomputing(Stamped(h)) && AcceptedByZeroSum(Stamped(h))
  {
    var blank := Store16(h, CHECK, 0);
    var s := Stamped(h);
    assert Store16(s, CHECK, 0) == blank;
    LoadStore(blank, CHECK, Checksum(blank));
    AcceptanceTestsDiffer(s);
  }

  lemma LoadStore(h: Bytes20, k: nat, v: nat)
    requires k + 1 < SIZE && v <= 0xffff
    ensures Load16(Store16(h, k, v), k) == v
  {
    assert v == v / 0x100 * 0x100 + v % 0x100;
  }

  lemma OneLessWraps(ttl: Byte)
    ensures OneLess(ttl) == (ttl as int + 0xff) % 0x100
  {
  }

  lemma StampedBytes(h: Bytes20)
    ensures forall i :: 0 <= i < 20 && i !in {10, 11} ==> Stamped(h)[i] == h[i]
  {
    hide Checksum;
  }

  /** Forwarding changes the TTL in byte 8, by one with wrap-around, and the checksum in bytes 10
      and 11 (RFC 791 section 3.1). */
  lemma ForwardedHeader(h: Bytes20)
    ensures Forwarded(h)[8] == (h[8] as int + 0xff) % 0x100
    ensures forall i :: 0 <= i < 20 && i !in {8, 10, 11} ==> Forwarded(h)[i] == h[i]
    ensures AcceptedByRecomputing(Forwarded(h)) && AcceptedByZeroSum(Forwarded(h))
  {
    hide Checksum, AcceptedByRecomputing, AcceptedByZeroSum, Stamped, OneLess;
    var h' := h[TTL := OneLess(h[TTL])];
    OneLessWraps(h[TTL]);
    StampedBytes(h');
    StampedIsAccepted(h');
  }

  /** The tests do differ: an empty header with the negative zero in its checksum field. */
  lemma NegativeZeroExample()
    ensures AcceptedByZeroSum(Store16(Zeros(20), CHECK, 0xffff))
    ensures !AcceptedByRecomputing(Store16(Zeros(20), CHECK, 0xffff))
  {
    hide Canon, Sum16, Swap16, Be16, Load16, Checksum, AcceptedByRecomputing;
    var z: Bytes20 := Zeros(20);
    var h := Store16(z, CHECK, 0xffff);
    assert Store16(z, CHECK, 0) == z;
    Sum16ZeroIffAllZero(z);
    FieldSum(z, 0xffff);
    OnlyAllOnesSwapsToAllOnes(0xffff);
    CanonUnique(0xffff, 0xffff);
    ChecksumIsZero(h);
    LoadStore(z, CHECK, 0xffff);
    AcceptanceTestsDiffer(h);
  }
}
