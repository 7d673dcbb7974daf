/** The two table searches: the linear scan of the laboratory router and the binary search of
    the assignment.  Prefixes and masks are words in network byte order, compared as numbers. */
module RouteTable {
  import opened CTypes
  import opened Words

  datatype Route = Route(prefix: Word, nextHop: Word, mask: Word, iface: int)

  predicate Matches(r: Route, dest: Word) {
    And(dest, r.mask) == r.prefix
  }

  // ---- The linear scan ------------------------------------------------------------------------

  /** An entry of mask zero is never taken: the test against maskMax is strict. */
  predicate Candidate(r: Route, dest: Word) {
    Matches(r, dest) && Value(r.mask) > 0
  }

  /** The first of the candidates with the numerically greatest mask. */
  ghost predicate FirstBest(rtable: seq<Route>, dest: Word, id: nat) {
    && id < |rtable| && Candidate(rtable[id], dest)
    && (forall j :: 0 <= j < |rtable| && Candidate(rtable[j], dest) ==>
          Value(rtable[j].mask) <= Value(rtable[id].mask))
    && (forall j :: 0 <= j < id && Candidate(rtable[j], dest) ==>
          Value(rtable[j].mask) < Value(rtable[id].mask))
  }

  method GetBestRoute(rtable: seq<Route>, dest: Word) returns (id: int)
    ensures id == -1 || (0 <= id && FirstBest(rtable, dest, id))
    ensures id == -1 <==> forall j :: 0 <= j < |rtable| ==> !Candidate(rtable[j], dest)
    ensures id == -1 <==> forall j :: 0 <= j < |rtable| && Matches(rtable[j], dest) ==> rtable[j].mask == ZERO
  {
    id := -1;
    var maskMax := 0;
    var i := 0;
    while i < |rtable|
      invariant i <= |rtable|
      invariant id == -1 ==> maskMax == 0 && forall j :: 0 <= j < i ==> !Candidate(rtable[j], dest)
      invariant id != -1 ==> 0 <= id < i && FirstBest(rtable[..i], dest, id)
      invariant id != -1 ==> maskMax == Value(rtable[id].mask)
    {
      if And(dest, rtable[i].mask) == rtable[i].prefix && Value(rtable[i].mask) > maskMax {
        id := i;
        maskMax := Value(rtable[i].mask);
      }
      i := i + 1;
    }
    assert rtable[..i] == rtable;
    forall j | 0 <= j < |rtable| ensures Value(rtable[j].mask) > 0 <==> rtable[j].mask != ZERO {
      ZeroValue(rtable[j].mask);
    }
  }

  lemma OnlyCandidate(rtable: seq<Route>, dest: Word, i: nat, id: nat)
    requires i < |rtable|
    requires forall j :: 0 <= j < |rtable| ==> (Candidate(rtable[j], dest) <==> j == i)
    ensures FirstBest(rtable, dest, id) <==> id == i
  {
    hide Candidate, Value;
  }

  /** On contiguous masks the numeric comparison of byte-swapped masks is longest prefix match
      (RFC 1812 section 5.2.4.3), the first entry winning among equals. */
  lemma ScanIsLongestPrefixMatch(rtable: seq<Route>, lens: seq<nat>, dest: Word, id: nat)
    requires |lens| == |rtable|
    requires forall i :: 0 <= i < |rtable| ==> 1 <= lens[i] <= 32 && rtable[i].mask == NetMask(lens[i])
    ensures FirstBest(rtable, dest, id) <==>
      && id < |rtable| && Matches(rtable[id], dest)
      && (forall j :: 0 <= j < |rtable| && Matches(rtable[j], dest) ==> lens[j] <= lens[id])
      && (forall j :: 0 <= j < id && Matches(rtable[j], dest) ==> lens[j] < lens[id])
  {
    forall i | 0 <= i < |rtable| ensures Value(rtable[i].mask) > 0 {
      NetMaskOrder(0, lens[i]);
    }
    forall i, j | 0 <= i < |rtable| && 0 <= j < |rtable|
      ensures Value(rtable[i].mask) <= Value(rtable[j].mask) <==> lens[i] <= lens[j]
    {
      if lens[i] <= lens[j] { NetMaskOrder(lens[i], lens[j]); } else { NetMaskOrder(lens[j], lens[i]); }
    }
    hide Value, NetMask, Matches;
  }

  // ---- The binary search ------------------------------------------------------------------------

  /** comparator: the difference of the prefixes in 32-bit two's complement. */
  function Comparator(a: Route, b: Route): (n: int) {
    ToInt32(ToInt32(Value(b.prefix)) - ToInt32(Value(a.prefix)))
  }

  ghost predicate SortedByComparator(rtable: seq<Route>) {
    forall i, j :: 0 <= i < j < |rtable| ==> Comparator(rtable[i], rtable[j]) <= 0
  }

  /** No two prefixes are half the address space apart. */
  ghost predicate WithinHalf(rtable: seq<Route>) {
    forall i, j :: 0 <= i < |rtable| && 0 <= j < |rtable| ==>
      Value(rtable[i].prefix) - Value(rtable[j].prefix) < 0x8000_0000
  }

  /** Going down the table no mask loses a bit; a single common mask is the simplest case. */
  ghost predicate MasksGrow(rtable: seq<Route>) {
    forall i, j :: 0 <= i < j < |rtable| ==> Within(rtable[i].mask, rtable[j].mask)
  }

  ghost predicate Descending(rtable: seq<Route>) {
    forall i, j :: 0 <= i < j < |rtable| ==> Value(rtable[j].prefix) <= Value(rtable[i].prefix)
  }

  /** The comparator puts two prefixes in descending order exactly when their difference does
      not overflow an int. */
  lemma ComparatorAgrees(a: Route, b: Route)
    ensures (Comparator(a, b) <= 0 <==> Value(b.prefix) <= Value(a.prefix))
       <==> -0x8000_0000 <= Value(b.prefix) - Value(a.prefix) < 0x8000_0000
  {
    hide Value, Power2, ToInt32;
    var x, y := Value(a.prefix), Value(b.prefix);
    assert Power2(32) == 0x1_0000_0000 by { PowerOf32(); }
    ValueBound(a.prefix);
    ValueBound(b.prefix);
    SignedDifference(x, y);
  }

  lemma PowerOf32()
    ensures Power2(32) == 0x1_0000_0000 && Power2(31) == 0x8000_0000
  {
    assert Power2(8) == 0x100;
    assert Power2(16) == 0x1_0000;
    assert Power2(24) == 0x100_0000;
  }

  lemma SignedDifference(x: nat, y: nat)
    requires x < 0x1_0000_0000 && y < 0x1_0000_0000
    ensures ToInt32(ToInt32(y) - ToInt32(x)) ==
      if y - x < -0x8000_0000 then y - x + 0x1_0000_0000
      else if y - x >= 0x8000_0000 then y - x - 0x1_0000_0000 else y - x
  {
  }

  lemma SortedIsDescending(rtable: seq<Route>)
    requires SortedByComparator(rtable) && WithinHalf(rtable)
    ensures Descending(rtable)
  {
    hide Comparator, Value;
    forall i, j | 0 <= i < j < |rtable| ensures Value(rtable[j].prefix) <= Value(rtable[i].prefix) {
      ComparatorAgrees(rtable[i], rtable[j]);
    }
  }

  /** A probe of r that does not match sends the search to smaller indices. */
  predicate PointsLeft(r: Route, dest: Word) {
    Value(And(dest, r.mask)) > Value(r.prefix)
  }

  /** What the loop finds between left and right, -1 for nothing. */
  function Search(rtable: seq<Route>, dest: Word, left: int, right: int): (id: int)
    requires 0 <= left <= right + 1 <= |rtable|
    ensures id == -1 || (left <= id <= right && Matches(rtable[id], dest))
    decreases right - left + 1
  {
    var mid := (left + right) / 2;
    if left > right then -1
    else if Matches(rtable[mid], dest) then mid
    else if PointsLeft(rtable[mid], dest) then Search(rtable, dest, left, mid - 1)
    else Search(rtable, dest, mid + 1, right)
  }

  /** Halving the range between left and right, the indices passed before i is reached.  They do
      not depend on the table. */
  function Probes(left: nat, right: nat, i: nat): (ms: seq<nat>)
    requires left <= i <= right
    ensures forall m :: m in ms ==> left <= m <= right && m != i
    decreases right - left
  {
    var mid := (left + right) / 2;
    if i < mid then [mid] + Probes(left, mid - 1, i)
    else if i > mid then [mid] + Probes(mid + 1, right, i)
    else []
  }

  /** Every probe before i misses and points to the side of i. */
  ghost predicate Steered(rtable: seq<Route>, dest: Word, left: nat, right: nat, i: nat)
    requires left <= i <= right < |rtable|
  {
    forall m :: m in Probes(left, right, i) ==>
      !Matches(rtable[m], dest) && (PointsLeft(rtable[m], dest) <==> i < m)
  }

  lemma SteeredStep(rtable: seq<Route>, dest: Word, left: nat, right: nat, i: nat)
    requires left <= i <= right < |rtable|
    ensures var mid := (left + right) / 2;
      Steered(rtable, dest, left, right, i) <==>
        || i == mid
        || (&& !Matches(rtable[mid], dest) && (PointsLeft(rtable[mid], dest) <==> i < mid)
            && (i < mid ==> Steered(rtable, dest, left, mid - 1, i))
            && (i > mid ==> Steered(rtable, dest, mid + 1, right, i)))
  {
    hide Matches, PointsLeft;
    var mid := (left + right) / 2;
    if i != mid {
      var rest := if i < mid then Probes(left, mid - 1, i) else Probes(mid + 1, right, i);
      assert Probes(left, right, i) == [mid] + rest;
    }
  }

  lemma {:induction false} SearchBetween(rtable: seq<Route>, dest: Word, left: nat, right: nat, i: nat)
    requires left <= i <= right < |rtable|
    ensures Search(rtable, dest, left, right) == i <==>
              Matches(rtable[i], dest) && Steered(rtable, dest, left, right, i)
    decreases right - left
  {
    hide Matches, PointsLeft, Steered;
    var mid := (left + right) / 2;
    SteeredStep(rtable, dest, left, right, i);
    if i < mid {
      SearchBetween(rtable, dest, left, mid - 1, i);
    } else if i > mid {
      SearchBetween(rtable, dest, mid + 1, right, i);
    }
  }

  /** On any table at all: an entry is returned exactly when it matches and every probe before it
      misses and points its way, so a match is found exactly when there is one like that. */
  lemma SearchFindsSteered(rtable: seq<Route>, dest: Word)
    ensures forall i :: 0 <= i < |rtable| ==>
      (Search(rtable, dest, 0, |rtable| - 1) == i <==>
         Matches(rtable[i], dest) && Steered(rtable, dest, 0, |rtable| - 1, i))
    ensures Search(rtable, dest, 0, |rtable| - 1) == -1 <==>
      forall i :: 0 <= i < |rtable| && Matches(rtable[i], dest) ==> !Steered(rtable, dest, 0, |rtable| - 1, i)
  {
    hide Search, Matches, Steered;
    forall i | 0 <= i < |rtable|
      ensures Search(rtable, dest, 0, |rtable| - 1) == i <==>
                Matches(rtable[i], dest) && Steered(rtable, dest, 0, |rtable| - 1, i)
    {
      SearchBetween(rtable, dest, 0, |rtable| - 1, i);
    }
  }

  /** In a descending table with growing masks a probe that misses points to every match. */
  lemma ProbePointsToMatch(rtable: seq<Route>, dest: Word, m: nat, i: nat)
    requires Descending(rtable) && MasksGrow(rtable)
    requires m < |rtable| && i < |rtable| && !Matches(rtable[m], dest) && Matches(rtable[i], dest)
    ensures PointsLeft(rtable[m], dest) <==> i < m
  {
    hide Value;
    var masked, prefix := And(dest, rtable[m].mask), rtable[m].prefix;
    if i < m {
      MoreBitsMoreValue(And(dest, rtable[i].mask), masked);
      if Value(masked) == Value(prefix) { ValueInjective(masked, prefix); }
    } else {
      MoreBitsMoreValue(masked, And(dest, rtable[i].mask));
    }
  }

  lemma {:induction false} SearchIsComplete(rtable: seq<Route>, dest: Word, left: nat, right: int, i: nat)
    requires Descending(rtable) && MasksGrow(rtable)
    requires left <= i <= right < |rtable| && Matches(rtable[i], dest)
    ensures Search(rtable, dest, left, right) != -1
    decreases right - left
  {
    hide Descending, MasksGrow, Matches, PointsLeft;
    var mid := (left + right) / 2;
    if !Matches(rtable[mid], dest) {
      ProbePointsToMatch(rtable, dest, mid, i);
      if i < mid {
        SearchIsComplete(rtable, dest, left, mid - 1, i);
      } else {
        SearchIsComplete(rtable, dest, mid + 1, right, i);
      }
    }
  }

  method BinarySearch(rtable: seq<Route>, dest: Word) returns (finalId: int)
    ensures finalId == Search(rtable, dest, 0, |rtable| - 1)
    ensures finalId == -1 || (0 <= finalId < |rtable| && Matches(rtable[finalId], dest))
    ensures SortedByComparator(rtable) && WithinHalf(rtable) && MasksGrow(rtable) ==>
      (finalId == -1 <==> forall i :: 0 <= i < |rtable| ==> !Matches(rtable[i], dest))
  {
    hide Value, And, Comparator, WithinHalf, SortedByComparator, Descending, MasksGrow;
    var left, right := 0, |rtable| - 1;
    finalId := -1;
    while left <= right
      invariant 0 <= left <= right + 1 <= |rtable|
      invariant finalId == -1
      invariant Search(rtable, dest, left, right) == Search(rtable, dest, 0, |rtable| - 1)
      decreases right - left
    {
      var mid := (left + right) / 2;
      var masked := And(dest, rtable[mid].mask);
      if masked == rtable[mid].prefix {
        finalId := mid;
        break;
      } else if Value(masked) > Value(rtable[mid].prefix) {
        right := mid - 1;
      } else if Value(masked) < Value(rtable[mid].prefix) {
        left := mid + 1;
      } else {
        ValueInjective(masked, rtable[mid].prefix);
        assert false;
      }
    }
    if SortedByComparator(rtable) && WithinHalf(rtable) && MasksGrow(rtable) {
      SortedIsDescending(rtable);
      forall i | 0 <= i < |rtable| && Matches(rtable[i], dest) ensures finalId != -1 {
        SearchIsComplete(rtable, dest, 0, |rtable| - 1, i);
      }
    }
  }

  // ---- Where the binary search goes wrong ---------------------------------------------------------

  const ONES: Word := seq(32, _ => true)

  /** With masks that shrink the search passes matches by: before a default route put any host
      route numerically below the destination.  The table is sorted and the default route
      matches, but nothing is found. */
  lemma MixedMasksMiss(p: Word, dest: Word)
    requires 0 < Value(p) < 0x8000_0000 && Value(p) < Value(dest)
    ensures var host, default := Route(p, ZERO, ONES, 0), Route(ZERO, ZERO, ZERO, 1);
            && SortedByComparator([host, default]) && WithinHalf([host, default])
            && Matches(default, dest) && Search([host, default], dest, 0, 1) == -1
  {
    var host, default := Route(p, ZERO, ONES, 0), Route(ZERO, ZERO, ZERO, 1);
    hide Comparator, Value;
    assert And(dest, ONES) == dest && And(dest, ZERO) == ZERO;
    ZeroValue(ZERO);
    ComparatorAgrees(host, default);
  }
}
