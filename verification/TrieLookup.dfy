/** What the trie lookup returns, against longest prefix match (RFC 1812 section 5.2.4.3)
    defined on the list of inserted entries. */
module TrieLookup {
  import opened Words
  import opened Trie
  import RouteTable

  // ---- The contents after any sequence of inserts -------------------------------------------------

  predicate AllConstructed(es: seq<Entry>) {
    forall i :: 0 <= i < |es| ==> Constructed(es[i])
  }

  function Built(es: seq<Entry>): (m: map<Path, Entry>)
    requires AllConstructed(es)
  {
    if |es| == 0 then map[[] := EMPTY] else Inserted(Built(es[..|es| - 1]), es[|es| - 1])
  }

  /** The entry's own path. */
  function Own(e: Entry): (p: Path)
    requires Constructed(e)
  {
    e.prefix[..e.maskLen]
  }

  /** The last inserted entry whose path is exactly p. */
  function LastAt(es: seq<Entry>, p: Path): (r: Entry)
    requires AllConstructed(es)
  {
    if |es| == 0 then EMPTY
    else if Own(es[|es| - 1]) == p then es[|es| - 1]
    else LastAt(es[..|es| - 1], p)
  }

  /** Some entry's path runs through p. */
  ghost predicate OnTheWay(es: seq<Entry>, p: Path)
    requires AllConstructed(es)
  {
    exists i :: 0 <= i < |es| && p <= Own(es[i])
  }

  lemma {:induction false} GrownAt(m: map<Path, Entry>, e: Entry, i: nat, p: Path)
    requires Constructed(e) && i <= e.maskLen && |p| > 0
    ensures p in Grown(m, e, i) <==> p in m || (|p| <= i && p == e.prefix[..|p|])
    ensures p in Grown(m, e, i) ==>
              Grown(m, e, i)[p] == if |p| <= i && p == e.prefix[..|p|] then EntryAfter(m, e, p) else m[p]
  {
    if i > 0 { GrownAt(m, e, i - 1, p); }
  }

  /** After any sequence of inserts the node at a path holds the last entry inserted with
      exactly that length and those bits, and there is a node exactly on the paths to entries. */
  lemma {:induction false} NodeHoldsLastEntry(es: seq<Entry>, p: Path)
    requires AllConstructed(es) && |p| > 0
    ensures p in Built(es) <==> OnTheWay(es, p)
    ensures p in Built(es) ==> Built(es)[p] == LastAt(es, p)
  {
    if |es| > 0 {
      var prior, e := es[..|es| - 1], es[|es| - 1];
      NodeHoldsLastEntry(prior, p);
      GrownAt(Built(prior), e, e.maskLen, p);
      OnTheWayLast(es, p);
      if p !in Built(prior) { NothingThere(prior, p); }
    }
  }

  lemma OnTheWayLast(es: seq<Entry>, p: Path)
    requires AllConstructed(es) && |es| > 0
    ensures OnTheWay(es, p) <==> OnTheWay(es[..|es| - 1], p) || p <= Own(es[|es| - 1])
  {
    var prior := es[..|es| - 1];
    if OnTheWay(prior, p) {
      var i :| 0 <= i < |prior| && p <= Own(prior[i]);
      assert p <= Own(es[i]);
    }
    if OnTheWay(es, p) {
      var i :| 0 <= i < |es| && p <= Own(es[i]);
      assert i < |prior| ==> p <= Own(prior[i]);
    }
  }

  lemma {:induction false} NothingThere(es: seq<Entry>, p: Path)
    requires AllConstructed(es) && !OnTheWay(es, p)
    ensures LastAt(es, p) == EMPTY
  {
    if |es| > 0 {
      OnTheWayLast(es, p);
      NothingThere(es[..|es| - 1], p);
    }
  }

  // ---- The reference: longest prefix match ------------------------------------------------------------

  predicate Matches(e: Entry, elem: Word)
    requires Constructed(e)
  {
    e.maskLen > 0 && Own(e) == elem[..e.maskLen]
  }

  /** The longest match, the last inserted among equals; EMPTY if nothing matches. */
  function Best(es: seq<Entry>, elem: Word): (r: Entry)
    requires AllConstructed(es)
    ensures r == EMPTY || (r in es && Constructed(r) && Matches(r, elem))
  {
    if |es| == 0 then EMPTY
    else
      var b, e := Best(es[..|es| - 1], elem), es[|es| - 1];
      if Matches(e, elem) && e.maskLen >= b.maskLen then e else b
  }

  lemma {:induction false} BestIsLongest(es: seq<Entry>, elem: Word)
    requires AllConstructed(es)
    ensures forall i :: 0 <= i < |es| && Matches(es[i], elem) ==>
              es[i].maskLen <= Best(es, elem).maskLen && Best(es, elem) != EMPTY
    ensures Best(es, elem) != EMPTY ==> Best(es, elem) == LastAt(es, elem[..Best(es, elem).maskLen])
  {
    if |es| > 0 {
      BestIsLongest(es[..|es| - 1], elem);
      assert forall i :: 0 <= i < |es| - 1 ==> es[i] == es[..|es| - 1][i];
    }
  }

  lemma {:induction false} LastAtMatches(es: seq<Entry>, p: Path)
    requires AllConstructed(es)
    ensures LastAt(es, p) != EMPTY ==> LastAt(es, p) in es && Own(LastAt(es, p)) == p
  {
    if |es| > 0 { LastAtMatches(es[..|es| - 1], p); }
  }

  // ---- The walk ------------------------------------------------------------------------------------------

  /** How far the nodes follow the bits of elem. */
  function Depth(m: map<Path, Entry>, elem: Word, d: nat): (r: nat)
    requires d <= 31
    ensures d <= r <= 31
    ensures forall k :: d < k <= r ==> elem[..k] in m
    ensures r < 31 ==> elem[..r + 1] !in m
    decreases 31 - d
  {
    if d < 31 && elem[..d + 1] in m then Depth(m, elem, d + 1) else d
  }

  /** The walk takes the branch that falls to child 0 against a bit 1. */
  predicate Falls(m: map<Path, Entry>, elem: Word) {
    var d := Depth(m, elem, 0);
    0 < d < 31 && elem[d] && elem[..d] + [false] in m
  }

  /** Without that branch the walk ends at the deepest node along elem, which decides alone. */
  lemma {:induction false} WalkEndsAtDepth(m: map<Path, Entry>, elem: Word, d: nat, found: Entry)
    requires 0 < d <= 31 && elem[..d] in m && elem !in m
    requires !Falls(m, elem) && Depth(m, elem, d) == Depth(m, elem, 0)
    ensures Walk(m, elem[..d], elem, found) == m[elem[..Depth(m, elem, 0)]]
    decreases 31 - d
  {
    assert elem[..d] + [elem[d]] == elem[..d + 1];
    if d == 31 {
      assert elem[..32] == elem;
    } else if elem[..d + 1] in m {
      WalkEndsAtDepth(m, elem, d + 1, m[elem[..d]]);
    } else {
      assert Step(m, elem[..d], elem) == elem[..d + 1];
    }
  }

  /** Where the walk from the node at path ends, by the paths of the entries alone: it follows
      elem while it can, and falls to child 0 against a bit 1 where only that child exists. */
  ghost function WalkEnd(es: seq<Entry>, path: Path, elem: Word): (q: Path)
    requires AllConstructed(es) && |path| <= 32
    ensures path <= q
    decreases 32 - |path|
  {
    if |path| == 32 then path
    else if OnTheWay(es, path + [elem[|path|]]) then WalkEnd(es, path + [elem[|path|]], elem)
    else if elem[|path|] && OnTheWay(es, path + [false]) then WalkEnd(es, path + [false], elem)
    else path
  }

  /** The walk returns what the last node it visits holds. */
  lemma {:induction false} WalkReturnsEnd(es: seq<Entry>, path: Path, elem: Word, found: Entry)
    requires AllConstructed(es) && 0 < |path| < 32 && OnTheWay(es, path)
    ensures Walk(Built(es), path, elem, found) == LastAt(es, WalkEnd(es, path, elem))
    ensures OnTheWay(es, WalkEnd(es, path, elem))
    decreases 32 - |path|
  {
    hide Built, OnTheWay;
    var m, straight, fallen := Built(es), path + [elem[|path|]], path + [false];
    NodeHoldsLastEntry(es, path);
    NodeHoldsLastEntry(es, straight);
    NodeHoldsLastEntry(es, fallen);
    if |path| == 31 {
      NoNodeAt32(es, straight);
      NoNodeAt32(es, fallen);
    } else if OnTheWay(es, straight) {
      WalkReturnsEnd(es, straight, elem, m[path]);
    } else if elem[|path|] && OnTheWay(es, fallen) {
      WalkReturnsEnd(es, fallen, elem, m[path]);
    }
  }

  /** A walk that falls ends beyond the deepest node along elem, off its bits. */
  lemma {:induction false} EndAfterFall(es: seq<Entry>, elem: Word, d: nat)
    requires AllConstructed(es) && Falls(Built(es), elem)
    requires 0 < d <= Depth(Built(es), elem, 0)
    ensures elem[..Depth(Built(es), elem, 0)] + [false] <= WalkEnd(es, elem[..d], elem)
    decreases 31 - d
  {
    hide Built, OnTheWay;
    var k := Depth(Built(es), elem, 0);
    assert elem[..d] + [elem[d]] == elem[..d + 1];
    NodeHoldsLastEntry(es, elem[..d + 1]);
    if d < k {
      EndAfterFall(es, elem, d + 1);
    } else {
      NodeHoldsLastEntry(es, elem[..d] + [false]);
    }
  }

  lemma NoNodeAt32(es: seq<Entry>, p: Path)
    requires AllConstructed(es) && |p| > 31
    ensures p !in Built(es)
  {
    NodeHoldsLastEntry(es, p);
  }

  lemma DepthFromOne(m: map<Path, Entry>, elem: Word)
    requires elem[..1] in m
    ensures Depth(m, elem, 1) == Depth(m, elem, 0)
  {
  }

  /** A walk that never falls returns the longest match or the empty entry, and it returns the
      longest match exactly when no node lies beyond it along the destination. */
  lemma LookupWithoutFall(es: seq<Entry>, elem: Word)
    requires AllConstructed(es) && elem != ZERO && !Falls(Built(es), elem)
    ensures var b, d := Best(es, elem), Depth(Built(es), elem, 0);
      && Lookup(Built(es), elem) == (if b.maskLen == d then b else EMPTY)
      && (Lookup(Built(es), elem) == b <==> b == EMPTY || b.maskLen == d)
  {
    var m := Built(es);
    var b, d := Best(es, elem), Depth(m, elem, 0);
    BestIsLongest(es, elem);
    assert [elem[0]] == elem[..1];
    if d == 0 {
      if b != EMPTY {
        var i :| 0 <= i < |es| && es[i] == b;
        assert elem[..1] <= Own(es[i]);
        NodeHoldsLastEntry(es, elem[..1]);
        assert false;
      }
    } else {
      DepthFromOne(m, elem);
      NoNodeAt32(es, elem);
      WalkEndsAtDepth(m, elem, 1, EMPTY);
      NodeHoldsLastEntry(es, elem[..d]);
      LastAtMatches(es, elem[..d]);
      DeepestEntry(es, elem, d);
    }
  }

  /** The deepest node holds the longest match or nothing. */
  lemma DeepestEntry(es: seq<Entry>, elem: Word, d: nat)
    requires AllConstructed(es) && 0 < d == Depth(Built(es), elem, 0)
    ensures Best(es, elem).maskLen <= d
    ensures LastAt(es, elem[..d]) == if Best(es, elem).maskLen == d then Best(es, elem) else EMPTY
  {
    var b, l := Best(es, elem), LastAt(es, elem[..d]);
    BestIsLongest(es, elem);
    LastAtMatches(es, elem[..d]);
    if b != EMPTY && b.maskLen > d {
      var i :| 0 <= i < |es| && es[i] == b;
      assert elem[..d + 1] <= Own(es[i]);
      NodeHoldsLastEntry(es, elem[..d + 1]);
      assert false;
    }
    if l != EMPTY {
      assert |Own(l)| == l.maskLen == d && Matches(l, elem);
    }
  }

  /** A walk that falls returns what is stored where it ends, which never matches: its result is
      right exactly when nothing matches and no entry is stored there. */
  lemma LookupWithFall(es: seq<Entry>, elem: Word)
    requires AllConstructed(es) && elem != ZERO && Falls(Built(es), elem)
    ensures var r, q := Lookup(Built(es), elem), WalkEnd(es, elem[..1], elem);
      && r == LastAt(es, q) && (r == EMPTY || (r in es && !Matches(r, elem)))
      && (r == Best(es, elem) <==>
            forall i :: 0 <= i < |es| ==> !Matches(es[i], elem) && Own(es[i]) != q)
  {
    hide Built, OnTheWay;
    var d, q := Depth(Built(es), elem, 0), WalkEnd(es, elem[..1], elem);
    assert [elem[0]] == elem[..1];
    NodeHoldsLastEntry(es, elem[..1]);
    WalkReturnsEnd(es, elem[..1], elem, EMPTY);
    EndAfterFall(es, elem, 1);
    assert q[d] == (elem[..d] + [false])[d];
    LastAtMatches(es, q);
    var r := LastAt(es, q);
    assert r != EMPTY ==> Own(r)[d] != elem[d];
    EmptyOrStored(es, q);
    BestIsLongest(es, elem);
    assert Best(es, elem) != EMPTY ==> exists i :: 0 <= i < |es| && Matches(es[i], elem);
  }

  lemma {:induction false} EmptyOrStored(es: seq<Entry>, p: Path)
    requires AllConstructed(es) && |p| > 0
    ensures LastAt(es, p) == EMPTY <==> forall i :: 0 <= i < |es| ==> Own(es[i]) != p
  {
    if |es| > 0 {
      EmptyOrStored(es[..|es| - 1], p);
      assert forall i :: 0 <= i < |es| - 1 ==> es[i] == es[..|es| - 1][i];
    }
  }

  /** For every destination: the lookup is longest prefix match exactly when the walk ends at the
      longest match or, where nothing matches, at a node without an entry. */
  lemma LookupIsRightIff(es: seq<Entry>, elem: Word)
    requires AllConstructed(es) && elem != ZERO
    ensures var b, q := Best(es, elem), WalkEnd(es, elem[..1], elem);
      Lookup(Built(es), elem) == b <==>
        if b != EMPTY then q == Own(b) else forall i :: 0 <= i < |es| ==> Own(es[i]) != q
  {
    hide Built, OnTheWay, WalkEnd;
    var b, q := Best(es, elem), WalkEnd(es, elem[..1], elem);
    assert [elem[0]] == elem[..1] <= q;
    NodeHoldsLastEntry(es, elem[..1]);
    BestIsLongest(es, elem);
    EmptyOrStored(es, q);
    LastAtMatches(es, q);
    if OnTheWay(es, elem[..1]) {
      WalkReturnsEnd(es, elem[..1], elem, EMPTY);
    } else {
      NothingFrom(es, elem, q);
    }
  }

  lemma NothingFrom(es: seq<Entry>, elem: Word, q: Path)
    requires AllConstructed(es) && !OnTheWay(es, elem[..1]) && elem[..1] <= q
    ensures Best(es, elem) == EMPTY && forall i :: 0 <= i < |es| ==> Own(es[i]) != q
  {
  }

  // ---- The trie against the linear scan ---------------------------------------------------------------

  /** The line of rtable.txt an entry came from, as the laboratory router reads it: the mask
      stays in network byte order. */
  function AsRoute(e: Entry): (r: RouteTable.Route) {
    RouteTable.Route(e.prefix, e.nextHop, ByteSwap(e.mask), e.iface)
  }

  function AsRoutes(es: seq<Entry>): (rs: seq<RouteTable.Route>)
    ensures |rs| == |es| && forall i :: 0 <= i < |es| ==> rs[i] == AsRoute(es[i])
  {
    seq(|es|, i requires 0 <= i < |es| => AsRoute(es[i]))
  }

  /** A mask of whole octets, /8, /16 or /24, and no host bits in the prefix. */
  ghost predicate OctetRoute(e: Entry) {
    && Constructed(e) && e.maskLen in {8, 16, 24} && e.mask == HostMask(e.maskLen)
    && forall k :: e.maskLen <= k < 32 ==> !e.prefix[k]
  }

  ghost predicate NoneNested(es: seq<Entry>)
    requires AllConstructed(es)
  {
    forall i, j :: 0 <= i < |es| && 0 <= j < |es| && Own(es[i]) <= Own(es[j]) ==> i == j
  }

  /** On whole octets both byte orders see the same leading bits. */
  lemma OctetMaskBits(len: nat)
    requires len in {8, 16, 24}
    ensures forall k :: 0 <= k < 32 ==> NetMask(len)[k] == (k < len)
  {
    hide ByteSwap;
    forall k | 0 <= k < 32 ensures NetMask(len)[k] == (k < len) {
      var j := (3 - k / 8) * 8 + k % 8;
      SwapAt(HostMask(len), j);
      Mirror(k, len);
    }
  }

  /** Mirroring the octets turns the last len bits into the first. */
  lemma Mirror(k: nat, len: nat)
    requires k < 32 && len in {8, 16, 24}
    ensures var j := (3 - k / 8) * 8 + k % 8;
      0 <= j < 32 && (3 - j / 8) * 8 + j % 8 == k && (j >= 32 - len <==> k < len)
  {
  }

  lemma SameMatches(e: Entry, elem: Word)
    requires OctetRoute(e)
    ensures Matches(e, elem) <==> RouteTable.Candidate(AsRoute(e), elem)
    ensures Matches(e, elem) <==> RouteTable.Matches(AsRoute(e), elem)
  {
    hide Value;
    var mask := NetMask(e.maskLen);
    OctetMaskBits(e.maskLen);
    NetMaskOrder(0, e.maskLen);
    if Matches(e, elem) {
      assert forall k :: 0 <= k < e.maskLen ==> Own(e)[k] == elem[..e.maskLen][k];
      assert And(elem, mask) == e.prefix;
    }
    if And(elem, mask) == e.prefix {
      forall k | 0 <= k < e.maskLen ensures e.prefix[k] == elem[k] {
        assert And(elem, mask)[k] == elem[k];
      }
      assert Own(e) == elem[..e.maskLen];
    }
  }

  lemma MatchIsUnique(es: seq<Entry>, elem: Word, i: nat, j: nat)
    requires AllConstructed(es) && NoneNested(es)
    requires i < |es| && Matches(es[i], elem) && j < |es| && Matches(es[j], elem)
    ensures i == j
  {
    var below, above := Own(es[j]) <= Own(es[i]), Own(es[i]) <= Own(es[j]);
    assert below || above;
  }

  lemma NothingBeyond(es: seq<Entry>, i: nat, p: Path)
    requires AllConstructed(es) && NoneNested(es) && i < |es| && Own(es[i]) < p
    ensures p !in Built(es)
  {
    NodeHoldsLastEntry(es, p);
  }

  /** A matching entry of a table without nesting is where the walk ends. */
  lemma UniqueMatchIsFound(es: seq<Entry>, elem: Word, i: nat)
    requires AllConstructed(es) && NoneNested(es) && elem != ZERO
    requires i < |es| && Matches(es[i], elem)
    ensures Lookup(Built(es), elem) == es[i]
  {
    hide NoneNested, Lookup, Built;
    var m, len := Built(es), es[i].maskLen;
    forall k | 0 < k <= len ensures elem[..k] in m {
      assert elem[..k] <= Own(es[i]);
      NodeHoldsLastEntry(es, elem[..k]);
    }
    if len < 31 {
      NothingBeyond(es, i, elem[..len + 1]);
      NothingBeyond(es, i, elem[..len] + [false]);
    }
    DepthReaches(m, elem, 0, len);
    BestIsLongest(es, elem);
    var k :| 0 <= k < |es| && es[k] == Best(es, elem);
    MatchIsUnique(es, elem, i, k);
    LookupWithoutFall(es, elem);
  }

  lemma {:induction false} DepthReaches(m: map<Path, Entry>, elem: Word, d: nat, len: nat)
    requires d <= len <= 31 && (forall k :: 0 < k <= len ==> elem[..k] in m)
    requires len < 31 ==> elem[..len + 1] !in m
    ensures Depth(m, elem, d) == len
    decreases len - d
  {
    if d < len { DepthReaches(m, elem, d + 1, len); }
  }

  /** On tables of whole-octet masks without nested prefixes the trie and the scan agree. */
  lemma TrieAgreesWithScan(es: seq<Entry>, elem: Word, id: nat)
    requires AllConstructed(es) && NoneNested(es) && elem != ZERO
    requires forall i :: 0 <= i < |es| ==> OctetRoute(es[i])
    requires exists i :: 0 <= i < |es| && Matches(es[i], elem)
    ensures RouteTable.FirstBest(AsRoutes(es), elem, id) <==>
              id < |es| && Lookup(Built(es), elem) == es[id]
  {
    hide RouteTable.Candidate, RouteTable.FirstBest, Lookup, Built, Value, NoneNested, Matches, OctetRoute;
    var i :| 0 <= i < |es| && Matches(es[i], elem);
    UniqueMatchIsFound(es, elem, i);
    forall j | 0 <= j < |es| ensures RouteTable.Candidate(AsRoutes(es)[j], elem) <==> j == i {
      SameMatches(es[j], elem);
      if Matches(es[j], elem) { MatchIsUnique(es, elem, i, j); }
    }
    RouteTable.OnlyCandidate(AsRoutes(es), elem, i, id);
    if id < |es| && es[id] == es[i] {
      MatchIsUnique(es, elem, i, id);
    }
  }

  // ---- A table on which the trie forgets a route -----------------------------------------------------------

  /** Next to a longer neighbour a route is lost: the walk goes on to an empty node beyond it. */
  lemma RouteLostBehindNeighbour(short: Entry, long: Entry, elem: Word)
    requires Constructed(short) && Constructed(long) && elem != ZERO
    requires Matches(short, elem) && short.maskLen + 1 < long.maskLen
    requires Own(long)[..short.maskLen + 1] == elem[..short.maskLen + 1]
    requires Own(long)[short.maskLen + 1] && !elem[short.maskLen + 1]
    ensures Best([short, long], elem) == short && Lookup(Built([short, long]), elem) == EMPTY
  {
    var es, k := [short, long], short.maskLen + 1;
    var m := Built(es);
    forall j | 0 < j <= k ensures elem[..j] in m {
      assert elem[..j] == Own(long)[..j];
      assert elem[..j] <= Own(es[1]);
      NodeHoldsLastEntry(es, elem[..j]);
    }
    assert elem[..k + 1] !in m by {
      NodeHoldsLastEntry(es, elem[..k + 1]);
      assert elem[..k + 1][k] != Own(es[1])[k];
    }
    DepthReaches(m, elem, 0, k);
    assert es[..1] == [short] && es[..1][..0] == [];
    assert Best([short], elem) == short;
    assert !Matches(long, elem) by { assert elem[..long.maskLen][k] != Own(long)[k]; }
    LookupWithoutFall(es, elem);
  }

  /** A longer neighbour that goes on with a 0 where the destination has a 1. */
  ghost predicate Beside(short: Entry, long: Entry, elem: Word)
    requires Constructed(short) && Constructed(long)
  {
    && Matches(short, elem) && short.maskLen < long.maskLen
    && Own(long)[..short.maskLen] == Own(short)
    && !Own(long)[short.maskLen] && elem[short.maskLen]
  }

  lemma NodesBeside(short: Entry, long: Entry, elem: Word)
    requires Constructed(short) && Constructed(long) && Beside(short, long, elem)
    ensures Falls(Built([short, long]), elem) && Depth(Built([short, long]), elem, 0) == short.maskLen
    ensures OnTheWay([short, long], elem[..1])
  {
    hide Built, OnTheWay;
    var es, k := [short, long], short.maskLen;
    forall j | 0 < j <= k ensures OnTheWay(es, elem[..j]) && elem[..j] in Built(es) {
      PrefixOnTheWay(es, 0, elem[..j]);
    }
    assert elem[..k] + [false] == Own(long)[..k + 1];
    PrefixOnTheWay(es, 1, elem[..k] + [false]);
    assert elem[..k + 1] !in Built(es) by {
      NodeHoldsLastEntry(es, elem[..k + 1]);
      assert !OnTheWay(es, elem[..k + 1]) by {
        hide *;
        OffTheWay(short, long, elem);
      }
    }
    DepthReaches(Built(es), elem, 0, k);
  }

  lemma PrefixOnTheWay(es: seq<Entry>, i: nat, p: Path)
    requires AllConstructed(es) && i < |es| && 0 < |p| && p <= Own(es[i])
    ensures OnTheWay(es, p) && p in Built(es)
  {
    NodeHoldsLastEntry(es, p);
  }

  lemma OffTheWay(short: Entry, long: Entry, elem: Word)
    requires Constructed(short) && Constructed(long) && Beside(short, long, elem)
    ensures !OnTheWay([short, long], elem[..short.maskLen + 1])
  {
    var k := short.maskLen;
    assert |Own(short)| == k && elem[..k + 1][k] != Own(long)[k];
  }

  /** Such a route is lost the other way: the walk falls off the destination's bits, onto the
      neighbour if that is one bit longer. */
  lemma RouteLostToFall(short: Entry, long: Entry, elem: Word)
    requires Constructed(short) && Constructed(long) && elem != ZERO && Beside(short, long, elem)
    ensures Falls(Built([short, long]), elem)
    ensures Best([short, long], elem) == short && Lookup(Built([short, long]), elem) != short
    ensures long.maskLen == short.maskLen + 1 ==> Lookup(Built([short, long]), elem) == long
  {
    hide Built, Lookup, Falls, Depth, OnTheWay, WalkEnd;
    var es, k := [short, long], short.maskLen;
    NodesBeside(short, long, elem);
    assert es[..1] == [short] && es[..1][..0] == [];
    assert Best([short], elem) == short;
    assert !Matches(long, elem) by { assert elem[..long.maskLen][k] != Own(long)[k]; }
    LookupWithFall(es, elem);
    if long.maskLen == k + 1 {
      WalkReturnsEnd(es, elem[..1], elem, EMPTY);
      EndAfterFall(es, elem, 1);
      EndBeside(short, long, elem, WalkEnd(es, elem[..1], elem));
    }
  }

  lemma EndBeside(short: Entry, long: Entry, elem: Word, q: Path)
    requires Constructed(short) && Constructed(long) && Beside(short, long, elem)
    requires long.maskLen == short.maskLen + 1
    requires elem[..short.maskLen] + [false] <= q && OnTheWay([short, long], q)
    ensures q == Own(long) && LastAt([short, long], q) == long
  {
  }

  // ---- Filling the trie ---------------------------------------------------------------------------------------

  /** The entry the four-argument constructor makes of a line of the table. */
  function FromLine(r: RouteTable.Route): (e: Entry)
    ensures Constructed(e)
  {
    var mask := ByteSwap(r.mask);
    Entry(r.prefix, r.nextHop, mask, Ones(mask, 31), r.iface)
  }

  function FromLines(lines: seq<RouteTable.Route>): (es: seq<Entry>)
    ensures |es| == |lines| && AllConstructed(es)
    ensures forall i :: 0 <= i < |es| ==> es[i] == FromLine(lines[i])
  {
    seq(|lines|, i requires 0 <= i < |lines| => FromLine(lines[i]))
  }

  /** Reading the table twice over, as an entry and back, loses nothing. */
  lemma LineRoundTrip(lines: seq<RouteTable.Route>)
    ensures AsRoutes(FromLines(lines)) == lines
  {
    hide ByteSwap;
    forall i | 0 <= i < |lines| ensures AsRoutes(FromLines(lines))[i] == lines[i] {
      SwapTwice(lines[i].mask);
    }
  }

  /** parseRTable: the trie on the heap means the list of its entries. */
  method ParseRTable(lines: seq<RouteTable.Route>) returns (t: Tree)
    ensures t.Valid() && fresh(t) && fresh(t.repr)
    ensures t.Contents() == Built(FromLines(lines))
  {
    hide Ones, ByteSwap, Inserted;
    t := new Tree();
    var k := 0;
    ghost var es := FromLines(lines);
    assert es[..0] == [];
    while k < |lines|
      invariant k <= |lines| && t.Valid() && fresh(t) && fresh(t.repr)
      invariant t.Contents() == Built(es[..k])
    {
      var mask := ByteSwap(lines[k].mask);
      var maskLen := GetMaskLength(mask);
      assert es[..k + 1][..k] == es[..k];
      t.Insert(Entry(lines[k].prefix, lines[k].nextHop, mask, maskLen, lines[k].iface));
      k := k + 1;
    }
    assert es[..k] == es;
  }
}
