/** The routing trie: nodes on the heap, one per bit path, least significant bit first. */
module Trie {
  import opened Words

  type Path = seq<bool>

  /** rTableEntry.  prefix is in network byte order, mask in host byte order. */
  datatype Entry = Entry(prefix: Word, nextHop: Word, mask: Word, maskLen: nat, iface: int)

  const EMPTY: Entry := Entry(ZERO, ZERO, ZERO, 0, 0)

  /** getMaskLength as a function of the mask: the leading ones, bit 0 never looked at. */
  function Ones(mask: Word, i: nat): (n: nat)
    requires i < 32
    ensures n <= i
  {
    if i == 0 || !mask[i] then 0 else 1 + Ones(mask, i - 1)
  }

  method GetMaskLength(mask: Word) returns (cont: nat)
    ensures cont == Ones(mask, 31)
    ensures forall k :: 31 - cont < k < 32 ==> mask[k]
    ensures cont < 31 ==> !mask[31 - cont]
  {
    cont := 0;
    var i := 31;
    while i > 0
      invariant 0 <= i <= 31 && cont == 31 - i
      invariant Ones(mask, 31) == cont + Ones(mask, i)
      invariant forall k :: i < k < 32 ==> mask[k]
    {
      if !mask[i] { break; }
      cont := cont + 1;
      i := i - 1;
    }
  }

  /** A contiguous mask of length at most 31 has that length; the host mask loses one bit. */
  lemma {:induction false} OnesOfHostMask(len: nat, i: nat)
    requires len <= 32 && i < 32
    ensures Ones(HostMask(len), i) == if i + len <= 31 then 0 else if len == 32 then i else i + len - 31
  {
    if i > 0 && HostMask(len)[i] { OnesOfHostMask(len, i - 1); }
  }

  /** An entry as the four-argument constructor makes it. */
  predicate Constructed(e: Entry) {
    e.maskLen == Ones(e.mask, 31)
  }

  // ---- What the trie means: a map from paths to entries ------------------------------------------

  /** What the node at path p holds after e was inserted. */
  function EntryAfter(m: map<Path, Entry>, e: Entry, p: Path): (r: Entry)
    requires Constructed(e)
  {
    if p == e.prefix[..e.maskLen] && e.maskLen > 0 then e
    else if p in m then m[p] else EMPTY
  }

  /** The first i nodes on the way down exist. */
  function Grown(m: map<Path, Entry>, e: Entry, i: nat): (m': map<Path, Entry>)
    requires Constructed(e) && i <= e.maskLen
  {
    if i == 0 then m
    else Grown(m, e, i - 1)[e.prefix[..i] := EntryAfter(m, e, e.prefix[..i])]
  }

  lemma GrownZero(m: map<Path, Entry>, e: Entry)
    requires Constructed(e)
    ensures e.maskLen <= 31 && Grown(m, e, 0) == m
  {
  }

  lemma {:induction false} GrownBeyond(m: map<Path, Entry>, e: Entry, i: nat, p: Path)
    requires Constructed(e) && i <= e.maskLen && |p| > i
    ensures p in Grown(m, e, i) <==> p in m
    ensures p in m ==> Grown(m, e, i)[p] == m[p]
  {
    if i > 0 { GrownBeyond(m, e, i - 1, p); }
  }

  lemma GrownNext(m: map<Path, Entry>, e: Entry, i: nat, q: Path)
    requires Constructed(e) && i < e.maskLen && q == e.prefix[..i + 1]
    ensures var g := Grown(m, e, i);
      Grown(m, e, i + 1) == g[q := if i == e.maskLen - 1 then e else if q in g then g[q] else EMPTY]
  {
    GrownBeyond(m, e, i, q);
    assert i < e.maskLen - 1 ==> |q| != |e.prefix[..e.maskLen]|;
  }

  function Inserted(m: map<Path, Entry>, e: Entry): (m': map<Path, Entry>)
    requires Constructed(e)
  {
    Grown(m, e, e.maskLen)
  }

  lemma InsertedIsGrown(m: map<Path, Entry>, e: Entry)
    requires Constructed(e)
    ensures Inserted(m, e) == Grown(m, e, e.maskLen)
  {
  }

  /** The node next visits after the one at path. */
  function Step(m: map<Path, Entry>, path: Path, elem: Word): (p: Path)
    requires |path| < 32
  {
    if elem[|path|] && path + [true] !in m && path + [false] in m
    then path + [false] else path + [elem[|path|]]
  }

  /** next, from the node at path with its parameter pos equal to |path|. */
  function Walk(m: map<Path, Entry>, path: Path, elem: Word, found: Entry): (r: Entry)
    decreases 32 - |path|
  {
    if path in m && |path| < 32
    then Walk(m, Step(m, path, elem), elem, m[path])
    else found
  }

  function Lookup(m: map<Path, Entry>, elem: Word): (r: Entry) {
    if elem == ZERO then EMPTY else Walk(m, [elem[0]], elem, EMPTY)
  }

  lemma OnlyParent(path: Path, bit: bool)
    ensures forall p, b :: p + [b] == path + [bit] ==> p == path
  {
    forall p, b | p + [b] == path + [bit] ensures p == path {
      assert p == (p + [b])[..|p|] && path == (path + [bit])[..|path|];
    }
  }

  // ---- The heap structure --------------------------------------------------------------------------

  class Node {
    var bit: bool
    var entry: Entry
    var zero: Node?
    var one: Node?
    ghost const path: Path

    constructor (bit: bool, entry: Entry, ghost path: Path)
      ensures this.bit == bit && this.entry == entry && zero == null && one == null && this.path == path
    {
      this.bit, this.entry, this.path, zero, one := bit, entry, path, null, null;
    }

    function Child(b: bool): (n: Node?)
      reads this
    {
      if b then one else zero
    }
  }

  class Tree {
    var root: Node
    /** Which node sits at which path, and the objects of the tree. */
    ghost var nodes: map<Path, Node>
    ghost var repr: set<Node>

    ghost predicate Valid()
      reads this, repr
    {
      && [] in nodes && nodes[[]] == root
      && (forall p {:trigger nodes[p]} :: p in nodes ==> nodes[p] in repr && nodes[p].path == p)
      && (forall p {:trigger p[..|p| - 1]} :: p in nodes && |p| > 0 ==> p[..|p| - 1] in nodes)
      && (forall p {:trigger nodes[p].zero} :: p in nodes ==>
            nodes[p].zero == if p + [false] in nodes then nodes[p + [false]] else null)
      && (forall p {:trigger nodes[p].one} :: p in nodes ==>
            nodes[p].one == if p + [true] in nodes then nodes[p + [true]] else null)
    }

    /** The tree means m. */
    ghost predicate Holds(m: map<Path, Entry>)
      reads this, repr
      requires Valid()
    {
      nodes.Keys == m.Keys && forall p {:trigger nodes[p].entry} :: p in nodes ==> nodes[p].entry == m[p]
    }

    ghost function Contents(): (m: map<Path, Entry>)
      reads this, repr
      requires Valid()
      ensures Holds(m)
    {
      map p | p in nodes :: nodes[p].entry
    }

    constructor ()
      ensures Valid() && fresh(repr) && Contents() == map[[] := EMPTY]
    {
      root := new Node(false, EMPTY, []);
      nodes := map[[] := root];
      repr := {root};
    }

    lemma MeansOne(m: map<Path, Entry>)
      requires Valid() && Holds(m)
      ensures Contents() == m
    {
    }

    lemma RootAt()
      requires Valid()
      ensures [] in nodes && nodes[[]] == root && Holds(Contents())
    {
    }

    lemma ChildAt(path: Path, b: bool)
      requires Valid() && path in nodes
      ensures nodes[path].Child(b) == if path + [b] in nodes then nodes[path + [b]] else null
      ensures path + [b] in nodes ==> nodes[path + [b]] in repr
    {
      if b {
        assert nodes[path].one == if path + [true] in nodes then nodes[path + [true]] else null;
      } else {
        assert nodes[path].zero == if path + [false] in nodes then nodes[path + [false]] else null;
      }
    }

    method Insert(e: Entry)
      requires Valid() && Constructed(e)
      modifies this, repr
      ensures Valid() && fresh(repr - old(repr))
      ensures Contents() == Inserted(old(Contents()), e)
    {
      hide *;
      var currentNode := root;
      var elem := e.prefix;
      var i := 0;
      ghost var m := Contents();
      RootAt();
      GrownZero(m, e);
      assert elem[..0] == [];
      while i < e.maskLen
        invariant i <= e.maskLen && Valid() && fresh(repr - old(repr))
        invariant elem[..i] in nodes && currentNode == nodes[elem[..i]]
        invariant Holds(Grown(m, e, i))
      {
        assert elem[..i + 1] == elem[..i] + [elem[i]];
        GrownNext(m, e, i, elem[..i + 1]);
        currentNode := Descend(currentNode, elem[i], i == e.maskLen - 1, e, elem[..i], Grown(m, e, i));
        i := i + 1;
      }
      InsertedIsGrown(m, e);
      MeansOne(Inserted(m, e));
    }

    /** One round of the loop of insert: the child exists afterwards and, in the last round,
        holds the entry. */
    method Descend(currentNode: Node, bitValue: bool, last: bool, e: Entry,
                   ghost path: Path, ghost m: map<Path, Entry>)
      returns (child: Node)
      requires Valid() && Holds(m) && path in nodes && nodes[path] == currentNode
      modifies this, repr
      ensures Valid() && fresh(repr - old(repr))
      ensures path + [bitValue] in nodes && nodes[path + [bitValue]] == child
      ensures Holds(m[path + [bitValue] := if last then e
                                           else if path + [bitValue] in m then m[path + [bitValue]] else EMPTY])
    {
      ghost var m' := m;
      ghost var q := path + [bitValue];
      ChildAt(path, bitValue);
      if currentNode.Child(bitValue) == null {
        AddChild(currentNode, bitValue, path, m);
        m' := m[q := EMPTY];
      }
      ChildAt(path, bitValue);
      child := currentNode.Child(bitValue);
      if last {
        SetEntry(child, e, q, m');
      }
    }

    method SetEntry(node: Node, e: Entry, ghost q: Path, ghost m: map<Path, Entry>)
      requires Valid() && Holds(m) && q in nodes && nodes[q] == node
      modifies node`entry
      ensures Valid() && Holds(m[q := e])
    {
      node.entry := e;
    }

    method AddChild(currentNode: Node, bitValue: bool, ghost path: Path, ghost m: map<Path, Entry>)
      requires Valid() && Holds(m) && path in nodes && nodes[path] == currentNode
      requires path + [bitValue] !in nodes
      modifies this, currentNode
      ensures Valid() && fresh(repr - old(repr)) && repr >= old(repr)
      ensures path in nodes && nodes[path] == currentNode
      ensures Holds(m[path + [bitValue] := EMPTY])
    {
      ghost var q := path + [bitValue];
      var n := new Node(bitValue, EMPTY, q);
      assert q + [false] !in nodes && q + [true] !in nodes by {
        assert (q + [false])[..|q + [false]| - 1] == q && (q + [true])[..|q + [true]| - 1] == q;
      }
      OnlyParent(path, bitValue);
      if bitValue { currentNode.one := n; } else { currentNode.zero := n; }
      nodes := nodes[q := n];
      repr := repr + {n};
      assert q[..|q| - 1] == path;
    }

    method Next(node: Node?, elem: Word, pos: nat, found: Entry, ghost path: Path) returns (r: Entry)
      requires Valid() && |path| == pos
      requires node == if path in nodes then nodes[path] else null
      ensures r == Walk(Contents(), path, elem, found)
      decreases 32 - pos
    {
      if node != null && pos < 32 {
        var bitValue := elem[pos];
        ChildAt(path, false);
        ChildAt(path, true);
        if bitValue && node.one == null && node.zero != null {
          r := Next(node.zero, elem, pos + 1, node.entry, path + [false]);
        } else {
          r := Next(node.Child(bitValue), elem, pos + 1, node.entry, path + [bitValue]);
        }
      } else {
        r := found;
      }
    }

    method GetPrefix(elem: Word) returns (r: Entry)
      requires Valid()
      ensures r == Lookup(Contents(), elem)
    {
      r := EMPTY;
      if elem != ZERO {
        assert [] + [elem[0]] == [elem[0]];
        ChildAt([], elem[0]);
        r := Next(root.Child(elem[0]), elem, 1, r, [elem[0]]);
      }
    }
  }
}
