/** The two linked queues.  Both are FIFO sequences; chain lists the cells from the one that
    leaves next. */
module Queues {
  import opened Wrappers

  datatype Op<T> = Enq(value: T) | Deq

  // ---- The reference: a FIFO over a series of operations ------------------------------------------

  /** What is left and what the dequeues returned, an empty queue returning nothing. */
  function Fifo<T>(s: seq<T>, ops: seq<Op<T>>): (r: (seq<T>, seq<Option<T>>))
    decreases |ops|
  {
    if |ops| == 0 then (s, [])
    else
      match ops[0]
      case Enq(v) => Fifo(s + [v], ops[1..])
      case Deq =>
        if |s| == 0 then var r := Fifo(s, ops[1..]); (r.0, [None] + r.1)
        else var r := Fifo(s[1..], ops[1..]); (r.0, [Some(s[0])] + r.1)
  }

  lemma FifoStep<T>(s: seq<T>, ops: seq<Op<T>>, k: nat)
    requires k < |ops|
    ensures Fifo(s, ops[k..]) ==
      match ops[k]
      case Enq(v) => Fifo(s + [v], ops[k + 1..])
      case Deq =>
        var r := Fifo(if |s| == 0 then [] else s[1..], ops[k + 1..]);
        (r.0, [if |s| == 0 then None else Some(s[0])] + r.1)
  {
    assert ops[k..][0] == ops[k] && ops[k..][1..] == ops[k + 1..];
  }

  lemma FifoNothing<T>(s: seq<T>, ops: seq<Op<T>>)
    requires |ops| == 0
    ensures Fifo(s, ops) == (s, [])
  {
  }

  function Enqueued<T>(ops: seq<Op<T>>): (vs: seq<T>) {
    if |ops| == 0 then [] else (if ops[0].Enq? then [ops[0].value] else []) + Enqueued(ops[1..])
  }

  function Values<T>(outs: seq<Option<T>>): (vs: seq<T>) {
    if |outs| == 0 then [] else (if outs[0].Some? then [outs[0].value] else []) + Values(outs[1..])
  }

  /** Whatever came out, followed by what is left, is what was in and came in, in order. */
  lemma {:induction false} FifoConserves<T>(s: seq<T>, ops: seq<Op<T>>)
    ensures Values(Fifo(s, ops).1) + Fifo(s, ops).0 == s + Enqueued(ops)
    decreases |ops|
  {
    if |ops| > 0 {
      match ops[0]
      case Enq(v) =>
        FifoConserves(s + [v], ops[1..]);
        assert (s + [v]) + Enqueued(ops[1..]) == s + ([v] + Enqueued(ops[1..]));
      case Deq =>
        if |s| == 0 {
          FifoConserves(s, ops[1..]);
          var r := Fifo(s, ops[1..]);
          assert ([None] + r.1)[1..] == r.1;
        } else {
          FifoConserves(s[1..], ops[1..]);
          var r := Fifo(s[1..], ops[1..]);
          assert ([Some(s[0])] + r.1)[1..] == r.1;
          assert s == [s[0]] + s[1..];
          assert ([s[0]] + Values(r.1)) + r.0 == [s[0]] + (Values(r.1) + r.0);
        }
    }
  }

  // ---- The link emulator's queue --------------------------------------------------------------------

  class Entry<T> {
    var crt: T
    var prev: Entry?<T>

    constructor (crt: T)
      ensures this.crt == crt && prev == null
    {
      this.crt, prev := crt, null;
    }
  }

  /** New entries go to first; last leaves next and prev leads from last to first. */
  class EmulatorQueue<T> {
    var size: int
    var first: Entry?<T>
    var last: Entry?<T>
    ghost var chain: seq<Entry<T>>

    ghost predicate Valid()
      reads this, chain
    {
      && size == |chain|
      && (forall i, j :: 0 <= i < j < |chain| ==> chain[i] != chain[j])
      && (|chain| == 0 ==> first == null && last == null)
      && (|chain| > 0 ==> last == chain[0] && first == chain[|chain| - 1] && first.prev == null)
      && (forall i {:trigger chain[i].prev} :: 0 <= i < |chain| - 1 ==> chain[i].prev == chain[i + 1])
    }

    ghost function Contents(): (s: seq<T>)
      reads this, chain
    {
      seq(|chain|, i requires 0 <= i < |chain| reads this, chain => chain[i].crt)
    }

    constructor ()
      ensures Valid() && Contents() == [] && chain == []
    {
      first, last, size, chain := null, null, 0, [];
    }

    method Enqueue(m: T)
      requires Valid()
      modifies this, chain
      ensures Valid() && Contents() == old(Contents()) + [m]
      ensures chain[..|chain| - 1] == old(chain) && fresh(chain[|chain| - 1])
    {
      var t := new Entry(m);
      if first == null {
        assert last == null;
        first := t;
        last := first;
      } else {
        first.prev := t;
        first := t;
      }
      chain := chain + [t];
      size := size + 1;
    }

    method Dequeue() returns (m: Option<T>)
      requires Valid()
      modifies this
      ensures Valid()
      ensures m == if |old(chain)| == 0 then None else Some(old(Contents())[0])
      ensures chain == if |old(chain)| == 0 then [] else old(chain)[1..]
      ensures Contents() == if |old(chain)| == 0 then [] else old(Contents())[1..]
    {
      var t: Entry<T>;
      if first == null {
        assert size == 0;
        return None;
      } else if first == last {
        t := last;
        assert first.prev == null;
        first, last := null, null;
        assert |chain| == 1;
      } else {
        t := last;
        assert chain[0].prev == chain[1];
        last := last.prev;
      }
      m := Some(t.crt);
      chain := chain[1..];
      size := size - 1;
    }

    method Apply(op: Op<T>) returns (out: seq<Option<T>>)
      requires Valid()
      modifies this, chain
      ensures Valid()
      ensures forall i :: 0 <= i < |chain| ==> chain[i] in old(chain) || fresh(chain[i])
      ensures op.Enq? ==> out == [] && Contents() == old(Contents()) + [op.value]
      ensures op.Deq? ==> Contents() == if |old(Contents())| == 0 then [] else old(Contents())[1..]
      ensures op.Deq? ==> out == [if |old(Contents())| == 0 then None else Some(old(Contents())[0])]
    {
      out := [];
      match op
      case Enq(v) =>
        Enqueue(v);
        assert forall i :: 0 <= i < |chain| - 1 ==> chain[i] == old(chain)[i];
      case Deq =>
        var m := Dequeue();
        out := [m];
    }

    /** Any series of operations behaves like the FIFO sequence. */
    method Perform(ops: seq<Op<T>>) returns (outs: seq<Option<T>>)
      requires Valid()
      modifies this, chain
      ensures Valid() && (Contents(), outs) == Fifo(old(Contents()), ops)
    {
      hide *;
      outs := [];
      var k := 0;
      ghost var whole := Fifo(Contents(), ops);
      assert ops[0..] == ops;
      while k < |ops|
        invariant k <= |ops| && Valid()
        invariant forall i :: 0 <= i < |chain| ==> chain[i] in old(chain) || fresh(chain[i])
        invariant Fifo(Contents(), ops[k..]).0 == whole.0
        invariant outs + Fifo(Contents(), ops[k..]).1 == whole.1
      {
        FifoStep(Contents(), ops, k);
        var out := Apply(ops[k]);
        outs := outs + out;
        k := k + 1;
      }
      FifoNothing(Contents(), ops[k..]);
      assert outs + [] == outs;
    }
  }

  // ---- The router's queue ------------------------------------------------------------------------------

  class Cell<T> {
    var element: T
    var next: Cell?<T>

    constructor Cons(element: T, next: Cell?<T>)
      ensures this.element == element && this.next == next
    {
      this.element, this.next := element, next;
    }
  }

  /** After the last cell was freed tail still points to it; freed collects such cells. */
  class RouterQueue<T> {
    var head: Cell?<T>
    var tail: Cell?<T>
    ghost var chain: seq<Cell<T>>
    ghost var freed: set<Cell<T>>

    ghost predicate Valid()
      reads this, chain
    {
      && (forall i, j :: 0 <= i < j < |chain| ==> chain[i] != chain[j])
      && (forall i :: 0 <= i < |chain| ==> chain[i] !in freed)
      && (|chain| == 0 ==> head == null)
      && (|chain| > 0 ==> head == chain[0] && tail == chain[|chain| - 1] && tail.next == null)
      && (forall i {:trigger chain[i].next} :: 0 <= i < |chain| - 1 ==> chain[i].next == chain[i + 1])
    }

    ghost function Contents(): (s: seq<T>)
      reads this, chain
    {
      seq(|chain|, i requires 0 <= i < |chain| reads this, chain => chain[i].element)
    }

    constructor ()
      ensures Valid() && Contents() == [] && chain == [] && freed == {}
    {
      head, tail, chain, freed := null, null, [], {};
    }

    predicate Empty()
      reads this
    {
      head == null
    }

    method Enq(element: T)
      requires Valid()
      modifies this, chain
      ensures Valid() && Contents() == old(Contents()) + [element] && freed == old(freed)
      ensures chain[..|chain| - 1] == old(chain) && fresh(chain[|chain| - 1])
    {
      var cell := new Cell<T>.Cons(element, null);
      if Empty() {
        head := cell;
        tail := cell;
      } else {
        assert tail !in freed;
        tail.next := cell;
        tail := tail.next;
      }
      chain := chain + [cell];
    }

    method Deq() returns (temp: T)
      requires Valid() && !Empty()
      modifies this
      ensures Valid() && temp == old(Contents())[0] && Contents() == old(Contents())[1..]
      ensures chain == old(chain)[1..] && freed == old(freed) + {old(chain)[0]}
    {
      temp := head.element;
      freed := freed + {head};
      head := head.next;
      chain := chain[1..];
    }

    /** One operation as the router does it: queue_empty guards every dequeue. */
    method Apply(op: Op<T>) returns (out: seq<Option<T>>)
      requires Valid()
      modifies this, chain
      ensures Valid()
      ensures forall i :: 0 <= i < |chain| ==> chain[i] in old(chain) || fresh(chain[i])
      ensures op.Enq? ==> out == [] && Contents() == old(Contents()) + [op.value]
      ensures op.Deq? ==> Contents() == if |old(Contents())| == 0 then [] else old(Contents())[1..]
      ensures op.Deq? ==> out == [if |old(Contents())| == 0 then None else Some(old(Contents())[0])]
    {
      out := [];
      match op
      case Enq(v) =>
        Enq(v);
        assert forall i :: 0 <= i < |chain| - 1 ==> chain[i] == old(chain)[i];
      case Deq =>
        if Empty() {
          out := [None];
        } else {
          var m := Deq();
          out := [Some(m)];
        }
    }

    /** Any series of operations behaves like the FIFO sequence; a stale tail never matters. */
    method Perform(ops: seq<Op<T>>) returns (outs: seq<Option<T>>)
      requires Valid()
      modifies this, chain
      ensures Valid() && (Contents(), outs) == Fifo(old(Contents()), ops)
    {
      hide *;
      outs := [];
      var k := 0;
      ghost var whole := Fifo(Contents(), ops);
      assert ops[0..] == ops;
      while k < |ops|
        invariant k <= |ops| && Valid()
        invariant forall i :: 0 <= i < |chain| ==> chain[i] in old(chain) || fresh(chain[i])
        invariant Fifo(Contents(), ops[k..]).0 == whole.0
        invariant outs + Fifo(Contents(), ops[k..]).1 == whole.1
      {
        FifoStep(Contents(), ops, k);
        var out := Apply(ops[k]);
        outs := outs + out;
        k := k + 1;
      }
      FifoNothing(Contents(), ops[k..]);
      assert outs + [] == outs;
    }
  }
}
