/** CMTQueue as an object: its operations carry out the atomic steps of RingQueues without anyone between them. */
module MTQueues {
  import opened Numbers
  import opened RingQueues

  class CMTQueue<T> {
    const cells: array<Cell<T>>
    var m_r: nat
    var m_w: nat
    ghost var pushed: seq<T>
    ghost var popped: seq<T>

    /** The queue between two operations. */
    ghost function Resting(): State<T>
      reads this, cells
    {
      State(cells[..], m_r, m_w, Idle, Consumer.Resting, pushed, popped)
    }

    ghost predicate Valid()
      reads this, cells
    {
      Inv(Resting()) && IsPowerOfTwo(cells.Length) && cells.Length < SIZE_T
    }

    /** The values in the queue, the oldest first. */
    ghost function Contents(): seq<T>
      requires Valid()
      reads this, cells
    {
      pushed[|popped|..]
    }

    /** For a capacity that the source's test lets through; Create makes the test. */
    constructor (cap: nat)
      requires IsPowerOfTwo(cap + 1) && cap + 1 < SIZE_T
      ensures Valid() && fresh(cells) && cells.Length == cap + 1 && Contents() == []
    {
      cells := new Cell<T>[cap + 1](_ => Raw);
      m_r, m_w, pushed, popped := 0, 0, [], [];
      new;
      assert cells[..] == Start<T>(cap).cells;
      StartInv<T>(cap);
    }

    method Size() returns (n: nat)
      requires Valid()
      ensures n == |Contents()| < cells.Length
    {
      SizeIsLength(Resting());
      MaskedSizeIsLength(Resting());
      n := BitAnd(SizeT(m_w - m_r), cells.Length - 1);
    }

    method Empty() returns (r: bool)
      requires Valid()
      ensures r <==> Contents() == []
    {
      SizeIsLength(Resting());
      r := m_r == m_w;
    }

    /** front: nothing if the queue is empty. */
    method Front() returns (r: Cell<T>)
      requires Valid()
      ensures r == if Contents() == [] then Raw else Value(Contents()[0])
    {
      SizeIsLength(Resting());
      if m_r == m_w {
        return Raw;
      }
      return cells[m_r];
    }

    /** push_back: refused exactly when the queue holds its capacity. */
    method PushBack(v: T) returns (ok: bool)
      requires Valid()
      modifies this`m_w, this`pushed, cells
      ensures Valid() && (ok <==> old(|Contents()|) < cells.Length - 1)
      ensures Contents() == if ok then old(Contents()) + [v] else old(Contents())
    {
      hide Inv;
      ghost var s := Resting();
      SizeIsLength(s);
      StepInv(s, PushStarts(v));
      Bounds(s);
      var n := Inc(m_w, cells.Length);
      if n == m_r {
        return false;
      }
      ghost var s1 := Step(s, PushStarts(v));
      StepInv(s1, PushBuilds);
      cells[m_w] := Value(v);
      ghost var s2 := Step(s1, PushBuilds);
      StepInv(s2, PushEnds);
      m_w := n;
      pushed := pushed + [v];
      assert Resting() == Step(s2, PushEnds);
      return true;
    }

    /** pop_front: refused exactly when the queue is empty. */
    method PopFront() returns (ok: bool)
      requires Valid()
      modifies this`m_r, this`popped, cells
      ensures Valid() && (ok <==> old(Contents()) != [])
      ensures Contents() == if ok then old(Contents())[1..] else []
      ensures m_w == old(m_w)
    {
      hide Inv;
      ghost var s := Resting();
      SizeIsLength(s);
      StepInv(s, PopStarts);
      Bounds(s);
      if m_r == m_w {
        return false;
      }
      ghost var s1 := Step(s, PopStarts);
      StepInv(s1, PopDestroys);
      cells[m_r] := Raw;
      ghost var s2 := Step(s1, PopDestroys);
      StepInv(s2, PopEnds);
      m_r := Inc(m_r, cells.Length);
      popped := popped + [pushed[|popped|]];
      assert Resting() == Step(s2, PopEnds);
      return true;
    }

    /** clear: pops until the queue is empty. */
    method Clear()
      requires Valid()
      modifies this`m_r, this`popped, cells
      ensures Valid() && Contents() == []
    {
      var more := true;
      while more
        invariant Valid() && (!more ==> Contents() == [])
        decreases more, |Contents()|
      {
        more := PopFront();
      }
    }
  }

  /** The constructor as the source has it: it throws, and there is no queue, unless the capacity passes the test. */
  method Create<T>(cap: nat) returns (q: CMTQueue?<T>)
    requires cap + 1 < SIZE_T
    ensures q != null <==> IsPowerOfTwo(cap + 1)
    ensures q != null ==> fresh(q) && fresh(q.cells) && q.Valid() && q.cells.Length == cap + 1 && q.Contents() == []
  {
    var ok := CheckCapacity(cap);
    if !ok {
      return null;
    }
    q := new CMTQueue<T>(cap);
  }

  lemma Bounds<T>(s: State<T>)
    requires Inv(s)
    ensures InBounds(s) && |s.popped| <= |s.pushed|
  {}
}
