/** CMTQueue: a ring with one read and one write cursor, used by one producer and one consumer without a lock.
    Every access to a cursor the other side may move is one atomic step; steps of the two sides interleave in any order. */
module RingQueues {
  import opened Numbers
  import opened Positional

  // ---------- the capacity

  /** The test of the constructor: every bit of cap below the highest must be set. */
  method CheckCapacity(cap: nat) returns (ok: bool)
    ensures ok <==> IsPowerOfTwo(cap + 1)
  {
    var n := cap;
    ghost var j := 0;
    while n > 0
      invariant 0 <= j && cap + 1 == Pow(2, j) * (n + 1)
    {
      if n % 2 == 0 {
        NotAPower(cap, n, j);
        return false;
      }
      HalfUp(cap, n, j);
      n := n / 2;
      j := j + 1;
    }
    assert cap + 1 == Pow(2, j);
    return true;
  }

  lemma HalfUp(cap: nat, n: nat, j: nat)
    requires n % 2 == 1 && cap + 1 == Pow(2, j) * (n + 1)
    ensures cap + 1 == Pow(2, j + 1) * (n / 2 + 1)
  {
    assert n + 1 == 2 * (n / 2 + 1);
  }

  /** A power of two times an odd number above one is no power of two. */
  lemma {:induction false} NotAPower(cap: nat, n: nat, j: nat)
    requires n > 0 && n % 2 == 0 && cap + 1 == Pow(2, j) * (n + 1)
    ensures forall k {:trigger Pow(2, k)} :: cap + 1 != Pow(2, k)
  {
    forall k ensures cap + 1 != Pow(2, k) {
      OddFactor(n, j, k);
    }
  }

  lemma {:induction false} OddFactor(n: nat, j: nat, k: nat)
    requires n > 0 && n % 2 == 0
    ensures Pow(2, j) * (n + 1) != Pow(2, k)
    decreases j
  {
    if j > 0 {
      assert Pow(2, j) * (n + 1) == 2 * (Pow(2, j - 1) * (n + 1));
      if k > 0 {
        OddFactor(n, j - 1, k - 1);
      } else {
        assert Pow(2, k) == 1;
      }
    } else if k > 0 {
      assert Pow(2, k) == 2 * Pow(2, k - 1);
      assert (n + 1) % 2 == 1;
    }
  }

  // ---------- the state

  /** A cell of the buffer: raw memory or a constructed value. */
  datatype Cell<T> = Raw | Value(v: T)

  /** How far push_back has come: not begun, room found, value constructed. */
  datatype Producer<T> = Idle | Room(v: T) | Built(v: T)

  /** How far pop_front has come: not begun, found not empty, value destroyed. Broken: destroyed what was never constructed. */
  datatype Consumer<T> = Resting | Found | Destroyed(v: T) | Broken

  /** The memory of the queue and both sides; pushed and popped record what the cursors have let through. */
  datatype State<T> = State(cells: seq<Cell<T>>, r: nat, w: nat, p: Producer<T>, c: Consumer<T>, pushed: seq<T>, popped: seq<T>)

  datatype Event<T> =
    | PushStarts(v: T)   // Inc(m_w) compared with m_r
    | PushBuilds         // new(m_w) T(v)
    | PushEnds           // m_w = n
    | PopStarts          // m_r compared with m_w
    | PopDestroys        // m_r->~T()
    | PopEnds            // m_r = Inc(m_r)

  function Inc(p: nat, n: nat): nat
    requires p < n
  {
    if p + 1 == n then 0 else p + 1
  }

  /** A queue of the given capacity has one cell more. */
  function Start<T>(cap: nat): State<T> {
    State(seq(cap + 1, _ => Raw), 0, 0, Idle, Resting, [], [])
  }

  predicate InBounds<T>(s: State<T>) { s.r < |s.cells| && s.w < |s.cells| }

  /** Whose turn an event can be. */
  predicate Enabled<T>(s: State<T>, e: Event<T>) {
    match e
    case PushStarts(_) => s.p.Idle?
    case PushBuilds => s.p.Room?
    case PushEnds => s.p.Built?
    case PopStarts => s.c.Resting?
    case PopDestroys => s.c.Found?
    case PopEnds => s.c.Destroyed?
  }

  /** One atomic step. A push that finds no room throws QueueOverflow, a pop on an empty queue IndexOutOfRange:
      nothing changes. */
  function Step<T>(s: State<T>, e: Event<T>): State<T>
    requires InBounds(s) && Enabled(s, e)
  {
    var n := |s.cells|;
    match e
    case PushStarts(v) => if Inc(s.w, n) == s.r then s else s.(p := Room(v))
    case PushBuilds => s.(cells := s.cells[s.w := Value(s.p.v)], p := Built(s.p.v))
    case PushEnds => s.(w := Inc(s.w, n), p := Idle, pushed := s.pushed + [s.p.v])
    case PopStarts => if s.r == s.w then s else s.(c := Found)
    case PopDestroys =>
      var cell := s.cells[s.r];
      s.(cells := s.cells[s.r := Raw], c := if cell.Value? then Destroyed(cell.v) else Broken)
    case PopEnds => s.(r := Inc(s.r, n), c := Resting, popped := s.popped + [s.c.v])
  }

  // ---------- the invariant

  function Length<T>(s: State<T>): int { |s.pushed| - |s.popped| }

  /** The place i cells behind the read cursor. */
  function Place(r: nat, i: nat, n: nat): (p: nat)
    requires r < n && i < n
    ensures p < n
  {
    if r + i < n then r + i else r + i - n
  }

  /** What stands i cells behind the read cursor. */
  function Expected<T>(s: State<T>, i: nat): Cell<T>
    requires 0 <= Length(s)
  {
    if i < Length(s) then
      if i == 0 && s.c.Destroyed? then Raw else Value(s.pushed[|s.popped| + i])
    else if i == Length(s) && s.p.Built? then Value(s.p.v)
    else Raw
  }

  ghost predicate Inv<T>(s: State<T>) {
    && InBounds(s)
    && s.popped <= s.pushed
    && Length(s) < |s.cells|
    && s.w == Place(s.r, Length(s), |s.cells|)
    && !s.c.Broken?
    && (!s.c.Resting? ==> Length(s) > 0)
    && (s.c.Destroyed? ==> s.c.v == s.pushed[|s.popped|])
    && (!s.p.Idle? ==> Length(s) + 1 < |s.cells|)
    && forall i | 0 <= i < |s.cells| :: s.cells[Place(s.r, i, |s.cells|)] == Expected(s, i)
  }

  lemma StartInv<T>(cap: nat)
    ensures Inv(Start<T>(cap))
  {}

  lemma Places(r: nat, i: nat, j: nat, n: nat)
    requires r < n && i < n && j < n
    ensures Place(r, i, n) == Place(r, j, n) <==> i == j
    ensures i + 1 < n ==> Inc(Place(r, i, n), n) == Place(r, i + 1, n) == Place(Inc(r, n), i, n)
    ensures i + 1 == n ==> Inc(Place(r, i, n), n) == r && Place(Inc(r, n), i, n) == r
  {}

  /** Every step of either side keeps the invariant. */
  lemma StepInv<T>(s: State<T>, e: Event<T>)
    requires Inv(s) && Enabled(s, e)
    ensures Inv(Step(s, e))
  {
    match e
    case PushStarts(_) => StartKeepsInv(s, e);
    case PushBuilds => BuildKeepsInv(s);
    case PushEnds => PublishKeepsInv(s);
    case PopStarts => StartKeepsInv(s, e);
    case PopDestroys => DestroyKeepsInv(s);
    case PopEnds => AdvanceKeepsInv(s);
  }

  lemma StartKeepsInv<T>(s: State<T>, e: Event<T>)
    requires Inv(s) && Enabled(s, e) && (e.PushStarts? || e.PopStarts?)
    ensures Inv(Step(s, e))
  {
    hide Place;
    Places(s.r, Length(s), Length(s), |s.cells|);
    Places(s.r, Length(s), 0, |s.cells|);
    PlaceZero(s.r, |s.cells|);
    CellsKept(s, Step(s, e));
  }

  lemma BuildKeepsInv<T>(s: State<T>)
    requires Inv(s) && s.p.Room?
    ensures Inv(Step(s, PushBuilds))
  {
    hide Place;
    var t, n := Step(s, PushBuilds), |s.cells|;
    forall i | 0 <= i < n ensures t.cells[Place(t.r, i, n)] == Expected(t, i) {
      Places(s.r, i, Length(s), n);
      assert s.cells[Place(s.r, i, n)] == Expected(s, i);
    }
  }

  lemma PublishKeepsInv<T>(s: State<T>)
    requires Inv(s) && s.p.Built?
    ensures Inv(Step(s, PushEnds))
  {
    hide Place;
    Places(s.r, Length(s), Length(s), |s.cells|);
    CellsKept(s, Step(s, PushEnds));
  }

  lemma DestroyKeepsInv<T>(s: State<T>)
    requires Inv(s) && s.c.Found?
    ensures Inv(Step(s, PopDestroys))
  {
    hide Place;
    var t, n := Step(s, PopDestroys), |s.cells|;
    PlaceZero(s.r, n);
    assert s.cells[Place(s.r, 0, n)] == Expected(s, 0);
    forall i | 0 <= i < n ensures t.cells[Place(t.r, i, n)] == Expected(t, i) {
      Places(s.r, i, 0, n);
      assert s.cells[Place(s.r, i, n)] == Expected(s, i);
    }
  }

  lemma AdvanceKeepsInv<T>(s: State<T>)
    requires Inv(s) && s.c.Destroyed?
    ensures Inv(Step(s, PopEnds))
  {
    hide Place;
    var t, n := Step(s, PopEnds), |s.cells|;
    PlaceZero(s.r, n);
    Places(s.r, Length(s) - 1, Length(s), n);
    forall i | 0 <= i < n ensures t.cells[Place(t.r, i, n)] == Expected(t, i) {
      Places(s.r, i, i, n);
      var j := if i + 1 < n then i + 1 else 0;
      assert s.cells[Place(s.r, j, n)] == Expected(s, j);
    }
  }

  lemma PlaceZero(r: nat, n: nat)
    requires r < n
    ensures Place(r, 0, n) == r
  {}

  lemma CellsKept<T>(s: State<T>, t: State<T>)
    requires Inv(s) && t.cells == s.cells && t.r == s.r && 0 <= Length(t)
    requires forall i | 0 <= i < |s.cells| :: Expected(t, i) == Expected(s, i)
    ensures forall i | 0 <= i < |t.cells| :: t.cells[Place(t.r, i, |t.cells|)] == Expected(t, i)
  {}

  // ---------- what it gives

  /** push_back constructs only in raw memory, and pop_front destroys exactly the oldest value. */
  lemma CellsAreSafe<T>(s: State<T>)
    requires Inv(s)
    ensures s.p.Room? ==> s.cells[s.w].Raw?
    ensures s.c.Found? ==> s.cells[s.r] == Value(s.pushed[|s.popped|])
  {
    var n := |s.cells|;
    assert s.cells[Place(s.r, Length(s), n)] == Expected(s, Length(s));
    assert s.cells[Place(s.r, 0, n)] == Expected(s, 0);
  }

  /** size() is the number of values pushed and not yet popped, front() the oldest of them; a push overflows exactly
      when the queue holds its capacity, and a pop fails exactly when it holds nothing. */
  lemma SizeIsLength<T>(s: State<T>)
    requires Inv(s)
    ensures (s.w - s.r) % |s.cells| == Length(s) <= |s.cells| - 1
    ensures Inc(s.w, |s.cells|) == s.r <==> Length(s) == |s.cells| - 1
    ensures s.r == s.w <==> Length(s) == 0
    ensures Length(s) > 0 && !s.c.Destroyed? ==> s.cells[s.r] == Value(s.pushed[|s.popped|])
  {
    hide Place;
    var n, len := |s.cells|, Length(s);
    Places(s.r, len, len, n);
    Places(s.r, len, 0, n);
    PlaceZero(s.r, n);
    PlaceDistance(s.r, len, n);
    assert s.cells[Place(s.r, 0, n)] == Expected(s, 0);
  }

  /** A pointer difference as the 64-bit size_t it is turned into. */
  function SizeT(x: int): (n: nat)
    ensures n < SIZE_T
  {
    x % SIZE_T
  }

  const SIZE_T: nat := 0x1_0000_0000_0000_0000

  /** size() as written, (m_w - m_r) & m_mask, for every capacity that the constructor accepts. */
  lemma MaskedSizeIsLength<T>(s: State<T>)
    requires Inv(s) && IsPowerOfTwo(|s.cells|) && |s.cells| < SIZE_T
    ensures BitAnd(SizeT(s.w - s.r), |s.cells| - 1) == Length(s)
  {
    hide Inv, BitAnd, SizeT;
    SizeIsLength(s);
    var k: nat :| |s.cells| == Pow(2, k);
    MaskIsRemainder(SizeT(s.w - s.r), k);
    if k > 64 {
      PowMonotone(2, 64, k);
      TwoTo64();
      assert false;
    }
    TwoTo64();
    PowAdd(2, k, 64 - k);
    SizeTRemainder(s.w - s.r, |s.cells|, Pow(2, 64 - k));
  }

  lemma TwoTo8()
    ensures Pow(2, 8) == 256
  {}

  lemma TwoTo64()
    ensures Pow(2, 64) == SIZE_T
  {
    hide Pow;
    TwoTo8();
    PowAdd(2, 8, 8);
    PowAdd(2, 16, 16);
    PowAdd(2, 32, 32);
  }

  /** Going through 64 bits does not disturb the remainder by a divisor of 2^64. */
  lemma SizeTRemainder(x: int, n: nat, m: nat)
    requires n > 0 && n * m == SIZE_T
    ensures SizeT(x) % n == x % n
  {
    var q, r := x / SIZE_T, x % SIZE_T;
    assert x == q * SIZE_T + r;
    var p, t := r / n, r % n;
    assert r == p * n + t;
    MulAssoc(q, m, n);
    MulSwap(q, m, n);
    assert (q * m) * n == q * (n * m);
    MulAdd(n, q * m, p);
    DivUnique(x, n, q * m + p, t);
  }

  lemma PlaceDistance(r: nat, i: nat, n: nat)
    requires r < n && i < n
    ensures (Place(r, i, n) - r) % n == i
  {
    if r + i < n {
      assert Place(r, i, n) - r == i;
    } else {
      Wrapped(i, n);
    }
  }

  lemma Wrapped(len: nat, n: nat)
    requires len < n
    ensures (len - n) % n == len
  {}

  /** Every event of the run can happen in its turn. */
  predicate CanRun<T>(s: State<T>, events: seq<Event<T>>)
    decreases |events|
  {
    events == [] || (InBounds(s) && Enabled(s, events[0]) && CanRun(Step(s, events[0]), events[1..]))
  }

  function Final<T>(s: State<T>, events: seq<Event<T>>): State<T>
    requires CanRun(s, events)
    decreases |events|
  {
    if events == [] then s else Final(Step(s, events[0]), events[1..])
  }

  /** The arguments of the pushes that a run completes, in order. */
  function Offered<T>(s: State<T>, events: seq<Event<T>>): seq<T>
    requires CanRun(s, events)
    decreases |events|
  {
    if events == [] then [] else
      (if events[0].PushEnds? then [s.p.v] else []) + Offered(Step(s, events[0]), events[1..])
  }

  /** The values that the pops of a run take out of the buffer, in order. */
  function Delivered<T>(s: State<T>, events: seq<Event<T>>): seq<T>
    requires CanRun(s, events)
    decreases |events|
  {
    if events == [] then [] else
      (if events[0].PopEnds? then [s.c.v] else []) + Delivered(Step(s, events[0]), events[1..])
  }

  lemma {:induction false} RunKeepsInv<T>(s: State<T>, events: seq<Event<T>>)
    requires Inv(s) && CanRun(s, events)
    ensures var t := Final(s, events);
            Inv(t) && t.pushed == s.pushed + Offered(s, events) && t.popped == s.popped + Delivered(s, events)
    decreases |events|
  {
    hide Inv, Step, Enabled;
    if events != [] {
      var e, rest := events[0], events[1..];
      var u := Step(s, e);
      StepInv(s, e);
      StepHistory(s, e);
      RunKeepsInv(u, rest);
      JoinHistory(s.pushed, if e.PushEnds? then [s.p.v] else [], Offered(u, rest));
      JoinHistory(s.popped, if e.PopEnds? then [s.c.v] else [], Delivered(u, rest));
    }
  }

  lemma JoinHistory<T>(a: seq<T>, b: seq<T>, c: seq<T>)
    ensures a + b + c == a + (b + c)
  {}

  lemma StepHistory<T>(s: State<T>, e: Event<T>)
    requires InBounds(s) && Enabled(s, e)
    ensures (e.PushEnds? ==> s.p.Built?) && (e.PopEnds? ==> s.c.Destroyed?)
    ensures Step(s, e).pushed == s.pushed + (if e.PushEnds? then [s.p.v] else [])
    ensures Step(s, e).popped == s.popped + (if e.PopEnds? then [s.c.v] else [])
  {}

  /** In every interleaving from an empty queue, what comes out is, value by value, the beginning of what went in. */
  lemma FirstInFirstOut<T>(cap: nat, events: seq<Event<T>>)
    requires CanRun(Start(cap), events)
    ensures Inv(Final(Start(cap), events))
    ensures Delivered(Start(cap), events) <= Offered(Start(cap), events)
  {
    StartInv<T>(cap);
    RunKeepsInv(Start(cap), events);
    var o, d := Offered(Start(cap), events), Delivered(Start(cap), events);
    assert [] + o == o && [] + d == d;
  }
}
