/** One block of SHA-256: FIPS 180-4 section 6.2.2, and the two ways the repository computes it. */
module Sha256Compression {
  import opened Words32

  /** One of eight entries of a row. */
  function Entry(j: nat, k0: bv32, k1: bv32, k2: bv32, k3: bv32, k4: bv32, k5: bv32, k6: bv32, k7: bv32): bv32 {
    if j < 4 then if j < 2 then if j == 0 then k0 else k1 else if j == 2 then k2 else k3
    else if j < 6 then if j == 4 then k4 else k5 else if j == 6 then k6 else k7
  }

  /** The constants of section 4.2.2, eight to a row. */
  function K(i: nat): bv32
    requires i < 64
  {
    if i < 8 then Entry(i, 0x428a2f98, 0x71374491, 0xb5c0fbcf, 0xe9b5dba5, 0x3956c25b, 0x59f111f1, 0x923f82a4, 0xab1c5ed5)
    else if i < 16 then Entry(i - 8, 0xd807aa98, 0x12835b01, 0x243185be, 0x550c7dc3, 0x72be5d74, 0x80deb1fe, 0x9bdc06a7, 0xc19bf174)
    else if i < 24 then Entry(i - 16, 0xe49b69c1, 0xefbe4786, 0x0fc19dc6, 0x240ca1cc, 0x2de92c6f, 0x4a7484aa, 0x5cb0a9dc, 0x76f988da)
    else if i < 32 then Entry(i - 24, 0x983e5152, 0xa831c66d, 0xb00327c8, 0xbf597fc7, 0xc6e00bf3, 0xd5a79147, 0x06ca6351, 0x14292967)
    else if i < 40 then Entry(i - 32, 0x27b70a85, 0x2e1b2138, 0x4d2c6dfc, 0x53380d13, 0x650a7354, 0x766a0abb, 0x81c2c92e, 0x92722c85)
    else if i < 48 then Entry(i - 40, 0xa2bfe8a1, 0xa81a664b, 0xc24b8b70, 0xc76c51a3, 0xd192e819, 0xd6990624, 0xf40e3585, 0x106aa070)
    else if i < 56 then Entry(i - 48, 0x19a4c116, 0x1e376c08, 0x2748774c, 0x34b0bcb5, 0x391c0cb3, 0x4ed8aa4a, 0x5b9cca4f, 0x682e6ff3)
    else Entry(i - 56, 0x748f82ee, 0x78a5636f, 0x84c87814, 0x8cc70208, 0x90befffa, 0xa4506ceb, 0xbef9a3f7, 0xc67178f2)
  }

  datatype Chain = Chain(a: bv32, b: bv32, c: bv32, d: bv32, e: bv32, f: bv32, g: bv32, h: bv32)

  // ---------- the standard

  function BigSigma0(x: bv32): bv32 { Xor32(Xor32(Rotr(x, 2), Rotr(x, 13)), Rotr(x, 22)) }
  function BigSigma1(x: bv32): bv32 { Xor32(Xor32(Rotr(x, 6), Rotr(x, 11)), Rotr(x, 25)) }
  function SmallSigma0(x: bv32): bv32 { Xor32(Xor32(Rotr(x, 7), Rotr(x, 18)), x >> 3) }
  function SmallSigma1(x: bv32): bv32 { Xor32(Xor32(Rotr(x, 17), Rotr(x, 19)), x >> 10) }

  function Ch(x: bv32, y: bv32, z: bv32): bv32 { (x & y) ^ (!x & z) }
  function Maj(x: bv32, y: bv32, z: bv32): bv32 { (x & y) ^ (x & z) ^ (y & z) }

  /** Word i of the message schedule. */
  function W(m: seq<bv32>, i: nat): bv32
    requires |m| == 16
  {
    if i < 16 then m[i] else
      Add(Add(Add(SmallSigma1(W(m, i - 2)), W(m, i - 7)), SmallSigma0(W(m, i - 15))), W(m, i - 16))
  }

  function T1(e: bv32, f: bv32, g: bv32, h: bv32, k: bv32, w: bv32): bv32 {
    Add(Add(Add(Add(h, BigSigma1(e)), Ch(e, f, g)), k), w)
  }

  function T2(a: bv32, b: bv32, c: bv32): bv32 {
    Add(BigSigma0(a), Maj(a, b, c))
  }

  function Round(s: Chain, k: bv32, w: bv32): Chain {
    var t1 := T1(s.e, s.f, s.g, s.h, k, w);
    Chain(Add(t1, T2(s.a, s.b, s.c)), s.a, s.b, s.c, Add(s.d, t1), s.e, s.f, s.g)
  }

  /** The working variables after i rounds. */
  function Rounds(s: Chain, m: seq<bv32>, i: nat): Chain
    requires |m| == 16 && i <= 64
  {
    if i == 0 then s else Round(Rounds(s, m, i - 1), K(i - 1), W(m, i - 1))
  }

  function AddChains(s: Chain, t: Chain): Chain {
    Chain(Add(s.a, t.a), Add(s.b, t.b), Add(s.c, t.c), Add(s.d, t.d), Add(s.e, t.e), Add(s.f, t.f), Add(s.g, t.g), Add(s.h, t.h))
  }

  function Compress(s: Chain, m: seq<bv32>): Chain
    requires |m| == 16
  {
    AddChains(s, Rounds(s, m, 64))
  }

  // ---------- the forms the code uses

  function MuxCh(x: bv32, y: bv32, z: bv32): bv32 { z ^ (x & (y ^ z)) }
  function OrMaj(x: bv32, y: bv32, z: bv32): bv32 { ((x | y) & z) | (x & y) }
  function XorMaj(ab: bv32, bc: bv32, y: bv32): bv32 { (ab & bc) ^ y }
  /** The two sums as STEP writes them. */
  lemma StepSums(a: bv32, b: bv32, c: bv32, e: bv32, f: bv32, g: bv32, h: bv32, k: bv32, w: bv32)
    ensures Add(BigSigma0(a), OrMaj(a, b, c)) == T2(a, b, c)
    ensures Add(Add(Add(Add(h, BigSigma1(e)), MuxCh(e, f, g)), k), w) == T1(e, f, g, h, k, w)
  {
    hide BigSigma0, BigSigma1, Ch, Maj, MuxCh, OrMaj, Add;
    MuxChIsCh(e, f, g);
    OrMajIsMaj(a, b, c);
  }

  lemma MuxBits(x: bv32, y: bv32, z: bv32)
    ensures z ^ (x & (y ^ z)) == (x & y) ^ (!x & z)
  {}

  lemma MuxChIsCh(x: bv32, y: bv32, z: bv32)
    ensures MuxCh(x, y, z) == Ch(x, y, z)
  {
    MuxBits(x, y, z);
  }

  lemma OrBits(x: bv32, y: bv32, z: bv32)
    ensures ((x | y) & z) | (x & y) == (x & y) ^ (x & z) ^ (y & z)
  {}

  lemma OrMajIsMaj(x: bv32, y: bv32, z: bv32)
    ensures OrMaj(x, y, z) == Maj(x, y, z)
  {
    OrBits(x, y, z);
  }

  lemma XorMajIsMaj(x: bv32, y: bv32, z: bv32)
    ensures XorMaj(Xor32(x, y), Xor32(y, z), y) == Maj(x, y, z)
  {}

  /** The sum of the schedule with its terms in the order of the in-place form. */
  lemma ScheduleOrder(p: bv32, q: bv32, r: bv32, s: bv32)
    ensures Add(s, Add(Add(r, q), p)) == Add(Add(Add(p, q), r), s)
  {
    hide Add;
    AddCommutes(s, Add(Add(r, q), p));
    AddCommutes(Add(r, q), p);
    AddCommutes(r, q);
    AddAssoc(p, q, r);
  }

  // ---------- sha256_blocks: a table of 64 words, eight working variables moved down each step

  function ChainOf(r: seq<bv32>): Chain
    requires |r| == 8
  {
    Chain(r[0], r[1], r[2], r[3], r[4], r[5], r[6], r[7])
  }

  function ChainWords(s: Chain): (r: seq<bv32>)
    ensures |r| == 8 && ChainOf(r) == s
  {
    [s.a, s.b, s.c, s.d, s.e, s.f, s.g, s.h]
  }

  method Step(r: array<bv32>, k: bv32, w: bv32)
    requires r.Length == 8
    modifies r
    ensures ChainOf(r[..]) == Round(ChainOf(old(r[..])), k, w)
  {
    hide BigSigma0, BigSigma1, MuxCh, OrMaj, Add, T1, T2;
    StepSums(r[0], r[1], r[2], r[4], r[5], r[6], r[7], k, w);
    var t1 := Add(BigSigma0(r[0]), OrMaj(r[0], r[1], r[2]));
    var t0 := Add(Add(Add(Add(r[7], BigSigma1(r[4])), MuxCh(r[4], r[5], r[6])), k), w);
    r[7] := r[6];
    r[6] := r[5];
    r[5] := r[4];
    r[4] := Add(r[3], t0);
    r[3] := r[2];
    r[2] := r[1];
    r[1] := r[0];
    r[0] := Add(t0, t1);
  }

  /** The table w[0..64). */
  method ScheduleTable(m: seq<bv32>) returns (w: array<bv32>)
    requires |m| == 16
    ensures fresh(w) && w.Length == 64 && forall j | 0 <= j < 64 :: w[j] == W(m, j)
  {
    hide Add, SmallSigma0, SmallSigma1;
    w := new bv32[64];
    var i := 0;
    while i < 16
      invariant 0 <= i <= 16
      invariant forall j | 0 <= j < i :: w[j] == W(m, j)
    {
      w[i] := m[i];
      i := i + 1;
    }
    while i < 64
      invariant 16 <= i <= 64
      invariant forall j | 0 <= j < i :: w[j] == W(m, j)
    {
      w[i] := Add(Add(Add(SmallSigma1(w[i - 2]), w[i - 7]), SmallSigma0(w[i - 15])), w[i - 16]);
      i := i + 1;
    }
  }

  /** One turn of the block loop of sha256_blocks. */
  method BlockByTable(s: Chain, m: seq<bv32>) returns (t: Chain)
    requires |m| == 16
    ensures t == Compress(s, m)
  {
    hide W, Round, K, AddChains, ChainOf, ChainWords;
    var w := ScheduleTable(m);
    var r := new bv32[8](i requires 0 <= i < 8 => ChainWords(s)[i]);
    assert r[..] == ChainWords(s);
    var i := 0;
    while i < 64
      invariant 0 <= i <= 64 && ChainOf(r[..]) == Rounds(s, m, i)
      invariant forall j | 0 <= j < 64 :: w[j] == W(m, j)
    {
      Step(r, K(i), w[i]);
      i := i + 1;
    }
    t := AddChains(s, ChainOf(r[..]));
  }

  // ---------- SHA256::HashBlock: the schedule kept in the 16 words of the block, a ^ b carried from round to round

  /** The place of schedule word i in the block. */
  function Slot(i: nat): (r: nat)
    ensures r < 16
  {
    i % 16
  }

  lemma Slots(i: nat, j: nat)
    requires i - 16 <= j < i
    ensures Slot(j) == Slot(i) <==> j == i - 16
  {}

  /** The block holds the last 16 schedule words before word i, or still the message. */
  ghost predicate Holds(w: seq<bv32>, m: seq<bv32>, i: nat) {
    && |w| == |m| == 16
    && forall j: nat | i <= j + 16 && j < 16 + i && (j < 16 || j < i) :: w[Slot(j)] == W(m, j)
  }

  /** Word i of the schedule takes the place of word i - 16. */
  method Expand(w: array<bv32>, ghost m: seq<bv32>, i: nat)
    requires w.Length == 16 && Holds(w[..], m, i)
    modifies w
    ensures Holds(w[..], m, i + 1) && w[Slot(i)] == W(m, i)
  {
    hide Add, SmallSigma0, SmallSigma1, Slot, W, Holds;
    if i >= 16 {
      HoldsNext(w[..], m, i);
      var w_15, w_2 := w[Slot(i - 15)], w[Slot(i - 2)];
      ghost var before := w[..];
      w[Slot(i)] := Add(w[Slot(i)], Add(Add(SmallSigma0(w_15), w[Slot(i - 7)]), SmallSigma1(w_2)));
      assert w[..] == before[Slot(i) := w[Slot(i)]];
    } else {
      HoldsMessage(w[..], m, i);
    }
  }

  /** HashBlock on the words of a block; dst is the chaining value. */
  method HashBlock(p: array<bv32>, w: array<bv32>)
    requires p.Length == 8 && w.Length == 16 && p != w
    modifies p, w
    ensures ChainOf(p[..]) == Compress(ChainOf(old(p[..])), old(w[..]))
  {
    hide Add, BigSigma0, Round, K, Xor32, XorMaj, T1, Slot, W, Holds;
    ghost var m, s := w[..], ChainOf(p[..]);
    var a, b, c, d, e, f, g, h := p[0], p[1], p[2], p[3], p[4], p[5], p[6], p[7];
    var b_c := Xor32(b, c);
    HoldsFirst(m);
    var i := 0;
    while i < 64
      invariant 0 <= i <= 64 && Holds(w[..], m, i)
      invariant Chain(a, b, c, d, e, f, g, h) == Rounds(s, m, i) && b_c == Xor32(b, c)
      invariant p[..] == old(p[..])
    {
      Expand(w, m, i);
      RoundByXors(Chain(a, b, c, d, e, f, g, h), K(i), w[Slot(i)]);
      var t1 := T1(e, f, g, h, K(i), w[Slot(i)]);
      h, g, f := g, f, e;
      e := Add(d, t1);
      var a_b := Xor32(a, b);
      d, c, b := c, b, a;
      a := Add(Add(t1, BigSigma0(a)), XorMaj(a_b, b_c, c));
      b_c := a_b;
      i := i + 1;
    }
    AddInto(p, Chain(a, b, c, d, e, f, g, h));
  }

  method AddInto(p: array<bv32>, t: Chain)
    requires p.Length == 8
    modifies p
    ensures ChainOf(p[..]) == AddChains(ChainOf(old(p[..])), t)
  {
    hide Add;
    p[0], p[1], p[2], p[3] := Add(p[0], t.a), Add(p[1], t.b), Add(p[2], t.c), Add(p[3], t.d);
    p[4], p[5], p[6], p[7] := Add(p[4], t.e), Add(p[5], t.f), Add(p[6], t.g), Add(p[7], t.h);
  }

  lemma HoldsFirst(m: seq<bv32>)
    requires |m| == 16
    ensures Holds(m, m, 0)
  {}

  lemma HoldsMessage(w: seq<bv32>, m: seq<bv32>, i: nat)
    requires i < 16 && Holds(w, m, i)
    ensures w[Slot(i)] == W(m, i) && Holds(w, m, i + 1)
  {}

  lemma HoldsNext(w: seq<bv32>, m: seq<bv32>, i: nat)
    requires i >= 16 && Holds(w, m, i)
    ensures var x := Add(w[Slot(i)], Add(Add(SmallSigma0(w[Slot(i - 15)]), w[Slot(i - 7)]), SmallSigma1(w[Slot(i - 2)])));
            x == W(m, i) && Holds(w[Slot(i) := x], m, i + 1)
  {
    hide Add, SmallSigma0, SmallSigma1, Slot;
    Slots(i, i - 16);
    var x := W(m, i);
    ScheduleOrder(SmallSigma1(W(m, i - 2)), W(m, i - 7), SmallSigma0(W(m, i - 15)), W(m, i - 16));
    forall j: nat | i + 1 <= j + 16 && j < i + 1 ensures w[Slot(i) := x][Slot(j)] == W(m, j) {
      if j < i {
        Slots(i, j);
      }
    }
  }

  /** The round with the majority of three taken from the two exclusive ors. */
  lemma RoundByXors(s: Chain, k: bv32, w: bv32)
    ensures var t1 := T1(s.e, s.f, s.g, s.h, k, w);
            Round(s, k, w) == Chain(Add(Add(t1, BigSigma0(s.a)), XorMaj(Xor32(s.a, s.b), Xor32(s.b, s.c), s.b)),
                                    s.a, s.b, s.c, Add(s.d, t1), s.e, s.f, s.g)
  {
    hide Add, BigSigma0, Xor32, XorMaj, T1, Maj;
    XorMajIsMaj(s.a, s.b, s.c);
    AddAssoc(T1(s.e, s.f, s.g, s.h, k, w), BigSigma0(s.a), Maj(s.a, s.b, s.c));
  }
}
