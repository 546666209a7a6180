/** The compression function of BLAKE2s: section 3 of RFC 7693, and the in-place form of the code. */
module Blake2sCompression {
  import opened Words32

  const TWO32: nat := 0x1_0000_0000
  const TWO64: nat := 0x1_0000_0000_0000_0000

  type Words = seq<bv32>

  const IV: Words := [0x6A09E667, 0xBB67AE85, 0x3C6EF372, 0xA54FF53A, 0x510E527F, 0x9B05688C, 0x1F83D9AB, 0x5BE0CD19]

  type Index = i: nat | i < 16

  /** SIGMA of section 2.7. */
  function Sigma(r: nat): (s: seq<Index>)
    requires r < 10
    ensures |s| == 16
  {
    match r
    case 0 => [0, 1, 2, 3, 4, 5, 6, 7, 8, 9, 10, 11, 12, 13, 14, 15]
    case 1 => [14, 10, 4, 8, 9, 15, 13, 6, 1, 12, 0, 2, 11, 7, 5, 3]
    case 2 => [11, 8, 12, 0, 5, 2, 15, 13, 10, 14, 3, 6, 7, 1, 9, 4]
    case 3 => [7, 9, 3, 1, 13, 12, 11, 14, 2, 6, 5, 10, 4, 0, 15, 8]
    case 4 => [9, 0, 5, 7, 2, 4, 10, 15, 14, 1, 11, 12, 6, 8, 3, 13]
    case 5 => [2, 12, 6, 10, 0, 11, 8, 3, 4, 13, 7, 5, 15, 14, 1, 9]
    case 6 => [12, 5, 1, 15, 14, 13, 4, 10, 0, 7, 6, 3, 9, 2, 8, 11]
    case 7 => [13, 11, 7, 14, 12, 1, 3, 9, 5, 0, 15, 4, 8, 6, 2, 10]
    case 8 => [6, 15, 14, 9, 11, 3, 0, 8, 12, 2, 13, 7, 1, 4, 10, 5]
    case 9 => [10, 2, 8, 4, 7, 6, 1, 5, 15, 11, 9, 14, 3, 12, 13, 0]
  }

  /** The four words that the i-th mixing of a round takes: the columns, then the diagonals. */
  function Quad(i: nat): (q: (nat, nat, nat, nat))
    requires i < 8
    ensures q.0 < 4 <= q.1 < 8 <= q.2 < 12 <= q.3 < 16
  {
    if i < 4 then (i, 4 + i, 8 + i, 12 + i) else (i - 4, 4 + (i - 3) % 4, 8 + (i - 2) % 4, 12 + (i - 1) % 4)
  }

  /** The mixing function G of section 3.1. */
  function Mix(v: Words, q: (nat, nat, nat, nat), x: bv32, y: bv32): (r: Words)
    requires |v| == 16 && q.0 < 4 <= q.1 < 8 <= q.2 < 12 <= q.3 < 16
    ensures |r| == 16
  {
    var a1 := Add(Add(v[q.0], v[q.1]), x);
    var d1 := Rotr(Xor32(v[q.3], a1), 16);
    var c1 := Add(v[q.2], d1);
    var b1 := Rotr(Xor32(v[q.1], c1), 12);
    var a2 := Add(Add(a1, b1), y);
    var d2 := Rotr(Xor32(d1, a2), 8);
    var c2 := Add(c1, d2);
    v[q.0 := a2][q.1 := Rotr(Xor32(b1, c2), 7)][q.2 := c2][q.3 := d2]
  }

  /** The first i mixings of round r. */
  function Mixings(v: Words, m: Words, r: nat, i: nat): (w: Words)
    requires |v| == |m| == 16 && r < 10 && i <= 8
    ensures |w| == 16
  {
    if i == 0 then v else
      Mix(Mixings(v, m, r, i - 1), Quad(i - 1), m[Sigma(r)[2 * (i - 1)]], m[Sigma(r)[2 * (i - 1) + 1]])
  }

  function Rounds(v: Words, m: Words, r: nat): (w: Words)
    requires |v| == |m| == 16 && r <= 10
    ensures |w| == 16
  {
    if r == 0 then v else Mixings(Rounds(v, m, r - 1), m, r - 1, 8)
  }

  /** The two words of the byte count. */
  function LowWord(t: nat): bv32 { (t % TWO32) as bv32 }

  function HighWord(t: nat): bv32
    requires t < TWO64
  {
    (t / TWO32) as bv32
  }

  /** The working vector at the start. */
  function Begin(h: Words, t: nat, last: bool): (v: Words)
    requires |h| == 8 && t < TWO64
    ensures |v| == 16
  {
    h + IV[..4] + [Xor32(IV[4], LowWord(t)), Xor32(IV[5], HighWord(t)), if last then !IV[6] else IV[6], IV[7]]
  }

  /** Both halves of the working vector added to the chaining value. */
  function Output(h: Words, v: Words): (r: Words)
    requires |h| == 8 && |v| == 16
    ensures |r| == 8
  {
    seq(8, i requires 0 <= i < 8 => Xor32(Xor32(h[i], v[i]), v[i + 8]))
  }

  /** The compression function F of section 3.2. */
  function F(h: Words, m: Words, t: nat, last: bool): (r: Words)
    requires |h| == 8 && |m| == 16 && t < TWO64
    ensures |r| == 8
  {
    Output(h, Rounds(Begin(h, t, last), m, 10))
  }

  // ---------- blake2s_compress

  /** The macro G on four places of the working vector. */
  method MixInPlace(v: array<bv32>, a: nat, b: nat, c: nat, d: nat, x: bv32, y: bv32)
    requires v.Length == 16 && a < 4 <= b < 8 <= c < 12 <= d < 16
    modifies v
    ensures v[..] == Mix(old(v[..]), (a, b, c, d), x, y)
  {
    hide Add, Rotr, Xor32;
    v[a] := Add(Add(v[a], v[b]), x);
    v[d] := Rotr(Xor32(v[d], v[a]), 16);
    v[c] := Add(v[c], v[d]);
    v[b] := Rotr(Xor32(v[b], v[c]), 12);
    v[a] := Add(Add(v[a], v[b]), y);
    v[d] := Rotr(Xor32(v[d], v[a]), 8);
    v[c] := Add(v[c], v[d]);
    v[b] := Rotr(Xor32(v[b], v[c]), 7);
  }

  lemma NextMixing(v: Words, m: Words, r: nat, i: nat)
    requires |v| == |m| == 16 && r < 10 && i < 8
    ensures Mixings(v, m, r, i + 1) == Mix(Mixings(v, m, r, i), Quad(i), m[Sigma(r)[2 * i]], m[Sigma(r)[2 * i + 1]])
  {}

  lemma Quads()
    ensures Quad(0) == (0, 4, 8, 12) && Quad(1) == (1, 5, 9, 13) && Quad(2) == (2, 6, 10, 14) && Quad(3) == (3, 7, 11, 15)
    ensures Quad(4) == (0, 5, 10, 15) && Quad(5) == (1, 6, 11, 12) && Quad(6) == (2, 7, 8, 13) && Quad(7) == (3, 4, 9, 14)
  {}

  /** One line of the macro ROUND. */
  method Line(v: array<bv32>, m: Words, r: nat, i: nat, a: nat, b: nat, c: nat, d: nat, ghost v0: Words)
    requires v.Length == |v0| == |m| == 16 && r < 10 && i < 8 && (a, b, c, d) == Quad(i)
    requires v[..] == Mixings(v0, m, r, i)
    modifies v
    ensures v[..] == Mixings(v0, m, r, i + 1)
  {
    hide Mix, Sigma, Mixings, Quad;
    NextMixing(v0, m, r, i);
    MixInPlace(v, a, b, c, d, m[Sigma(r)[2 * i]], m[Sigma(r)[2 * i + 1]]);
  }

  /** The macro ROUND. */
  method RoundInPlace(v: array<bv32>, m: Words, r: nat)
    requires v.Length == 16 && |m| == 16 && r < 10
    modifies v
    ensures v[..] == Mixings(old(v[..]), m, r, 8)
  {
    hide Mixings, Quad;
    Quads();
    ghost var v0 := v[..];
    NoMixings(v0, m, r);
    Line(v, m, r, 0, 0, 4, 8, 12, v0);
    Line(v, m, r, 1, 1, 5, 9, 13, v0);
    Line(v, m, r, 2, 2, 6, 10, 14, v0);
    Line(v, m, r, 3, 3, 7, 11, 15, v0);
    Line(v, m, r, 4, 0, 5, 10, 15, v0);
    Line(v, m, r, 5, 1, 6, 11, 12, v0);
    Line(v, m, r, 6, 2, 7, 8, 13, v0);
    Line(v, m, r, 7, 3, 4, 9, 14, v0);
  }

  lemma NoMixings(v: Words, m: Words, r: nat)
    requires |v| == |m| == 16 && r < 10
    ensures Mixings(v, m, r, 0) == v
  {}

  /** The working vector as blake2s_compress sets it up: the counter's high word and the second flag are always zero,
      the first flag is all ones for the last block. */
  method SetUp(h: Words, t0: nat, f0: bv32) returns (v: array<bv32>)
    requires |h| == 8 && t0 < TWO32 && (f0 == 0 || f0 == 0xFFFF_FFFF)
    ensures fresh(v) && v.Length == 16 && v[..] == Begin(h, t0, f0 != 0)
  {
    hide Xor32, LowWord, HighWord, Begin;
    v := new bv32[16](i requires 0 <= i < 16 => if i < 8 then h[i] else 0);
    Beginning(h, t0, f0);
    v[8], v[9], v[10], v[11] := IV[0], IV[1], IV[2], IV[3];
    v[12], v[13], v[14], v[15] := Xor32(LowWord(t0), IV[4]), Xor32(0, IV[5]), Xor32(f0, IV[6]), Xor32(0, IV[7]);
    assert v[..8] == h;
  }

  /** blake2s_compress. */
  method Compress(h: Words, t0: nat, f0: bv32, m: Words) returns (r: Words)
    requires |h| == 8 && |m| == 16 && t0 < TWO32 && (f0 == 0 || f0 == 0xFFFF_FFFF)
    ensures r == F(h, m, t0, f0 != 0)
  {
    hide Xor32, Rounds, Mixings, Begin;
    var v := SetUp(h, t0, f0);
    ghost var w := Begin(h, t0, f0 != 0);
    var i := 0;
    RoundsNext(w, m, 0);
    while i < 10
      invariant 0 <= i <= 10 && v[..] == Rounds(w, m, i)
    {
      RoundsNext(w, m, i);
      RoundInPlace(v, m, i);
      i := i + 1;
    }
    r := [];
    while |r| < 8
      invariant |r| <= 8 && v[..] == Rounds(w, m, 10)
      invariant forall j | 0 <= j < |r| :: r[j] == Xor32(Xor32(h[j], v[..][j]), v[..][j + 8])
    {
      r := r + [Xor32(Xor32(h[|r|], v[|r|]), v[|r| + 8])];
    }
  }

  lemma RoundsNext(v: Words, m: Words, r: nat)
    requires |v| == |m| == 16 && r < 10
    ensures Rounds(v, m, 0) == v && Rounds(v, m, r + 1) == Mixings(Rounds(v, m, r), m, r, 8)
  {}

  lemma Beginning(h: Words, t0: nat, f0: bv32)
    requires |h| == 8 && t0 < TWO32 && (f0 == 0 || f0 == 0xFFFF_FFFF)
    ensures Begin(h, t0, f0 != 0) == h + [IV[0], IV[1], IV[2], IV[3]] +
              [Xor32(LowWord(t0), IV[4]), Xor32(0, IV[5]), Xor32(f0, IV[6]), Xor32(0, IV[7])]
  {
    hide Xor32, LowWord, HighWord;
    Xor32Commutes(IV[4], LowWord(t0));
    NoHighWord(t0);
    Xor32Commutes(IV[5], 0);
    Xor32Zero(IV[6]);
    Xor32Ones(IV[6]);
    Xor32Zero(IV[7]);
  }

  lemma NoHighWord(t: nat)
    requires t < TWO32
    ensures HighWord(t) == 0
  {}

  lemma Xor32Commutes(x: bv32, y: bv32)
    ensures Xor32(x, y) == Xor32(y, x)
  {}

  lemma Xor32Zero(x: bv32)
    ensures Xor32(0, x) == x
  {}

  lemma Xor32Ones(x: bv32)
    ensures Xor32(0xFFFF_FFFF, x) == !x
  {}
}
