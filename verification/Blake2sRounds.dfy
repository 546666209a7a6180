/** A round of BLAKE2s on sixteen words, with the distances of its rotations and the order of its words written out. */
module Blake2sRounds {
  import opened Words32
  import opened Blake2sCompression

  datatype Four = Four(a: bv32, b: bv32, c: bv32, d: bv32)

  datatype Vec = Vec(x0: bv32, x1: bv32, x2: bv32, x3: bv32, x4: bv32, x5: bv32, x6: bv32, x7: bv32,
                     x8: bv32, x9: bv32, x10: bv32, x11: bv32, x12: bv32, x13: bv32, x14: bv32, x15: bv32)

  function VecOf(v: Words): Vec
    requires |v| == 16
  {
    Vec(v[0], v[1], v[2], v[3], v[4], v[5], v[6], v[7], v[8], v[9], v[10], v[11], v[12], v[13], v[14], v[15])
  }

  function By16(x: bv32): bv32 { (x >> 16) | (x << 16) }
  function By12(x: bv32): bv32 { (x >> 12) | (x << 20) }
  function By8(x: bv32): bv32 { (x >> 8) | (x << 24) }
  function By7(x: bv32): bv32 { (x >> 7) | (x << 25) }

  lemma Distances(x: bv32)
    ensures Rotr(x, 16) == By16(x) && Rotr(x, 12) == By12(x) && Rotr(x, 8) == By8(x) && Rotr(x, 7) == By7(x)
  {}

  /** The four words after a mixing. */
  function G(a: bv32, b: bv32, c: bv32, d: bv32, x: bv32, y: bv32): Four {
    var a1 := Add(Add(a, b), x);
    var d1 := By16(Xor32(d, a1));
    var c1 := Add(c, d1);
    var b1 := By12(Xor32(b, c1));
    var a2 := Add(Add(a1, b1), y);
    var d2 := By8(Xor32(d1, a2));
    var c2 := Add(c1, d2);
    Four(a2, By7(Xor32(b1, c2)), c2, d2)
  }

  function Columns(v: Vec, w0: bv32, w1: bv32, w2: bv32, w3: bv32, w4: bv32, w5: bv32, w6: bv32, w7: bv32): Vec {
    var p := G(v.x0, v.x4, v.x8, v.x12, w0, w1);
    var q := G(v.x1, v.x5, v.x9, v.x13, w2, w3);
    var r := G(v.x2, v.x6, v.x10, v.x14, w4, w5);
    var s := G(v.x3, v.x7, v.x11, v.x15, w6, w7);
    Vec(p.a, q.a, r.a, s.a, p.b, q.b, r.b, s.b, p.c, q.c, r.c, s.c, p.d, q.d, r.d, s.d)
  }

  function Diagonals(v: Vec, w0: bv32, w1: bv32, w2: bv32, w3: bv32, w4: bv32, w5: bv32, w6: bv32, w7: bv32): Vec {
    var p := G(v.x0, v.x5, v.x10, v.x15, w0, w1);
    var q := G(v.x1, v.x6, v.x11, v.x12, w2, w3);
    var r := G(v.x2, v.x7, v.x8, v.x13, w4, w5);
    var s := G(v.x3, v.x4, v.x9, v.x14, w6, w7);
    Vec(p.a, q.a, r.a, s.a, s.b, p.b, q.b, r.b, r.c, s.c, p.c, q.c, q.d, r.d, s.d, p.d)
  }

  lemma MixIsG(v: Words, a: nat, b: nat, c: nat, d: nat, x: bv32, y: bv32)
    requires |v| == 16 && a < 4 <= b < 8 <= c < 12 <= d < 16
    ensures var g := G(v[a], v[b], v[c], v[d], x, y);
            Mix(v, (a, b, c, d), x, y) == v[a := g.a][b := g.b][c := g.c][d := g.d]
  {
    hide Add, Xor32, Rotr, By16, By12, By8, By7;
    var a1 := Add(Add(v[a], v[b]), x);
    Distances(Xor32(v[d], a1));
    var d1 := By16(Xor32(v[d], a1));
    var c1 := Add(v[c], d1);
    Distances(Xor32(v[b], c1));
    var b1 := By12(Xor32(v[b], c1));
    var a2 := Add(Add(a1, b1), y);
    Distances(Xor32(d1, a2));
    Distances(Xor32(b1, Add(c1, By8(Xor32(d1, a2)))));
  }

  /** The word that place j of round r takes from the message. */
  function Taken(m: Words, r: nat, j: nat): bv32
    requires |m| == 16 && r < 10 && j < 16
  {
    m[Sigma(r)[j]]
  }

  lemma NextIsG(v: Words, m: Words, r: nat, i: nat, a: nat, b: nat, c: nat, d: nat)
    requires |v| == |m| == 16 && r < 10 && i < 8 && Quad(i) == (a, b, c, d)
    ensures var u := Mixings(v, m, r, i);
            var g := G(u[a], u[b], u[c], u[d], Taken(m, r, 2 * i), Taken(m, r, 2 * i + 1));
            Mixings(v, m, r, i + 1) == u[a := g.a][b := g.b][c := g.c][d := g.d]
  {
    hide Mixings, Mix, G, Sigma, Quad;
    NextMixing(v, m, r, i);
    MixIsG(Mixings(v, m, r, i), a, b, c, d, Taken(m, r, 2 * i), Taken(m, r, 2 * i + 1));
  }

  lemma FirstColumns(v: Words, m: Words, r: nat)
    requires |v| == |m| == 16 && r < 10
    ensures var x := VecOf(Mixings(v, m, r, 0));
            var p := G(x.x0, x.x4, x.x8, x.x12, Taken(m, r, 0), Taken(m, r, 1));
            var q := G(x.x1, x.x5, x.x9, x.x13, Taken(m, r, 2), Taken(m, r, 3));
            VecOf(Mixings(v, m, r, 2)) == x.(x0 := p.a, x4 := p.b, x8 := p.c, x12 := p.d, x1 := q.a, x5 := q.b, x9 := q.c, x13 := q.d)
  {
    hide Mixings, G, Taken, Quad;
    Quads();
    NextIsG(v, m, r, 0, 0, 4, 8, 12);
    NextIsG(v, m, r, 1, 1, 5, 9, 13);
  }

  lemma OtherColumns(v: Words, m: Words, r: nat)
    requires |v| == |m| == 16 && r < 10
    ensures var x := VecOf(Mixings(v, m, r, 2));
            var p := G(x.x2, x.x6, x.x10, x.x14, Taken(m, r, 4), Taken(m, r, 5));
            var q := G(x.x3, x.x7, x.x11, x.x15, Taken(m, r, 6), Taken(m, r, 7));
            VecOf(Mixings(v, m, r, 4)) == x.(x2 := p.a, x6 := p.b, x10 := p.c, x14 := p.d, x3 := q.a, x7 := q.b, x11 := q.c, x15 := q.d)
  {
    hide Mixings, G, Taken, Quad;
    Quads();
    NextIsG(v, m, r, 2, 2, 6, 10, 14);
    NextIsG(v, m, r, 3, 3, 7, 11, 15);
  }

  lemma FirstDiagonals(v: Words, m: Words, r: nat)
    requires |v| == |m| == 16 && r < 10
    ensures var x := VecOf(Mixings(v, m, r, 4));
            var p := G(x.x0, x.x5, x.x10, x.x15, Taken(m, r, 8), Taken(m, r, 9));
            var q := G(x.x1, x.x6, x.x11, x.x12, Taken(m, r, 10), Taken(m, r, 11));
            VecOf(Mixings(v, m, r, 6)) == x.(x0 := p.a, x5 := p.b, x10 := p.c, x15 := p.d, x1 := q.a, x6 := q.b, x11 := q.c, x12 := q.d)
  {
    hide Mixings, G, Taken, Quad;
    Quads();
    NextIsG(v, m, r, 4, 0, 5, 10, 15);
    NextIsG(v, m, r, 5, 1, 6, 11, 12);
  }

  lemma OtherDiagonals(v: Words, m: Words, r: nat)
    requires |v| == |m| == 16 && r < 10
    ensures var x := VecOf(Mixings(v, m, r, 6));
            var p := G(x.x2, x.x7, x.x8, x.x13, Taken(m, r, 12), Taken(m, r, 13));
            var q := G(x.x3, x.x4, x.x9, x.x14, Taken(m, r, 14), Taken(m, r, 15));
            VecOf(Mixings(v, m, r, 8)) == x.(x2 := p.a, x7 := p.b, x8 := p.c, x13 := p.d, x3 := q.a, x4 := q.b, x9 := q.c, x14 := q.d)
  {
    hide Mixings, G, Taken, Quad;
    Quads();
    NextIsG(v, m, r, 6, 2, 7, 8, 13);
    NextIsG(v, m, r, 7, 3, 4, 9, 14);
  }

  lemma ColumnsAre(v: Words, m: Words, r: nat)
    requires |v| == |m| == 16 && r < 10
    ensures VecOf(Mixings(v, m, r, 4)) == Columns(VecOf(v), Taken(m, r, 0), Taken(m, r, 1), Taken(m, r, 2), Taken(m, r, 3),
                                                  Taken(m, r, 4), Taken(m, r, 5), Taken(m, r, 6), Taken(m, r, 7))
  {
    hide Mixings, G, Taken, VecOf;
    NoMixings(v, m, r);
    FirstColumns(v, m, r);
    OtherColumns(v, m, r);
  }

  lemma DiagonalsAre(v: Words, m: Words, r: nat)
    requires |v| == |m| == 16 && r < 10
    ensures VecOf(Mixings(v, m, r, 8))
         == Diagonals(VecOf(Mixings(v, m, r, 4)), Taken(m, r, 8), Taken(m, r, 9), Taken(m, r, 10), Taken(m, r, 11),
                      Taken(m, r, 12), Taken(m, r, 13), Taken(m, r, 14), Taken(m, r, 15))
  {
    hide Mixings, G, Taken, VecOf;
    FirstDiagonals(v, m, r);
    OtherDiagonals(v, m, r);
  }

  lemma RoundIs(v: Words, m: Words, r: nat, x: Vec, w0: bv32, w1: bv32, w2: bv32, w3: bv32, w4: bv32, w5: bv32, w6: bv32,
                w7: bv32, w8: bv32, w9: bv32, w10: bv32, w11: bv32, w12: bv32, w13: bv32, w14: bv32, w15: bv32)
    requires |v| == |m| == 16 && r < 10 && VecOf(Rounds(v, m, r)) == x
    requires Taken(m, r, 0) == w0 && Taken(m, r, 1) == w1 && Taken(m, r, 2) == w2 && Taken(m, r, 3) == w3
    requires Taken(m, r, 4) == w4 && Taken(m, r, 5) == w5 && Taken(m, r, 6) == w6 && Taken(m, r, 7) == w7
    requires Taken(m, r, 8) == w8 && Taken(m, r, 9) == w9 && Taken(m, r, 10) == w10 && Taken(m, r, 11) == w11
    requires Taken(m, r, 12) == w12 && Taken(m, r, 13) == w13 && Taken(m, r, 14) == w14 && Taken(m, r, 15) == w15
    ensures VecOf(Rounds(v, m, r + 1))
         == Diagonals(Columns(x, w0, w1, w2, w3, w4, w5, w6, w7), w8, w9, w10, w11, w12, w13, w14, w15)
  {
    hide Mixings, Columns, Diagonals, Taken, VecOf, Rounds;
    RoundsNext(v, m, r);
    ColumnsAre(Rounds(v, m, r), m, r);
    DiagonalsAre(Rounds(v, m, r), m, r);
  }

  // ---------- the order in which the rounds take the words

  lemma Order0(m: Words)
    requires |m| == 16
    ensures Taken(m, 0, 0) == m[0] && Taken(m, 0, 1) == m[1] && Taken(m, 0, 2) == m[2] && Taken(m, 0, 3) == m[3]
    ensures Taken(m, 0, 4) == m[4] && Taken(m, 0, 5) == m[5] && Taken(m, 0, 6) == m[6] && Taken(m, 0, 7) == m[7]
    ensures Taken(m, 0, 8) == m[8] && Taken(m, 0, 9) == m[9] && Taken(m, 0, 10) == m[10] && Taken(m, 0, 11) == m[11]
    ensures Taken(m, 0, 12) == m[12] && Taken(m, 0, 13) == m[13] && Taken(m, 0, 14) == m[14] && Taken(m, 0, 15) == m[15]
  {}

  lemma Order1(m: Words)
    requires |m| == 16
    ensures Taken(m, 1, 0) == m[14] && Taken(m, 1, 1) == m[10] && Taken(m, 1, 2) == m[4] && Taken(m, 1, 3) == m[8]
    ensures Taken(m, 1, 4) == m[9] && Taken(m, 1, 5) == m[15] && Taken(m, 1, 6) == m[13] && Taken(m, 1, 7) == m[6]
    ensures Taken(m, 1, 8) == m[1] && Taken(m, 1, 9) == m[12] && Taken(m, 1, 10) == m[0] && Taken(m, 1, 11) == m[2]
    ensures Taken(m, 1, 12) == m[11] && Taken(m, 1, 13) == m[7] && Taken(m, 1, 14) == m[5] && Taken(m, 1, 15) == m[3]
  {}

  lemma Order2(m: Words)
    requires |m| == 16
    ensures Taken(m, 2, 0) == m[11] && Taken(m, 2, 1) == m[8] && Taken(m, 2, 2) == m[12] && Taken(m, 2, 3) == m[0]
    ensures Taken(m, 2, 4) == m[5] && Taken(m, 2, 5) == m[2] && Taken(m, 2, 6) == m[15] && Taken(m, 2, 7) == m[13]
    ensures Taken(m, 2, 8) == m[10] && Taken(m, 2, 9) == m[14] && Taken(m, 2, 10) == m[3] && Taken(m, 2, 11) == m[6]
    ensures Taken(m, 2, 12) == m[7] && Taken(m, 2, 13) == m[1] && Taken(m, 2, 14) == m[9] && Taken(m, 2, 15) == m[4]
  {}

  lemma Order3(m: Words)
    requires |m| == 16
    ensures Taken(m, 3, 0) == m[7] && Taken(m, 3, 1) == m[9] && Taken(m, 3, 2) == m[3] && Taken(m, 3, 3) == m[1]
    ensures Taken(m, 3, 4) == m[13] && Taken(m, 3, 5) == m[12] && Taken(m, 3, 6) == m[11] && Taken(m, 3, 7) == m[14]
    ensures Taken(m, 3, 8) == m[2] && Taken(m, 3, 9) == m[6] && Taken(m, 3, 10) == m[5] && Taken(m, 3, 11) == m[10]
    ensures Taken(m, 3, 12) == m[4] && Taken(m, 3, 13) == m[0] && Taken(m, 3, 14) == m[15] && Taken(m, 3, 15) == m[8]
  {}

  lemma Order4(m: Words)
    requires |m| == 16
    ensures Taken(m, 4, 0) == m[9] && Taken(m, 4, 1) == m[0] && Taken(m, 4, 2) == m[5] && Taken(m, 4, 3) == m[7]
    ensures Taken(m, 4, 4) == m[2] && Taken(m, 4, 5) == m[4] && Taken(m, 4, 6) == m[10] && Taken(m, 4, 7) == m[15]
    ensures Taken(m, 4, 8) == m[14] && Taken(m, 4, 9) == m[1] && Taken(m, 4, 10) == m[11] && Taken(m, 4, 11) == m[12]
    ensures Taken(m, 4, 12) == m[6] && Taken(m, 4, 13) == m[8] && Taken(m, 4, 14) == m[3] && Taken(m, 4, 15) == m[13]
  {}

  lemma Order5(m: Words)
    requires |m| == 16
    ensures Taken(m, 5, 0) == m[2] && Taken(m, 5, 1) == m[12] && Taken(m, 5, 2) == m[6] && Taken(m, 5, 3) == m[10]
    ensures Taken(m, 5, 4) == m[0] && Taken(m, 5, 5) == m[11] && Taken(m, 5, 6) == m[8] && Taken(m, 5, 7) == m[3]
    ensures Taken(m, 5, 8) == m[4] && Taken(m, 5, 9) == m[13] && Taken(m, 5, 10) == m[7] && Taken(m, 5, 11) == m[5]
    ensures Taken(m, 5, 12) == m[15] && Taken(m, 5, 13) == m[14] && Taken(m, 5, 14) == m[1] && Taken(m, 5, 15) == m[9]
  {}

  lemma Order6(m: Words)
    requires |m| == 16
    ensures Taken(m, 6, 0) == m[12] && Taken(m, 6, 1) == m[5] && Taken(m, 6, 2) == m[1] && Taken(m, 6, 3) == m[15]
    ensures Taken(m, 6, 4) == m[14] && Taken(m, 6, 5) == m[13] && Taken(m, 6, 6) == m[4] && Taken(m, 6, 7) == m[10]
    ensures Taken(m, 6, 8) == m[0] && Taken(m, 6, 9) == m[7] && Taken(m, 6, 10) == m[6] && Taken(m, 6, 11) == m[3]
    ensures Taken(m, 6, 12) == m[9] && Taken(m, 6, 13) == m[2] && Taken(m, 6, 14) == m[8] && Taken(m, 6, 15) == m[11]
  {}

  lemma Order7(m: Words)
    requires |m| == 16
    ensures Taken(m, 7, 0) == m[13] && Taken(m, 7, 1) == m[11] && Taken(m, 7, 2) == m[7] && Taken(m, 7, 3) == m[14]
    ensures Taken(m, 7, 4) == m[12] && Taken(m, 7, 5) == m[1] && Taken(m, 7, 6) == m[3] && Taken(m, 7, 7) == m[9]
    ensures Taken(m, 7, 8) == m[5] && Taken(m, 7, 9) == m[0] && Taken(m, 7, 10) == m[15] && Taken(m, 7, 11) == m[4]
    ensures Taken(m, 7, 12) == m[8] && Taken(m, 7, 13) == m[6] && Taken(m, 7, 14) == m[2] && Taken(m, 7, 15) == m[10]
  {}

  lemma Order8(m: Words)
    requires |m| == 16
    ensures Taken(m, 8, 0) == m[6] && Taken(m, 8, 1) == m[15] && Taken(m, 8, 2) == m[14] && Taken(m, 8, 3) == m[9]
    ensures Taken(m, 8, 4) == m[11] && Taken(m, 8, 5) == m[3] && Taken(m, 8, 6) == m[0] && Taken(m, 8, 7) == m[8]
    ensures Taken(m, 8, 8) == m[12] && Taken(m, 8, 9) == m[2] && Taken(m, 8, 10) == m[13] && Taken(m, 8, 11) == m[7]
    ensures Taken(m, 8, 12) == m[1] && Taken(m, 8, 13) == m[4] && Taken(m, 8, 14) == m[10] && Taken(m, 8, 15) == m[5]
  {}

  lemma Order9(m: Words)
    requires |m| == 16
    ensures Taken(m, 9, 0) == m[10] && Taken(m, 9, 1) == m[2] && Taken(m, 9, 2) == m[8] && Taken(m, 9, 3) == m[4]
    ensures Taken(m, 9, 4) == m[7] && Taken(m, 9, 5) == m[6] && Taken(m, 9, 6) == m[1] && Taken(m, 9, 7) == m[5]
    ensures Taken(m, 9, 8) == m[15] && Taken(m, 9, 9) == m[11] && Taken(m, 9, 10) == m[9] && Taken(m, 9, 11) == m[14]
    ensures Taken(m, 9, 12) == m[3] && Taken(m, 9, 13) == m[12] && Taken(m, 9, 14) == m[13] && Taken(m, 9, 15) == m[0]
  {}

  lemma OutputAt(h: Words, v: Words, j: nat, a: bv32, b: bv32, c: bv32)
    requires |h| == 8 && |v| == 16 && j < 8 && h[j] == a && v[j] == b && v[j + 8] == c
    ensures Output(h, v)[j] == Xor32(Xor32(a, b), c)
  {
    hide Xor32;
  }

  lemma EightWords(f: Words)
    requires |f| == 8
    ensures f == [f[0], f[1], f[2], f[3], f[4], f[5], f[6], f[7]]
  {}

  lemma VecWords(v: Words, x: Vec)
    requires |v| == 16 && VecOf(v) == x
    ensures v[0] == x.x0 && v[1] == x.x1 && v[2] == x.x2 && v[3] == x.x3 && v[4] == x.x4 && v[5] == x.x5 && v[6] == x.x6
    ensures v[7] == x.x7 && v[8] == x.x8 && v[9] == x.x9 && v[10] == x.x10 && v[11] == x.x11 && v[12] == x.x12
    ensures v[13] == x.x13 && v[14] == x.x14 && v[15] == x.x15
  {}
}
