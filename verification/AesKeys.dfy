/** The AES key schedule as a circular buffer of Nk words, against the recurrence of section 5.2 of FIPS 197. */
module AesKeys {
  import opened Positional
  import opened GaloisField
  import opened SBox
  import opened AesRounds

  /** SubWord of FIPS 197. */
  function SubWord(t: Column): Column { MapBytes(SubByte, t) }

  /** RotWord of FIPS 197: bytes [a0, a1, a2, a3] become [a1, a2, a3, a0]. */
  function RotWord(t: Column): Column { Column(t.b1, t.b2, t.b3, t.b0) }

  /** The first byte of Rcon[i + 1]: x to the power i. */
  function Rcon(i: nat): bv8 {
    if i == 0 then 1 else XTime(Rcon(i - 1))
  }

  /** Word i of the expanded key: the recurrence of FIPS 197, section 5.2, with Nk = |key|. */
  function W(key: seq<Column>, i: nat): Column
    requires |key| > 0
  {
    var nk := |key|;
    if i < nk then key[i] else
      var temp := W(key, i - 1);
      XorColumn(W(key, i - nk),
        if i % nk == 0 then XorColumn(SubWord(RotWord(temp)), Column(Rcon(i / nk - 1), 0, 0, 0))
        else if nk > 6 && i % nk == 4 then SubWord(temp)
        else temp)
  }

  function KeySchedule(key: seq<Column>, n: nat): seq<Column>
    requires |key| > 0
  {
    seq(n, i requires 0 <= i < n => W(key, i))
  }

  /** The buffer after k words have been taken: places below the cursor are one generation ahead. */
  ghost predicate Window(key: seq<Column>, k: nat, m_key: seq<Column>, m_i: nat, m_rcon: bv8) {
    && |m_key| == |key| > 0 && m_i < |key| && m_i <= k && (k - m_i) % |key| == 0
    && (forall j | 0 <= j < |key| :: m_key[j] == W(key, if j < m_i then k - m_i + |key| + j else k - m_i + j))
    && m_rcon == Rcon(if m_i == 0 then k / |key| else k / |key| + 1)
  }

  lemma DivParts(k: nat, i: nat, nk: nat)
    requires i < nk && i <= k && (k - i) % nk == 0
    ensures k % nk == i && (k + nk) % nk == i && (k + nk) / nk == k / nk + 1
    ensures if i + 1 < nk then (k + 1) / nk == k / nk else (k + 1) / nk == k / nk + 1 && (k + 1) % nk == 0
    ensures i > 0 && i + 1 < nk ==> (k + 1 - (i + 1)) % nk == 0
  {
    var q := (k - i) / nk;
    assert k == q * nk + i;
    DivUnique(k, nk, q, i);
    assert (q + 1) * nk == q * nk + nk;
    DivUnique(k + nk, nk, q + 1, i);
    if i + 1 < nk {
      DivUnique(k + 1, nk, q, i + 1);
    } else {
      DivUnique(k + 1, nk, q + 1, 0);
    }
  }

  /** The word that takes the place of the one handed out. */
  function Feed(t: Column, m_i: nat, nk: nat, m_rcon: bv8): Column {
    if m_i == 0 then
      Column(Xor(m_rcon, SubByte(t.b1)), SubByte(t.b2), SubByte(t.b3), SubByte(t.b0))
    else if nk > 6 && m_i == 4 then SubWord(t)
    else t
  }

  lemma XorZeroColumn(t: Column, r: bv8)
    ensures XorColumn(t, Column(r, 0, 0, 0)) == Column(Xor(r, t.b0), t.b1, t.b2, t.b3)
  {
    hide Xor;
    XorCommutes(t.b0, r);
    XorZero(t.b1);
    XorZero(t.b2);
    XorZero(t.b3);
  }

  lemma NextWord(key: seq<Column>, k: nat, i: nat, rcon: bv8)
    requires i < |key| && i <= k && (k - i) % |key| == 0 && (i == 0 ==> rcon == Rcon(k / |key|))
    ensures W(key, k + |key|) == XorColumn(W(key, k), Feed(W(key, k + |key| - 1), i, |key|, rcon))
  {
    hide XorColumn, SubByte, Xor, Rcon;
    DivParts(k, i, |key|);
    var t := W(key, k + |key| - 1);
    XorZeroColumn(SubWord(RotWord(t)), Rcon(k / |key|));
  }

  lemma WindowMoves(key: seq<Column>, k: nat, m_key: seq<Column>, m_i: nat, m_rcon: bv8)
    requires Window(key, k, m_key, m_i, m_rcon)
    ensures var nk := |key|; var prev := if m_i == 0 then nk - 1 else m_i - 1;
            && m_key[m_i] == W(key, k) && m_key[prev] == W(key, k + nk - 1)
            && var fed := m_key[m_i := XorColumn(m_key[m_i], Feed(m_key[prev], m_i, nk, m_rcon))];
               Window(key, k + 1, fed, if m_i + 1 == nk then 0 else m_i + 1, if m_i == 0 then XTime(m_rcon) else m_rcon)
  {
    hide W, XorColumn, SubByte, Xor, Feed;
    var nk := |key|;
    DivParts(k, m_i, nk);
    NextWord(key, k, m_i, m_rcon);
    assert Rcon(k / nk + 1) == XTime(Rcon(k / nk));
  }

  class ExpandedKey {
    var m_i: nat
    var m_key: seq<Column>
    var m_rcon: bv8

    /** The key's words, the cursor at the first, the round constant 1. */
    constructor (key: seq<Column>)
      requires |key| > 0
      ensures Window(key, 0, m_key, m_i, m_rcon)
    {
      m_i, m_key, m_rcon := 0, key, 1;
    }

    /** Hands out the next word of the schedule and overwrites it with the word Nk places later. */
    method Next(ghost key: seq<Column>, ghost k: nat) returns (w: Column)
      requires Window(key, k, m_key, m_i, m_rcon)
      modifies this
      ensures Window(key, k + 1, m_key, m_i, m_rcon)
      ensures w == W(key, k)
    {
      hide W, XorColumn, SubByte, Xor, Feed;
      WindowMoves(key, k, m_key, m_i, m_rcon);
      LastIndex(m_i, |m_key|);
      var t := Feed(m_key[(m_i + |m_key| - 1) % |m_key|], m_i, |m_key|, m_rcon);
      if m_i == 0 {
        m_rcon := XTime(m_rcon);
      }
      w := m_key[m_i];
      m_key := m_key[m_i := XorColumn(w, t)];
      m_i := (m_i + 1) % |m_key|;
    }
  }

  lemma LastIndex(i: nat, n: nat)
    requires i < n
    ensures (i + n - 1) % n == if i == 0 then n - 1 else i - 1
    ensures (i + 1) % n == if i + 1 == n then 0 else i + 1
  {
    if i > 0 {
      DivUnique(i + n - 1, n, 1, i - 1);
    }
  }

  /** CalcExpandedKey: n words in the order of the schedule. */
  method CalcExpandedKey(key: seq<Column>, n: nat) returns (r: seq<Column>)
    requires |key| > 0
    ensures r == KeySchedule(key, n)
  {
    hide W;
    var ekey := new ExpandedKey(key);
    r := [];
    while |r| < n
      invariant |r| <= n && r == KeySchedule(key, |r|) && fresh(ekey)
      invariant Window(key, |r|, ekey.m_key, ekey.m_i, ekey.m_rcon)
    {
      var w := ekey.Next(key, |r|);
      r := r + [w];
    }
  }

  /** The words of an inverse schedule, handed out from the last to the first. */
  class InvExpandedKey {
    var m_i: nat
    var m_invkey: seq<Column>

    constructor (key: seq<Column>, ekeylen: nat, nb: nat)
      requires |key| > 0 && 2 * nb <= ekeylen
      ensures m_i == 0 && |m_invkey| == ekeylen
      ensures forall i | 0 <= i < ekeylen ::
        m_invkey[i] == if nb <= i < ekeylen - nb then InvMixColumn(W(key, i)) else W(key, i)
    {
      hide W, InvMixColumn;
      var words: seq<Column> := [];
      var base := new ExpandedKey(key);
      while |words| < ekeylen
        invariant |words| <= ekeylen && fresh(base)
        invariant Window(key, |words|, base.m_key, base.m_i, base.m_rcon)
        invariant forall i | 0 <= i < |words| ::
          words[i] == if nb <= i < ekeylen - nb then InvMixColumn(W(key, i)) else W(key, i)
      {
        var w := base.Next(key, |words|);
        words := words + [if nb <= |words| < ekeylen - nb then InvMixColumn(w) else w];
      }
      m_i, m_invkey := 0, words;
    }

    method Next() returns (w: Column)
      requires m_i < |m_invkey|
      modifies this`m_i
      ensures m_i == old(m_i) + 1 && w == m_invkey[|m_invkey| - m_i]
    {
      m_i := m_i + 1;
      w := m_invkey[|m_invkey| - m_i];
    }
  }

  /** CalcInvExpandedKey: the decryption schedule of the same key. */
  method CalcInvExpandedKey(key: seq<Column>, n: nat) returns (r: seq<Column>)
    requires |key| > 0 && n >= 8
    ensures r == InvKey(KeySchedule(key, n))
  {
    hide W, InvMixColumn;
    var ekey := new InvExpandedKey(key, n, 4);
    r := [];
    while |r| < n
      invariant |r| <= n && fresh(ekey) && ekey.m_i == |r| && |ekey.m_invkey| == n
      invariant forall i | 0 <= i < n ::
        ekey.m_invkey[i] == if 4 <= i < n - 4 then InvMixColumn(W(key, i)) else W(key, i)
      invariant forall i | 0 <= i < |r| :: r[i] == InvKey(KeySchedule(key, n))[i]
    {
      var w := ekey.Next();
      r := r + [w];
    }
  }
}
