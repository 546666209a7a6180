/** HMAC and PBKDF2 over SHA-256 from saved streaming states, against RFC 2104 and RFC 8018. */
module Pbkdf2 {
  import opened ByteBuffers
  import opened GaloisField
  import opened Numbers
  import opened XorBytes
  import opened Sha256Stream

  // ---------- the standards

  /** K of RFC 2104, section 2: the key, hashed if it is longer than a block, and zeroes up to a block. */
  function BlockKey(key: seq<bv8>): (k: seq<bv8>)
    ensures |k| == BLOCK
  {
    var k := if |key| <= BLOCK then key else Sha256(key);
    k + Zeroes(BLOCK - |k|)
  }

  function Repeat(b: bv8): (p: seq<bv8>)
    ensures |p| == BLOCK
  {
    seq(BLOCK, _ => b)
  }

  function Hmac(key: seq<bv8>, text: seq<bv8>): (mac: seq<bv8>)
    ensures |mac| == DIGEST
  {
    Sha256(XorBlocks(BlockKey(key), Repeat(0x5C)) + Sha256(XorBlocks(BlockKey(key), Repeat(0x36)) + text))
  }

  /** U_j of RFC 8018, section 5.2, for block i. */
  function U(password: seq<bv8>, salt: seq<bv8>, i: nat, j: nat): (u: seq<bv8>)
    requires 0 < i < TWO32 && j > 0
    ensures |u| == DIGEST
  {
    if j == 1 then Hmac(password, salt + NumberBytes(i)) else Hmac(password, U(password, salt, i, j - 1))
  }

  /** U_1 xor ... xor U_c. */
  function F(password: seq<bv8>, salt: seq<bv8>, c: nat, i: nat): (t: seq<bv8>)
    requires 0 < i < TWO32 && c > 0
    ensures |t| == DIGEST
  {
    if c == 1 then U(password, salt, i, 1) else XorBlocks(F(password, salt, c - 1, i), U(password, salt, i, c))
  }

  /** T_1 to T_l put together. */
  function T(password: seq<bv8>, salt: seq<bv8>, c: nat, l: nat): (t: seq<bv8>)
    requires l < TWO32 && c > 0
    ensures |t| == DIGEST * l
  {
    if l == 0 then [] else T(password, salt, c, l - 1) + F(password, salt, c, l)
  }

  /** The derived key: the first dkLen bytes of as many blocks as it takes. */
  function Pbkdf2(password: seq<bv8>, salt: seq<bv8>, c: nat, dkLen: nat): (dk: seq<bv8>)
    requires c > 0 && dkLen <= TWO32 - DIGEST
    ensures |dk| == dkLen
  {
    T(password, salt, c, (dkLen + DIGEST - 1) / DIGEST)[..dkLen]
  }

  // ---------- HMAC states

  class HmacState {
    const inner: HashState
    const outer: HashState
    ghost var key: seq<bv8>
    ghost var text: seq<bv8>

    ghost var Repr: set<object>

    /** The inner hash has taken the inner pad and the text, the outer one the outer pad. */
    ghost predicate Valid()
      reads this, Repr
    {
      && Repr == {this, inner, inner.buffer, outer, outer.buffer}
      && inner != outer && inner.buffer != outer.buffer
      && inner.Valid() && outer.Valid()
      && inner.message == XorBlocks(BlockKey(key), Repeat(0x36)) + text
      && outer.message == XorBlocks(BlockKey(key), Repeat(0x5C))
    }

    /** hmac_init. */
    constructor (key: seq<bv8>)
      ensures Valid() && fresh(Repr)
      ensures this.key == key && text == []
    {
      hide HashState.Valid, BlockKey, Repeat, XorBlocks;
      var pad := PadKey(key);
      var k := pad[..];
      var i := new HashState();
      var o := new HashState();
      XorWith(pad, Repeat(0x36));
      i.Update(pad[..]);
      XorWith(pad, Repeat(0x5C ^ 0x36));
      InnerToOuter(k);
      o.Update(pad[..]);
      assert [] + XorBlocks(k, Repeat(0x36)) == XorBlocks(k, Repeat(0x36)) + [];
      assert [] + XorBlocks(k, Repeat(0x5C)) == XorBlocks(k, Repeat(0x5C));
      inner, outer, this.key, text := i, o, key, [];
      Repr := {this, i, i.buffer, o, o.buffer};
    }

    /** The assignment of one state to another. */
    constructor Copy(s: HmacState)
      requires s.Valid()
      ensures Valid() && fresh(Repr)
      ensures key == s.key && text == s.text
    {
      hide HashState.Valid, BlockKey, Repeat, XorBlocks;
      var i := new HashState.Copy(s.inner);
      var o := new HashState.Copy(s.outer);
      inner, outer, key, text := i, o, s.key, s.text;
      Repr := {this, i, i.buffer, o, o.buffer};
    }

    method Update(m: seq<bv8>)
      requires Valid()
      modifies Repr
      ensures Valid() && Repr == old(Repr) && key == old(key) && text == old(text) + m
    {
      hide HashState.Valid, BlockKey, Repeat, XorBlocks;
      inner.Update(m);
      assert XorBlocks(BlockKey(key), Repeat(0x36)) + text + m == XorBlocks(BlockKey(key), Repeat(0x36)) + (text + m);
      text := text + m;
    }

    method Finish() returns (mac: seq<bv8>)
      requires Valid()
      modifies Repr
      ensures mac == Hmac(old(key), old(text))
    {
      hide HashState.Valid, BlockKey, Repeat, XorBlocks, Sha256;
      var innerhash := inner.Finish();
      outer.Update(innerhash);
      mac := outer.Finish();
    }
  }

  /** The key in a block of its own. */
  method PadKey(key: seq<bv8>) returns (pad: array<bv8>)
    ensures fresh(pad) && pad[..] == BlockKey(key)
  {
    hide Sha256;
    pad := new bv8[BLOCK](_ => 0);
    assert pad[..] == Zeroes(BLOCK);
    if |key| <= BLOCK {
      Store(pad, 0, key);
    } else {
      var hash := HashOf(key);
      Store(pad, 0, hash);
    }
  }

  /** neoscrypt_hash_sha256. */
  method HashOf(m: seq<bv8>) returns (hash: seq<bv8>)
    ensures hash == Sha256(m)
  {
    var st := new HashState();
    st.Update(m);
    assert [] + m == m;
    hash := st.Finish();
  }

  /** Adding the inner pad and then the difference of the pads adds the outer pad. */
  lemma InnerToOuter(k: seq<bv8>)
    requires |k| == BLOCK
    ensures XorBlocks(XorBlocks(k, Repeat(0x36)), Repeat(0x5C ^ 0x36)) == XorBlocks(k, Repeat(0x5C))
  {
    hide Xor;
    forall i | 0 <= i < BLOCK ensures Xor(Xor(k[i], 0x36), 0x5C ^ 0x36) == Xor(k[i], 0x5C) {
      XorAssoc(k[i], 0x36, 0x5C ^ 0x36);
      PadDifference();
    }
  }

  lemma PadDifference()
    ensures Xor(0x36, 0x5C ^ 0x36) == 0x5C
  {}

  // ---------- PBKDF2

  /** The counter j of the loop over U_2, U_3, ...: a uint32_t compared with the uint64_t N - 1. */
  function Counter(turns: nat): (j: nat)
    ensures j < TWO32
  {
    turns % TWO32
  }

  function Bound(N: nat): nat
    requires N < TWO64
  {
    (N + TWO64 - 1) % TWO64
  }

  /** The loop ends exactly for 1 <= N <= 2^32, and then after N - 1 turns. For N = 0 the bound wraps round to 2^64 - 1. */
  lemma CounterEndsIff(N: nat)
    requires N < TWO64
    ensures (exists k: nat :: Counter(k) >= Bound(N)) <==> 1 <= N <= TWO32
    ensures 1 <= N <= TWO32 ==> Counter(N - 1) == Bound(N) && forall k | 0 <= k < N - 1 :: Counter(k) < Bound(N)
  {
    BoundIs(N);
    if 1 <= N <= TWO32 {
      forall k | 0 <= k <= N - 1 ensures Counter(k) == k {
        SmallCount(k);
      }
      assert Counter(N - 1) >= Bound(N);
    } else {
      forall k: nat ensures Counter(k) < Bound(N) {
        assert Counter(k) < TWO32;
      }
    }
  }

  lemma BoundIs(N: nat)
    requires N < TWO64
    ensures Bound(N) == if N == 0 then TWO64 - 1 else N - 1
  {}

  lemma SmallCount(k: nat)
    requires k < TWO32
    ensures Counter(k) == k
  {}

  /** The least N for which the loop never ends. */
  lemma CounterFails()
    ensures forall k: nat {:trigger Counter(k)} :: Counter(k) < Bound(TWO32 + 1)
  {
    CounterEndsIff(TWO32 + 1);
  }

  /** One output block: the saved states are copied, never hashed again. */
  method OutputBlock(hmac_pw: HmacState, hmac_pw_salt: HmacState, N: nat, i: nat) returns (ti: seq<bv8>)
    requires 1 <= N <= TWO32 && 0 < i < TWO32
    requires hmac_pw.Valid() && hmac_pw.text == []
    requires hmac_pw_salt.Valid() && hmac_pw_salt.key == hmac_pw.key
    ensures ti == F(hmac_pw.key, hmac_pw_salt.text, N, i)
  {
    hide Hmac, HmacState.Valid, NumberBytes, XorBlocks, Counter;
    ghost var password, salt := hmac_pw.key, hmac_pw_salt.text;
    var work := new HmacState.Copy(hmac_pw_salt);
    work.Update(NumberBytes(i));
    ti := work.Finish();
    var u := ti;
    var j := 0;
    while j < N - 1
      invariant 0 <= j <= N - 1
      invariant u == U(password, salt, i, j + 1) && ti == F(password, salt, j + 1, i)
      invariant hmac_pw.Valid()
    {
      work := new HmacState.Copy(hmac_pw);
      work.Update(u);
      assert [] + u == u;
      u := work.Finish();
      ti := XorBlocks(ti, u);
      SmallCount(j + 1);
      j := Counter(j + 1);
    }
  }

  /** neoscrypt_pbkdf2_sha256. */
  method DeriveKey(password: seq<bv8>, salt: seq<bv8>, N: nat, output: array<bv8>)
    requires 1 <= N <= TWO32 && output.Length <= TWO32 - DIGEST
    modifies output
    ensures output[..] == Pbkdf2(password, salt, N, output.Length)
  {
    hide HmacState.Valid, Derived, Stored, F, Pbkdf2, T;
    var hmac_pw := new HmacState(password);
    var hmac_pw_salt := new HmacState.Copy(hmac_pw);
    hmac_pw_salt.Update(salt);
    assert [] + salt == salt;
    var n := output.Length;
    var blocks := (n + DIGEST - 1) / DIGEST;
    DerivedFirst(password, salt, N, output[..]);
    var i := 1;
    while i <= blocks
      invariant 1 <= i <= blocks + 1
      invariant hmac_pw.Valid() && hmac_pw.key == password && hmac_pw.text == [] && fresh(hmac_pw.Repr)
      invariant hmac_pw_salt.Valid() && hmac_pw_salt.key == password && hmac_pw_salt.text == salt && fresh(hmac_pw_salt.Repr)
      invariant Derived(password, salt, N, i - 1, output[..])
    {
      var ti := OutputBlock(hmac_pw, hmac_pw_salt, N, i);
      var piece := ti[..Min(n - DIGEST * (i - 1), DIGEST)];
      DerivedNext(password, salt, N, i, output[..], ti, piece);
      Store(output, DIGEST * (i - 1), piece);
      i := i + 1;
    }
    DerivedAll(password, salt, N, output[..]);
  }

  /** The first l blocks stand in the output, as far as they fit. */
  ghost predicate Derived(password: seq<bv8>, salt: seq<bv8>, c: nat, l: nat, output: seq<bv8>)
    requires l < TWO32 && c > 0
  {
    var k := Min(DIGEST * l, |output|);
    output[..k] == T(password, salt, c, l)[..k]
  }

  lemma DerivedFirst(password: seq<bv8>, salt: seq<bv8>, c: nat, output: seq<bv8>)
    requires c > 0
    ensures Derived(password, salt, c, 0, output)
  {}

  lemma DerivedAll(password: seq<bv8>, salt: seq<bv8>, c: nat, output: seq<bv8>)
    requires c > 0 && |output| <= TWO32 - DIGEST
    requires Derived(password, salt, c, (|output| + DIGEST - 1) / DIGEST, output)
    ensures output == Pbkdf2(password, salt, c, |output|)
  {
    hide T;
    assert output[..|output|] == output;
  }

  lemma PrefixOfBoth(x: seq<bv8>, y: seq<bv8>, k: nat)
    requires |x| <= k <= |x| + |y|
    ensures (x + y)[..k] == x + y[..k - |x|]
  {}

  lemma DerivedNext(password: seq<bv8>, salt: seq<bv8>, c: nat, i: nat, output: seq<bv8>, f: seq<bv8>,
                    piece: seq<bv8>)
    requires 0 < i < TWO32 && c > 0 && Derived(password, salt, c, i - 1, output) && DIGEST * (i - 1) <= |output|
    requires f == F(password, salt, c, i) && |f| == DIGEST
    requires piece == f[..Min(|output| - DIGEST * (i - 1), DIGEST)]
    ensures Derived(password, salt, c, i, Stored(output, DIGEST * (i - 1), piece))
  {
    hide F, Stored, T;
    var at, t := DIGEST * (i - 1), T(password, salt, c, i - 1);
    StoredPrefix(output, at, piece);
    TNext(password, salt, c, i);
    assert t[..at] == t;
    PrefixOfBoth(t, f, Min(DIGEST * i, |output|));
  }

  lemma TNext(password: seq<bv8>, salt: seq<bv8>, c: nat, i: nat)
    requires 0 < i < TWO32 && c > 0
    ensures T(password, salt, c, i) == T(password, salt, c, i - 1) + F(password, salt, c, i)
  {}
}
