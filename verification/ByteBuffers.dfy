/** Byte values and byte buffers. */
module ByteBuffers {
  /** The byte with value n. */
  function ByteOf(n: nat): (b: bv8)
    requires n < 256
    ensures b as int == n
  {
    if n == 0 then 0 else
      var b := ByteOf(n - 1);
      Successor(b);
      b + 1
  }

  lemma Successor(b: bv8)
    requires b as int < 255
    ensures (b + 1) as int == b as int + 1
  {}

  lemma ZeroByte(b: bv8)
    ensures b as int == 0 <==> b == 0
  {}

  function Zeroes(n: nat): (z: seq<bv8>)
    ensures |z| == n
  {
    seq(n, _ => 0)
  }

  /** What memcpy leaves in a buffer: s from place `at` on, everything else as it was. */
  function Stored<T>(d: seq<T>, at: nat, s: seq<T>): (r: seq<T>)
    requires at + |s| <= |d|
    ensures |r| == |d|
  {
    d[..at] + s + d[at + |s|..]
  }

  method Store<T>(d: array<T>, at: nat, s: seq<T>)
    requires at + |s| <= d.Length
    modifies d
    ensures d[..] == Stored(old(d[..]), at, s)
  {
    forall i | 0 <= i < |s| { d[at + i] := s[i]; }
  }

  lemma StoredPrefix<T>(d: seq<T>, at: nat, s: seq<T>)
    requires at + |s| <= |d|
    ensures Stored(d, at, s)[..at + |s|] == d[..at] + s
  {}

  lemma StoredAt<T>(d: seq<T>, at: nat, s: seq<T>, i: nat)
    requires at + |s| <= |d| && i < |d|
    ensures Stored(d, at, s)[i] == if at <= i < at + |s| then s[i - at] else d[i]
  {}

  /** A stretch that was stored, and one that was not touched. */
  lemma StoredStretch<T>(d: seq<T>, at: nat, s: seq<T>, lo: nat, hi: nat)
    requires at + |s| <= |d| && lo <= hi <= |d|
    ensures lo == at && hi == at + |s| ==> Stored(d, at, s)[lo..hi] == s
    ensures hi <= at || at + |s| <= lo ==> Stored(d, at, s)[lo..hi] == d[lo..hi]
  {}

  lemma StoredWhole<T>(d: seq<T>, s: seq<T>)
    requires |d| == |s|
    ensures Stored(d, 0, s) == s
  {}
}
