/** Peers, buckets of peers and the peer index as values: what the address manager keeps true of them. */
module PeerBuckets {
  import opened Numbers
  import opened Positional
  import opened Sequences

  const MINUTE: int := 600_000_000
  const DAY: int := 24 * 60 * MINUTE

  datatype EndPoint = EndPoint(address: seq<bv8>, port: nat)

  /** Times are counted in ticks of 100 ns; 0 stands for a time that was never set. */
  class Peer {
    const EndPoint: EndPoint
    var Services: bv64
    var LastLive: int
    var LastPersistent: int
    var LastTry: int
    var Attempts: int
    var IsDirty: bool

    constructor (ep: EndPoint, services: bv64, lastPersistent: int)
      ensures EndPoint == ep && Services == services && LastPersistent == lastPersistent
      ensures LastLive == LastTry == Attempts == 0
    {
      EndPoint, Services, LastPersistent := ep, services, lastPersistent;
      LastLive, LastTry, Attempts, IsDirty := 0, 0, 0, true;
    }

    predicate IsTerrible(now: int)
      reads this
    {
      !(LastTry != 0 && now - LastTry < MINUTE)
      && (LastPersistent == 0
          || now - LastPersistent > 30 * DAY
          || (LastLive == 0 && Attempts >= 3)
          || (now - LastLive > 7 * DAY && Attempts >= 10))
    }
  }

  // What IsTerrible says at its limits: 1 minute, 30 days and 7 days are 600_000_000, 25_920_000_000_000 and
  // 6_048_000_000_000 ticks.

  /** A peer tried less than a minute ago is spared, whatever else is known of it. */
  lemma SparedWhileTried(p: Peer, now: int)
    requires p.LastTry != 0 && now - p.LastTry <= 599_999_999
    ensures !p.IsTerrible(now)
  {}

  /** A peer heard of within 30 days is spared with two attempts if it never answered, with nine if it did not for a week,
      and with any number if it answered within the week. */
  lemma SparedAtLimits(p: Peer, now: int)
    requires p.LastPersistent != 0 && now - p.LastPersistent <= 25_920_000_000_000
    requires p.LastLive != 0 || p.Attempts <= 2
    requires now - p.LastLive <= 6_048_000_000_000 || p.Attempts <= 9
    ensures !p.IsTerrible(now)
  {}

  /** A peer not tried for a minute is condemned one tick past 30 days, with the third attempt if it never answered, and
      with the tenth one tick past a week. */
  lemma CondemnedPastLimits(p: Peer, now: int)
    requires p.LastTry == 0 || now - p.LastTry >= 600_000_000
    requires || p.LastPersistent == 0 || now - p.LastPersistent >= 25_920_000_000_001
             || (p.LastLive == 0 && p.Attempts >= 3) || (now - p.LastLive >= 6_048_000_000_001 && p.Attempts >= 10)
    ensures p.IsTerrible(now)
  {}

  function WithServices(a: bv64, b: bv64): bv64 { a | b }

  // Every bit of the first argument is in the result, so is every bit of the second, and no other bit is.

  lemma FirstServices(a: bv64, b: bv64)
    ensures WithServices(a, b) & a == a
  {}

  lemma SecondServices(a: bv64, b: bv64)
    ensures WithServices(a, b) & b == b
  {}

  lemma NoOtherServices(a: bv64, b: bv64)
    ensures WithServices(a, b) & !a & !b == 0
  {}

  // ---------- vectors of peers

  /** Ext::Remove. */
  function Without(s: seq<Peer>, p: Peer): (r: seq<Peer>)
    ensures forall q <- r :: q in s && q != p
    ensures forall q <- s :: q != p ==> q in r
    ensures p !in s ==> r == s
  {
    if s == [] then [] else
      var t := Without(s[..|s| - 1], p);
      if s[|s| - 1] == p then t else t + [s[|s| - 1]]
  }

  lemma {:induction false} WithoutNoDup(s: seq<Peer>, p: Peer)
    requires NoDup(s)
    ensures NoDup(Without(s, p)) && (p in s ==> |Without(s, p)| == |s| - 1)
  {
    if s != [] {
      var t, q := s[..|s| - 1], s[|s| - 1];
      WithoutNoDup(t, p);
      assert q !in t;
      assert s == t + [q];
    }
  }

  lemma {:induction false} WithoutAt(s: seq<Peer>, i: nat)
    requires NoDup(s) && i < |s|
    ensures s[..i] + s[i + 1..] == Without(s, s[i])
  {
    var n := |s| - 1;
    if i == n {
      assert s[i] !in s[..n];
    } else {
      WithoutAt(s[..n], i);
      assert s[..i] + s[i + 1..] == s[..n][..i] + s[..n][i + 1..] + [s[n]];
    }
  }

  lemma AppendNoDup(s: seq<Peer>, p: Peer)
    requires NoDup(s) && p !in s
    ensures NoDup(s + [p])
  {}

  /** The first of the peers that have gone longest without a sign of life. */
  function Oldest(s: seq<Peer>): (p: Peer)
    requires s != []
    reads s
    ensures p in s
  {
    if |s| == 1 then s[0] else
      var p, q := Oldest(s[..|s| - 1]), s[|s| - 1];
      if q.LastPersistent < p.LastPersistent then q else p
  }

  /** Oldest is what its name says: nobody is older, and everybody before it is younger. */
  lemma {:induction false} OldestIsOldest(s: seq<Peer>) returns (k: nat)
    requires s != []
    ensures k < |s| && s[k] == Oldest(s)
    ensures forall j | 0 <= j < |s| :: s[k].LastPersistent <= s[j].LastPersistent
    ensures forall j | 0 <= j < k :: s[k].LastPersistent < s[j].LastPersistent
  {
    var n := |s| - 1;
    if n == 0 {
      k := 0;
    } else {
      k := OldestIsOldest(s[..n]);
      assert forall j | 0 <= j < n :: s[..n][j] == s[j];
      if s[n].LastPersistent < s[k].LastPersistent {
        k := n;
      }
    }
  }

  /** The index of the first terrible peer, or the length. */
  function FirstTerrible(s: seq<Peer>, now: int): (i: nat)
    reads s
    ensures i <= |s| && forall j | 0 <= j < i :: !s[j].IsTerrible(now)
    ensures i < |s| ==> s[i].IsTerrible(now)
  {
    if s == [] then 0 else
      var i := FirstTerrible(s[..|s| - 1], now);
      if i < |s| - 1 then i else if s[i].IsTerrible(now) then i else i + 1
  }

  /** The peer a full bucket gives up. */
  function Victim(s: seq<Peer>, now: int): (p: Peer)
    requires s != []
    reads s
    ensures p in s
  {
    var i := FirstTerrible(s, now);
    if i < |s| then s[i] else Oldest(s)
  }

  /** Whom a bucket gives up for one more peer. */
  function Evicted(s: seq<Peer>, now: int): (p: Peer?)
    reads s
    ensures p == null <==> |s| < 64
    ensures p != null ==> p in s
  {
    if |s| < NEW_BUCKET_SIZE then null else Victim(s, now)
  }

  // ---------- the index

  type Index = map<seq<bv8>, Peer>

  predicate Indexed(ips: Index, p: Peer) {
    p.EndPoint.address in ips && ips[p.EndPoint.address] == p
  }

  /** The index files every peer under its own address, and the vector lists exactly the indexed peers, once each. */
  ghost predicate Listed(ips: Index, vec: seq<Peer>) {
    && (forall a <- ips :: ips[a].EndPoint.address == a)
    && NoDup(vec)
    && (forall p <- vec :: Indexed(ips, p))
    && (forall a <- ips :: ips[a] in vec)
  }

  lemma ListedAfterRemove(ips: Index, vec: seq<Peer>, p: Peer)
    requires Listed(ips, vec) && Indexed(ips, p)
    ensures Listed(ips - {p.EndPoint.address}, Without(vec, p))
  {
    WithoutNoDup(vec, p);
  }

  lemma ListedAfterInsert(ips: Index, vec: seq<Peer>, p: Peer)
    requires Listed(ips, vec) && p.EndPoint.address !in ips
    ensures Listed(ips[p.EndPoint.address := p], vec + [p])
  {
    var a := p.EndPoint.address;
    assert p !in vec;
    AppendNoDup(vec, p);
  }

  // ---------- the buckets

  type Buckets = seq<seq<Peer>>

  type Hash = EndPoint -> nat

  /** r is what remains of h after all multiples of n. */
  ghost predicate Lands(h: nat, n: nat, r: nat) {
    r < n && exists m: nat :: h == Multiple(m, n) + r
  }

  ghost function Multiple(m: nat, n: nat): nat { m * n }

  /** The bucket, of n, that the hash of the peer's end point lands in. */
  function Slot(hash: Hash, p: Peer, n: nat): (r: nat)
    requires n > 0
    ensures r < n && Lands(hash(p.EndPoint), n, r)
  {
    DivisionLands(hash(p.EndPoint), n);
    hash(p.EndPoint) % n
  }

  lemma DivisionLands(h: nat, n: nat)
    requires n > 0
    ensures Lands(h, n, h % n)
  {
    assert h == Multiple(h / n, n) + h % n;
  }

  /** A hash lands in one bucket only. */
  lemma LandsOnce(h: nat, n: nat, r: nat, r': nat)
    requires Lands(h, n, r) && Lands(h, n, r')
    ensures r == r'
  {
    var m: nat :| h == Multiple(m, n) + r;
    var m': nat :| h == Multiple(m', n) + r';
    DivUnique(h, n, m, r);
    DivUnique(h, n, m', r');
  }

  lemma SlotIs(hash: Hash, p: Peer, m: nat, n: nat, r: nat)
    requires r < n && hash(p.EndPoint) == m * n + r
    ensures Slot(hash, p, n) == r
  {
    hide Slot;
    assert hash(p.EndPoint) == Multiple(m, n) + r;
    LandsOnce(hash(p.EndPoint), n, r, Slot(hash, p, n));
  }

  lemma OnlySlot(hash: Hash, p: Peer, n: nat)
    requires n > 0
    ensures forall r: nat | Lands(hash(p.EndPoint), n, r) :: r == Slot(hash, p, n)
  {
    hide Slot, Lands;
    forall r: nat | Lands(hash(p.EndPoint), n, r) ensures r == Slot(hash, p, n) {
      LandsOnce(hash(p.EndPoint), n, r, Slot(hash, p, n));
    }
  }

  /** Every peer in a bucket is indexed and stands in the bucket of its hash, once. */
  ghost predicate Slotted(bs: Buckets, hash: Hash, ips: Index) {
    |bs| > 0 && forall b | 0 <= b < |bs| :: InSlot(bs[b], b, |bs|, hash, ips)
  }

  ghost predicate InSlot(bucket: seq<Peer>, b: nat, n: nat, hash: Hash, ips: Index)
    requires n > 0
  {
    NoDup(bucket) && forall p <- bucket :: Indexed(ips, p) && Slot(hash, p, n) == b
  }

  ghost predicate Contains(bs: Buckets, p: Peer) {
    exists b | 0 <= b < |bs| :: p in bs[b]
  }

  /** A peer is in some bucket exactly if it is in the bucket of its hash. */
  lemma ContainsInSlot(bs: Buckets, hash: Hash, ips: Index, p: Peer)
    requires Slotted(bs, hash, ips)
    ensures Contains(bs, p) <==> p in bs[Slot(hash, p, |bs|)]
  {}

  lemma SlottedAfterRemove(bs: Buckets, hash: Hash, ips: Index, b: nat, p: Peer)
    requires Slotted(bs, hash, ips) && b < |bs|
    ensures Slotted(bs[b := Without(bs[b], p)], hash, ips)
  {
    WithoutNoDup(bs[b], p);
  }

  lemma SlottedAfterAppend(bs: Buckets, hash: Hash, ips: Index, p: Peer)
    requires Slotted(bs, hash, ips) && Indexed(ips, p) && !Contains(bs, p)
    ensures var b := Slot(hash, p, |bs|); Slotted(bs[b := bs[b] + [p]], hash, ips)
  {
    var b := Slot(hash, p, |bs|);
    assert p !in bs[b];
    AppendNoDup(bs[b], p);
  }

  /** A peer that is in no bucket can leave the index. */
  lemma SlottedAfterUnindex(bs: Buckets, hash: Hash, ips: Index, p: Peer)
    requires Slotted(bs, hash, ips) && Indexed(ips, p) && !Contains(bs, p)
    ensures Slotted(bs, hash, ips - {p.EndPoint.address})
  {
    forall b | 0 <= b < |bs| ensures InSlot(bs[b], b, |bs|, hash, ips - {p.EndPoint.address}) {
      assert p !in bs[b];
    }
  }

  lemma SlottedAfterIndex(bs: Buckets, hash: Hash, ips: Index, p: Peer)
    requires Slotted(bs, hash, ips) && p.EndPoint.address !in ips
    ensures Slotted(bs, hash, ips[p.EndPoint.address := p]) && !Contains(bs, p)
  {
    forall b | 0 <= b < |bs| ensures InSlot(bs[b], b, |bs|, hash, ips[p.EndPoint.address := p]) && p !in bs[b] {
    }
  }

  /** What removing a peer from every bucket leaves. */
  function RemovedEverywhere(bs: Buckets, p: Peer): (r: Buckets)
    ensures |r| == |bs|
  {
    seq(|bs|, b requires 0 <= b < |bs| => Without(bs[b], p))
  }

  lemma SlottedAfterRemovals(bs: Buckets, hash: Hash, ips: Index, p: Peer)
    requires Slotted(bs, hash, ips)
    ensures var r := RemovedEverywhere(bs, p); Slotted(r, hash, ips) && !Contains(r, p)
    ensures var b := Slot(hash, p, |bs|); RemovedEverywhere(bs, p) == bs[b := Without(bs[b], p)]
  {
    forall b | 0 <= b < |bs| ensures InSlot(Without(bs[b], p), b, |bs|, hash, ips) {
      WithoutNoDup(bs[b], p);
    }
  }

  ghost predicate Apart(s: Buckets, t: Buckets) {
    forall b, c, p | 0 <= b < |s| && 0 <= c < |t| && p in s[b] :: p !in t[c]
  }

  // ---------- the whole state

  const TRIED_BUCKET_COUNT: nat := 64
  const TRIED_BUCKET_SIZE: nat := 64
  const NEW_BUCKET_COUNT: nat := 256
  const NEW_BUCKET_SIZE: nat := 64

  /** What every operation of the manager keeps. */
  ghost predicate Consistent(hash: Hash, ips: Index, vec: seq<Peer>, tried: Buckets, young: Buckets) {
    && |tried| == TRIED_BUCKET_COUNT && |young| == NEW_BUCKET_COUNT
    && Listed(ips, vec)
    && Slotted(tried, hash, ips)
    && Slotted(young, hash, ips)
    && Apart(tried, young)
    && (forall b | 0 <= b < TRIED_BUCKET_COUNT :: |tried[b]| <= TRIED_BUCKET_SIZE)
  }

  datatype Files = Files(ips: Index, vec: seq<Peer>, young: Buckets)

  /** A new peer in the index and at the end of the vector. */
  function AfterCreation(f: Files, p: Peer): Files {
    f.(ips := f.ips[p.EndPoint.address := p], vec := f.vec + [p])
  }

  /** A peer in its new bucket b, from which v, if there is one, had to go. */
  function AfterPlace(f: Files, b: nat, p: Peer, v: Peer?): Files
    requires b < |f.young|
  {
    var bucket := f.young[b];
    if p in bucket then f
    else if v == null then f.(young := f.young[b := bucket + [p]])
    else Files(f.ips - {v.EndPoint.address}, Without(f.vec, v), f.young[b := Without(bucket, v) + [p]])
  }

  /** No bucket is longer than it was, unless it has at most 64 peers. */
  ghost predicate NotGrown(s: Buckets, t: Buckets) {
    |s| == |t| && forall c | 0 <= c < |s| :: |t[c]| <= Max(|s[c]|, 64)
  }

  lemma PlacingBounds(f: Files, b: nat, p: Peer, v: Peer?)
    requires b < |f.young| && NoDup(f.young[b])
    requires p !in f.young[b] ==> if |f.young[b]| < NEW_BUCKET_SIZE then v == null else v != null && v in f.young[b]
    ensures NotGrown(f.young, AfterPlace(f, b, p, v).young)
  {
    if v != null && p !in f.young[b] {
      WithoutNoDup(f.young[b], v);
    }
  }

  /** A good peer is in the tried buckets afterwards exactly if it was there or its bucket had room;
      otherwise it is in no bucket at all. */
  lemma WhereGoodPeersGo(tried: Buckets, young: Buckets, t: nat, n: nat, p: Peer, o: Peer)
    requires t < |tried| && n < |young| && !Contains(tried, p)
    ensures Contains(tried[t := tried[t] + [p]], p)
    ensures var rest := RemovedEverywhere(young, p);
            o in tried[t] ==> !Contains(tried[t := Without(tried[t], o)], p) && !Contains(rest[n := rest[n] + [o]], p)
  {
    var s := tried[t := tried[t] + [p]];
    assert p in s[t];
  }

  /** A peer of a new bucket leaves the bucket and the index. */
  lemma AfterEviction(hash: Hash, ips: Index, vec: seq<Peer>, tried: Buckets, young: Buckets, b: nat, v: Peer)
    requires Consistent(hash, ips, vec, tried, young) && b < NEW_BUCKET_COUNT && v in young[b]
    ensures Consistent(hash, ips - {v.EndPoint.address}, Without(vec, v), tried, young[b := Without(young[b], v)])
  {
    hide Slotted, Listed;
    assert Indexed(ips, v) by { InSlotOf(young, hash, ips, b, v); }
    ListedAfterRemove(ips, vec, v);
    SlottedAfterUnindex(tried, hash, ips, v);
    SlottedAfterRemove(young, hash, ips, b, v);
    OnceRemoved(young, hash, ips, b, v);
    SlottedAfterUnindex(young[b := Without(young[b], v)], hash, ips, v);
  }

  lemma InSlotOf(bs: Buckets, hash: Hash, ips: Index, b: nat, p: Peer)
    requires Slotted(bs, hash, ips) && b < |bs| && p in bs[b]
    ensures Indexed(ips, p) && Slot(hash, p, |bs|) == b && NoDup(bs[b])
  {}

  lemma OnceRemoved(bs: Buckets, hash: Hash, ips: Index, b: nat, p: Peer)
    requires Slotted(bs, hash, ips) && b < |bs| && p in bs[b]
    ensures !Contains(bs[b := Without(bs[b], p)], p)
  {}

  /** An indexed peer that is in no bucket goes to its new bucket. */
  lemma AfterPlacing(hash: Hash, ips: Index, vec: seq<Peer>, tried: Buckets, young: Buckets, p: Peer)
    requires Consistent(hash, ips, vec, tried, young) && Indexed(ips, p) && !Contains(tried, p) && !Contains(young, p)
    ensures var b := Slot(hash, p, NEW_BUCKET_COUNT);
            Consistent(hash, ips, vec, tried, young[b := young[b] + [p]])
  {
    hide Slotted, Listed, Slot;
    SlottedAfterAppend(young, hash, ips, p);
  }

  /** The same for its tried bucket, where there is room; filing a peer that is not indexed spoils the state. */
  lemma AfterEntering(hash: Hash, ips: Index, vec: seq<Peer>, tried: Buckets, young: Buckets, p: Peer)
    requires Consistent(hash, ips, vec, tried, young) && !Contains(tried, p) && !Contains(young, p)
    requires |tried[Slot(hash, p, TRIED_BUCKET_COUNT)]| < TRIED_BUCKET_SIZE
    ensures var b := Slot(hash, p, TRIED_BUCKET_COUNT);
            Consistent(hash, ips, vec, tried[b := tried[b] + [p]], young) <==> Indexed(ips, p)
  {
    hide Slotted, Listed, Slot, Indexed;
    var b := Slot(hash, p, TRIED_BUCKET_COUNT);
    if Indexed(ips, p) {
      SlottedAfterAppend(tried, hash, ips, p);
    } else if Slotted(tried[b := tried[b] + [p]], hash, ips) {
      assert p in tried[b := tried[b] + [p]][b];
      InSlotOf(tried[b := tried[b] + [p]], hash, ips, b, p);
    }
  }

  lemma AfterForgetting(hash: Hash, ips: Index, vec: seq<Peer>, tried: Buckets, young: Buckets, p: Peer)
    requires Consistent(hash, ips, vec, tried, young)
    ensures var r := RemovedEverywhere(young, p); Consistent(hash, ips, vec, tried, r) && !Contains(r, p)
  {
    hide Slotted, Listed;
    SlottedAfterRemovals(young, hash, ips, p);
  }

  /** A peer of a tried bucket moves to its new bucket. */
  lemma AfterDemotion(hash: Hash, ips: Index, vec: seq<Peer>, tried: Buckets, young: Buckets, t: nat, o: Peer)
    requires Consistent(hash, ips, vec, tried, young) && t < TRIED_BUCKET_COUNT && o in tried[t]
    ensures var n := Slot(hash, o, NEW_BUCKET_COUNT);
            Consistent(hash, ips, vec, tried[t := Without(tried[t], o)], young[n := young[n] + [o]])
  {
    hide Listed, Slotted, Slot;
    InSlotOf(tried, hash, ips, t, o);
    SlottedAfterRemove(tried, hash, ips, t, o);
    OnceRemoved(tried, hash, ips, t, o);
    WithoutNoDup(tried[t], o);
    SlottedAfterAppend(young, hash, ips, o);
  }

  /** A peer at an address that was not known joins the index and the vector. */
  lemma AfterIndexing(hash: Hash, ips: Index, vec: seq<Peer>, tried: Buckets, young: Buckets, p: Peer)
    requires Consistent(hash, ips, vec, tried, young) && p.EndPoint.address !in ips
    ensures Consistent(hash, ips[p.EndPoint.address := p], vec + [p], tried, young)
    ensures !Contains(tried, p) && !Contains(young, p)
  {
    hide Slotted, Listed;
    ListedAfterInsert(ips, vec, p);
    SlottedAfterIndex(tried, hash, ips, p);
    SlottedAfterIndex(young, hash, ips, p);
  }
}
