/** The address manager: a state machine over the peer index, the vector of peers, and the tried and new buckets. */
module PeerManagers {
  import opened ByteBuffers
  import opened Numbers
  import opened PeerBuckets
  import opened Sequences

  class PeerManager {
    const hash: Hash
    var IpToPeer: Index
    var VecRandom: seq<Peer>
    var TriedBuckets: Buckets
    var NewBuckets: Buckets
    var aPeersDirty: bool

    ghost predicate Valid()
      reads this
    {
      Consistent(hash, IpToPeer, VecRandom, TriedBuckets, NewBuckets)
    }

    constructor (hash: Hash)
      ensures Valid() && IpToPeer == map[] && VecRandom == [] && this.hash == hash
      ensures |TriedBuckets| == 64 && forall b | 0 <= b < 64 :: TriedBuckets[b] == []
      ensures |NewBuckets| == 256 && forall b | 0 <= b < 256 :: NewBuckets[b] == []
    {
      this.hash, IpToPeer, VecRandom, aPeersDirty := hash, map[], [], false;
      TriedBuckets, NewBuckets := seq(TRIED_BUCKET_COUNT, _ => []), seq(NEW_BUCKET_COUNT, _ => []);
    }

    /** The parts of the state that adding a peer changes. */
    ghost function Filed(): Files
      reads this
    {
      Files(IpToPeer, VecRandom, NewBuckets)
    }

    function Find(ip: seq<bv8>): Peer?
      reads this
    {
      if ip in IpToPeer then IpToPeer[ip] else null
    }

    /** PeerBuckets::Contains: the search through all buckets of one kind. */
    method ContainsIn(bs: Buckets, peer: Peer) returns (r: bool)
      ensures r <==> Contains(bs, peer)
    {
      var i := 0;
      while i < |bs|
        invariant 0 <= i <= |bs| && forall b | 0 <= b < i :: peer !in bs[b]
      {
        if peer in bs[i] {
          return true;
        }
        i := i + 1;
      }
      return false;
    }

    method Remove(peer: Peer)
      modifies this`IpToPeer, this`VecRandom
      ensures IpToPeer == old(IpToPeer) - {peer.EndPoint.address} && VecRandom == Without(old(VecRandom), peer)
    {
      IpToPeer := IpToPeer - {peer.EndPoint.address};
      VecRandom := Without(VecRandom, peer);
    }

    /** PeerBucket::Shrink on a new bucket: the victim leaves the bucket, the index and the vector. */
    method Shrink(b: nat, now: int)
      requires Valid() && b < NEW_BUCKET_COUNT && NewBuckets[b] != []
      modifies this`IpToPeer, this`VecRandom, this`NewBuckets
      ensures Valid()
      ensures var v := old(Victim(NewBuckets[b], now));
              && NewBuckets == old(NewBuckets)[b := Without(old(NewBuckets[b]), v)]
              && IpToPeer == old(IpToPeer) - {v.EndPoint.address} && VecRandom == Without(old(VecRandom), v)
    {
      hide Consistent, Without, Victim;
      BucketNoDup(b);
      var peers := NewBuckets[b];
      ghost var v := Victim(peers, now);
      VictimIs(peers, now);
      AfterEviction(hash, IpToPeer, VecRandom, TriedBuckets, NewBuckets, b, v);
      var oldest: Peer? := null;
      var i := 0;
      while i < |peers|
        invariant 0 <= i <= |peers| && FirstTerrible(peers[..i], now) == i
        invariant if i == 0 then oldest == null else oldest == Oldest(peers[..i])
      {
        var peer := peers[i];
        assert peers[..i + 1][..i] == peers[..i];
        if peer.IsTerrible(now) {
          FirstTerribleAt(peers, now, i);
          Remove(peer);
          assert peer == v;
          WithoutAt(peers, i);
          NewBuckets := NewBuckets[b := peers[..i] + peers[i + 1..]];
          return;
        }
        if oldest == null || peer.LastPersistent < oldest.LastPersistent {
          oldest := peer;
        }
        i := i + 1;
      }
      assert peers[..i] == peers;
      Remove(oldest);
      NewBuckets := NewBuckets[b := Without(peers, oldest)];
    }

    /** A connection attempt is noted on the peer alone; the rest of the peer stays as it was. */
    method Attempt(peer: Peer, now: int)
      modifies peer`LastTry, peer`IsDirty, peer`Attempts
      ensures peer.LastTry == now && peer.IsDirty && peer.Attempts == old(peer.Attempts) + 1
    {
      peer.LastTry := now;
      peer.IsDirty := true;
      peer.Attempts := peer.Attempts + 1;
    }

    /** A peer has answered. It moves from the new to the tried buckets, unless its tried bucket is full:
        then the oldest peer of that bucket moves to the new buckets, and this one ends up in no bucket.
        A peer that has left the index meanwhile is filed all the same if there is room, and spoils the state. */
    method Good(peer: Peer, now: int)
      requires Valid()
      modifies this`TriedBuckets, this`NewBuckets, peer`LastTry, peer`LastLive, peer`LastPersistent, peer`Attempts, peer`IsDirty
      ensures peer.LastTry == peer.LastLive == peer.LastPersistent == now && peer.Attempts == 0
      ensures forall t: nat | Lands(hash(peer.EndPoint), 64, t) ::
              (Valid() <==> Indexed(IpToPeer, peer) || old(|TriedBuckets[t]|) >= 64)
      ensures forall t: nat | Lands(hash(peer.EndPoint), 64, t) ::
              if old(Contains(TriedBuckets, peer)) then TriedBuckets == old(TriedBuckets) && NewBuckets == old(NewBuckets)
              else if old(|TriedBuckets[t]|) < 64 then
                && TriedBuckets == old(TriedBuckets)[t := old(TriedBuckets[t]) + [peer]]
                && NewBuckets == RemovedEverywhere(old(NewBuckets), peer)
              else
                && old(TriedBuckets[t]) != []
                && var o := old(Oldest(TriedBuckets[t]));
                   && TriedBuckets == old(TriedBuckets)[t := Without(old(TriedBuckets[t]), o)]
                   && forall n: nat | Lands(hash(o.EndPoint), 256, n) ::
                        var rest := RemovedEverywhere(old(NewBuckets), peer); NewBuckets == rest[n := rest[n] + [o]]
      ensures forall t: nat | Lands(hash(peer.EndPoint), 64, t) ::
              (Contains(TriedBuckets, peer) <==> old(Contains(TriedBuckets, peer)) || old(|TriedBuckets[t]|) < 64)
      ensures !Contains(TriedBuckets, peer) ==> !Contains(NewBuckets, peer)
    {
      hide Valid, Slot, Lands, RemovedEverywhere, Without, Contains, Oldest, Indexed;
      OnlySlot(hash, peer, TRIED_BUCKET_COUNT);
      peer.LastTry, peer.LastLive, peer.LastPersistent := now, now, now;
      peer.Attempts := 0;
      peer.IsDirty := true;
      var tried := ContainsIn(TriedBuckets, peer);
      TriedIsIndexed(peer);
      if !tried {
        BucketsFit();
        Forget(peer);
        var t := Slot(hash, peer, |TriedBuckets|);
        var bucket := TriedBuckets[t];
        InNoBucket(TriedBuckets, peer, t);
        if |bucket| < TRIED_BUCKET_SIZE {
          WhereGoodPeersGo(TriedBuckets, old(NewBuckets), t, 0, peer, peer);
          Enter(t, peer);
          return;
        }
        var oldest := OldestIn(bucket);
        OnlySlot(hash, oldest, NEW_BUCKET_COUNT);
        WhereGoodPeersGo(TriedBuckets, old(NewBuckets), t, Slot(hash, oldest, NEW_BUCKET_COUNT), peer, oldest);
        Demote(t, oldest);
      }
    }

    lemma BucketsFit()
      requires Valid()
      ensures |TriedBuckets| == TRIED_BUCKET_COUNT && |NewBuckets| == NEW_BUCKET_COUNT
    {}

    lemma NewIsNotTried(b: nat, p: Peer)
      requires Valid() && b < NEW_BUCKET_COUNT && |NewBuckets| == NEW_BUCKET_COUNT && p in NewBuckets[b]
      ensures !Contains(TriedBuckets, p)
    {}

    lemma TriedIsIndexed(p: Peer)
      requires Valid()
      ensures |TriedBuckets| == TRIED_BUCKET_COUNT && (Contains(TriedBuckets, p) ==> Indexed(IpToPeer, p))
    {}

    lemma BucketNoDup(b: nat)
      requires Valid() && b < NEW_BUCKET_COUNT
      ensures |NewBuckets| == NEW_BUCKET_COUNT && NoDup(NewBuckets[b])
    {}

    /** A peer leaves whatever new bucket it is in. */
    method Forget(peer: Peer)
      requires Valid()
      modifies this`NewBuckets
      ensures Valid() && NewBuckets == RemovedEverywhere(old(NewBuckets), peer) && !Contains(NewBuckets, peer)
    {
      hide Consistent, Contains, Without;
      var i := 0;
      ghost var before := NewBuckets;
      AfterForgetting(hash, IpToPeer, VecRandom, TriedBuckets, NewBuckets, peer);
      while i < |NewBuckets|
        invariant 0 <= i <= |NewBuckets| == |before|
        invariant forall b | 0 <= b < |before| :: NewBuckets[b] == if b < i then Without(before[b], peer) else before[b]
      {
        NewBuckets := NewBuckets[i := Without(NewBuckets[i], peer)];
        i := i + 1;
      }
      assert NewBuckets == RemovedEverywhere(before, peer);
    }

    /** A peer that is in no bucket goes to its tried bucket. */
    method Enter(t: nat, peer: Peer)
      requires Valid() && !Contains(TriedBuckets, peer) && !Contains(NewBuckets, peer)
      requires |TriedBuckets| == TRIED_BUCKET_COUNT && t == Slot(hash, peer, TRIED_BUCKET_COUNT)
      requires |TriedBuckets[t]| < TRIED_BUCKET_SIZE
      modifies this`TriedBuckets
      ensures Valid() <==> Indexed(IpToPeer, peer)
      ensures TriedBuckets == old(TriedBuckets)[t := old(TriedBuckets[t]) + [peer]]
    {
      hide Consistent, Slot;
      AfterEntering(hash, IpToPeer, VecRandom, TriedBuckets, NewBuckets, peer);
      TriedBuckets := TriedBuckets[t := TriedBuckets[t] + [peer]];
    }

    /** The oldest peer of a tried bucket goes to the new bucket of its hash, however full that is. */
    method Demote(t: nat, oldest: Peer)
      requires Valid() && t < TRIED_BUCKET_COUNT && oldest in TriedBuckets[t]
      modifies this`TriedBuckets, this`NewBuckets
      ensures Valid()
      ensures TriedBuckets == old(TriedBuckets)[t := Without(old(TriedBuckets[t]), oldest)]
      ensures var n := Slot(hash, oldest, NEW_BUCKET_COUNT);
              NewBuckets == old(NewBuckets)[n := old(NewBuckets[n]) + [oldest]]
    {
      hide Consistent, Slot, Without;
      BucketsFit();
      AfterDemotion(hash, IpToPeer, VecRandom, TriedBuckets, NewBuckets, t, oldest);
      TriedBuckets := TriedBuckets[t := Without(TriedBuckets[t], oldest)];
      var n := Slot(hash, oldest, |NewBuckets|);
      NewBuckets := NewBuckets[n := NewBuckets[n] + [oldest]];
    }

    /** The second half of Add: a peer that is not tried goes to its new bucket, if it is not there yet;
        a full bucket first gives up its victim v. */
    method Place(peer: Peer, now: int, ghost v: Peer?)
      requires Valid() && Indexed(IpToPeer, peer) && !Contains(TriedBuckets, peer) && |NewBuckets| == NEW_BUCKET_COUNT
      requires var bucket := NewBuckets[Slot(hash, peer, NEW_BUCKET_COUNT)];
               peer !in bucket ==> v == Evicted(bucket, now)
      modifies this`IpToPeer, this`VecRandom, this`NewBuckets
      ensures Valid() && Indexed(IpToPeer, peer)
      ensures Filed() == AfterPlace(old(Filed()), Slot(hash, peer, NEW_BUCKET_COUNT), peer, v)
      ensures NotGrown(old(NewBuckets), NewBuckets)
    {
      hide Consistent, Slot, Contains, Victim, NotGrown;
      BucketNoDup(Slot(hash, peer, NEW_BUCKET_COUNT));
      PlacingBounds(Filed(), Slot(hash, peer, NEW_BUCKET_COUNT), peer, v);
      var b := Slot(hash, peer, |NewBuckets|);
      if peer !in NewBuckets[b] {
        NotContained(hash, IpToPeer, VecRandom, TriedBuckets, NewBuckets, peer);
        if |NewBuckets[b]| >= NEW_BUCKET_SIZE {
          OthersStay(hash, IpToPeer, VecRandom, TriedBuckets, NewBuckets, b, v, peer);
          Shrink(b, now);
        }
        AfterPlacing(hash, IpToPeer, VecRandom, TriedBuckets, NewBuckets, peer);
        NewBuckets := NewBuckets[b := NewBuckets[b] + [peer]];
      }
    }

    /** What Add does to a peer it knows. */
    method Refresh(peer: Peer, services: bv64, dt: int, penalty: int)
      modifies peer
      ensures peer.Services == WithServices(old(peer.Services), services)
      ensures peer.LastPersistent == if dt != 0 then Max(0, dt - penalty) else old(peer.LastPersistent)
    {
      if dt != 0 {
        peer.LastPersistent := Max(0, dt - penalty);
      }
      peer.Services := WithServices(peer.Services, services);
      peer.IsDirty := true;
    }

    /** Add for an address that is in the index. */
    method AddKnown(peer: Peer, ghost address: seq<bv8>, services: bv64, dt: int, penalty: int, now: int) returns (r: Peer?)
      requires Valid() && Find(address) == peer
      modifies this`IpToPeer, this`VecRandom, this`NewBuckets, peer
      ensures Valid() && |old(NewBuckets)| == NEW_BUCKET_COUNT && NotGrown(old(NewBuckets), NewBuckets)
      ensures peer.Services == WithServices(old(peer.Services), services)
      ensures peer.LastPersistent == if dt != 0 then Max(0, dt - penalty) else old(peer.LastPersistent)
      ensures if old(Contains(TriedBuckets, peer)) then r == null && Filed() == old(Filed())
              else
                && r == peer && r.IsDirty && Indexed(IpToPeer, r)
                && var b := Slot(hash, r, NEW_BUCKET_COUNT);
                   Filed() == AfterPlace(old(Filed()), b, r, old(Evicted(NewBuckets[b], now)))
    {
      hide Consistent, Slot, Contains, Evicted, AfterPlace, WithServices, NotGrown;
      BucketsFit();
      FiledUnder(hash, IpToPeer, VecRandom, TriedBuckets, NewBuckets, address);
      ghost var b := Slot(hash, peer, NEW_BUCKET_COUNT);
      ghost var v := Evicted(NewBuckets[b], now);
      Refresh(peer, services, dt, penalty);
      var tried := ContainsIn(TriedBuckets, peer);
      NotGrownSame(NewBuckets);
      if tried {
        return null;
      }
      Place(peer, now, v);
      peer.IsDirty := true;
      r := peer;
    }

    /** Add for an address that is new. */
    method AddUnknown(ep: EndPoint, services: bv64, dt: int, penalty: int, now: int) returns (r: Peer)
      requires Valid() && ep.address !in IpToPeer
      modifies this`IpToPeer, this`VecRandom, this`NewBuckets
      ensures Valid() && |old(NewBuckets)| == NEW_BUCKET_COUNT && NotGrown(old(NewBuckets), NewBuckets)
      ensures fresh(r) && r.EndPoint == ep && r.Services == services && r.LastPersistent == Max(0, dt - penalty)
      ensures r.IsDirty && Indexed(IpToPeer, r)
      ensures var b := Slot(hash, r, NEW_BUCKET_COUNT);
              Filed() == AfterPlace(AfterCreation(old(Filed()), r), b, r, old(Evicted(NewBuckets[b], now)))
    {
      hide Consistent, Slot, Contains, Evicted, AfterPlace, WithServices, NotGrown;
      BucketsFit();
      r := new Peer(ep, services, Max(0, dt - penalty));
      AfterIndexing(hash, IpToPeer, VecRandom, TriedBuckets, NewBuckets, r);
      IpToPeer := IpToPeer[ep.address := r];
      VecRandom := VecRandom + [r];
      ghost var b := Slot(hash, r, NEW_BUCKET_COUNT);
      Place(r, now, Evicted(NewBuckets[b], now));
      r.IsDirty := true;
    }

    /** Add: rejected addresses change nothing; a known peer is refreshed, an unknown one is created;
        whoever is not tried ends up in its new bucket, and a tried peer is not returned. */
    method Add(ep: EndPoint, services: bv64, dt: int, penalty: int, requireRoutable: bool,
               routable: bool, banned: bool, now: int)
      returns (r: Peer?)
      requires Valid()
      modifies this`IpToPeer, this`VecRandom, this`NewBuckets, this`aPeersDirty
      modifies if Find(ep.address) == null then {} else {Find(ep.address)}
      ensures Valid() && |old(NewBuckets)| == 256 && NotGrown(old(NewBuckets), NewBuckets)
      ensures var found := old(Find(ep.address));
              if (requireRoutable && !routable) || banned then
                r == null && unchanged(this) && (found != null ==> unchanged(found))
              else
                && aPeersDirty
                && (found != null ==>
                      && found.Services == WithServices(old(found.Services), services)
                      && found.LastPersistent == (if dt != 0 then Max(0, dt - penalty) else old(found.LastPersistent)))
                && if found != null && old(Contains(TriedBuckets, found)) then
                     r == null && Filed() == old(Filed())
                   else
                     && r != null && r.IsDirty && Indexed(IpToPeer, r)
                     && (if found != null then r == found
                         else fresh(r) && r.EndPoint == ep && r.Services == services && r.LastPersistent == Max(0, dt - penalty))
                     && forall b: nat | Lands(hash(r.EndPoint), 256, b) ::
                          Filed() == AfterPlace(if found != null then old(Filed()) else AfterCreation(old(Filed()), r), b, r,
                                                old(Evicted(NewBuckets[b], now)))
    {
      hide Consistent, Slot, Lands, Contains, Evicted, AfterPlace, WithServices, NotGrown;
      BucketsFit();
      NotGrownSame(NewBuckets);
      if requireRoutable && !routable {
        return null;
      }
      if banned {
        return null;
      }
      aPeersDirty := true;
      var found := Find(ep.address);
      if found != null {
        r := AddKnown(found, ep.address, services, dt, penalty, now);
      } else {
        r := AddUnknown(ep, services, dt, penalty, now);
      }
      if r != null {
        OnlySlot(hash, r, NEW_BUCKET_COUNT);
      }
    }
  }

  /** The search for the peer that has gone longest without a sign of life. */
  method OldestIn(bucket: seq<Peer>) returns (oldest: Peer)
    requires bucket != []
    ensures oldest == Oldest(bucket)
  {
    var p: Peer? := null;
    var i := 0;
    while i < |bucket|
      invariant 0 <= i <= |bucket|
      invariant if i == 0 then p == null else p == Oldest(bucket[..i])
    {
      assert bucket[..i + 1][..i] == bucket[..i];
      if p == null || bucket[i].LastPersistent < p.LastPersistent {
        p := bucket[i];
      }
      i := i + 1;
    }
    assert bucket[..i] == bucket;
    oldest := p;
  }

  lemma FiledUnder(hash: Hash, ips: Index, vec: seq<Peer>, tried: Buckets, young: Buckets, a: seq<bv8>)
    requires Consistent(hash, ips, vec, tried, young) && a in ips
    ensures Indexed(ips, ips[a]) && ips[a].EndPoint.address == a
  {}

  lemma NotGrownSame(s: Buckets)
    ensures NotGrown(s, s)
  {}

  lemma NotContained(hash: Hash, ips: Index, vec: seq<Peer>, tried: Buckets, young: Buckets, p: Peer)
    requires Consistent(hash, ips, vec, tried, young) && p !in young[Slot(hash, p, NEW_BUCKET_COUNT)]
    ensures !Contains(young, p)
  {
    ContainsInSlot(young, hash, ips, p);
  }

  /** Evicting one peer leaves the others indexed. */
  lemma OthersStay(hash: Hash, ips: Index, vec: seq<Peer>, tried: Buckets, young: Buckets, b: nat, v: Peer, p: Peer)
    requires Consistent(hash, ips, vec, tried, young) && b < NEW_BUCKET_COUNT && v in young[b]
    requires Indexed(ips, p) && !Contains(young, p)
    ensures Indexed(ips - {v.EndPoint.address}, p) && !Contains(young[b := Without(young[b], v)], p)
  {
    InSlotOf(young, hash, ips, b, v);
  }

  lemma InNoBucket(bs: Buckets, p: Peer, b: nat)
    requires !Contains(bs, p) && b < |bs|
    ensures p !in bs[b]
  {}

  lemma FirstTerribleAt(s: seq<Peer>, now: int, i: nat)
    requires i < |s| && FirstTerrible(s[..i], now) == i && s[i].IsTerrible(now)
    ensures FirstTerrible(s, now) == i
  {
    assert forall j | 0 <= j < i :: s[..i][j] == s[j];
  }

  lemma VictimIs(s: seq<Peer>, now: int)
    requires s != []
    ensures var i := FirstTerrible(s, now); Victim(s, now) == if i < |s| then s[i] else Oldest(s)
  {}

  // ---------- where Good fails its name

  /** A manager whose hash puts everybody into one bucket, after `count` peers have been added and found good. */
  ghost predicate Crowded(m: PeerManager, count: nat)
    reads m
  {
    && m.Valid() && m.hash == (ep => 0) && count <= TRIED_BUCKET_SIZE
    && |m.TriedBuckets| == TRIED_BUCKET_COUNT && |m.NewBuckets| == NEW_BUCKET_COUNT
    && |m.TriedBuckets[0]| == count && m.NewBuckets[0] == []
    && forall a <- m.IpToPeer :: |a| == 1 && a[0] as int < count
  }

  /** Add puts one more peer into the new bucket that all peers share. */
  method AddOneMore(m: PeerManager, count: nat) returns (p: Peer)
    requires Crowded(m, count)
    modifies m
    ensures m.Valid() && m.hash == (ep => 0) && Indexed(m.IpToPeer, p) && fresh(p)
    ensures m.TriedBuckets == old(m.TriedBuckets) && |m.NewBuckets| == NEW_BUCKET_COUNT && m.NewBuckets[0] == [p]
    ensures !Contains(m.TriedBuckets, p)
    ensures forall a <- m.IpToPeer :: |a| == 1 && a[0] as int < count + 1
  {
    var ep := EndPoint([ByteOf(count)], 0);
    assert ep.address !in m.IpToPeer;
    var r := m.Add(ep, 0, 1, 0, false, true, false, 1);
    p := r;
    assert Slot(m.hash, p, NEW_BUCKET_COUNT) == 0;
    m.NewIsNotTried(0, p);
  }

  method AddGood(m: PeerManager, count: nat)
    requires Crowded(m, count) && count < TRIED_BUCKET_SIZE
    modifies m
    ensures Crowded(m, count + 1)
  {
    hide PeerManager.Valid, Contains, Oldest, Indexed;
    var p := AddOneMore(m, count);
    assert Slot(m.hash, p, TRIED_BUCKET_COUNT) == 0;
    m.Good(p, 1);
    assert Without([p], p) == [];
  }

  /** From the constructor: 64 peers added and found good, and one more added. Then Good takes that one's place away. */
  method GoodLosesPeer() returns (m: PeerManager, peer: Peer)
    ensures fresh(m) && m.Valid() && Indexed(m.IpToPeer, peer)
    ensures !Contains(m.TriedBuckets, peer) && !Contains(m.NewBuckets, peer)
  {
    m, peer := FullBucket();
    m.Good(peer, 1);
  }

  /** The state in which it happens: the peer is indexed and new, and its tried bucket is full. */
  method FullBucket() returns (m: PeerManager, peer: Peer)
    ensures fresh(m) && fresh(peer) && m.Valid() && Indexed(m.IpToPeer, peer)
    ensures |m.TriedBuckets| == TRIED_BUCKET_COUNT && |m.TriedBuckets[Slot(m.hash, peer, TRIED_BUCKET_COUNT)]| == TRIED_BUCKET_SIZE
    ensures !Contains(m.TriedBuckets, peer) && Contains(m.NewBuckets, peer)
  {
    hide PeerManager.Valid, Contains, Indexed, Slot;
    m := new PeerManager(ep => 0);
    var i := 0;
    while i < TRIED_BUCKET_SIZE
      invariant 0 <= i <= TRIED_BUCKET_SIZE && fresh(m) && Crowded(m, i)
    {
      AddGood(m, i);
      i := i + 1;
    }
    peer := AddOneMore(m, i);
    InFirst(m, peer);
  }

  lemma InFirst(m: PeerManager, p: Peer)
    requires m.hash == (ep => 0) && |m.NewBuckets| > 0 && m.NewBuckets[0] == [p]
    ensures Contains(m.NewBuckets, p) && Slot(m.hash, p, TRIED_BUCKET_COUNT) == 0
  {
    assert p in m.NewBuckets[0];
  }

  /** A peer that the index does not know spoils the state. */
  method GoodFilesStranger() returns (m: PeerManager)
    ensures fresh(m) && !m.Valid()
  {
    m := new PeerManager(ep => 0);
    var stranger := new Peer(EndPoint([0], 0), 0, 1);
    assert Slot(m.hash, stranger, TRIED_BUCKET_COUNT) == 0;
    m.Good(stranger, 1);
  }
}
