/** The arithmetic `NewNode` (node.go) does before it starts the event loop: the replica id
    list, the public-key table, the local replica index and the verifier threshold. */
module NodeSetup {
  import opened Encoding
  import opened Crypto

  /** A configured replica: its public key, which is also its identity, and its address. */
  datatype Replica<K> = Replica(id: K, ip: seq<int>)

  /** The node configuration: tick interval, the local identity and the replica table. */
  datatype Config<K> = Config(interval: nat, id: K, replicas: seq<Replica<K>>)

  /** What `NewNode` hands to the consensus engine. */
  datatype Setup<K> = Setup(verifier: Verifier<K>, rid: nat, ids: seq<nat>)

  /** `2*len(pubs)/3 + 1` with Go's integer division on a non-negative length. */
  function Threshold(n: nat): nat
  {
    2 * n / 3 + 1
  }

  /** The loop of `NewNode`: ids `0..n-1`, keys in table order, and the local index taken
      as the LAST replica whose key equals the configured identity, or 0 if none does. */
  method NewNode<K(==)>(conf: Config<K>) returns (s: Setup<K>)
    ensures s.ids == seq(|conf.replicas|, i => i)
    ensures |s.verifier.pubkeys| == |conf.replicas|
    ensures forall i :: 0 <= i < |conf.replicas| ==> s.verifier.pubkeys[i] == conf.replicas[i].id
    ensures s.verifier.threshold == Threshold(|conf.replicas|)
    ensures (exists i :: 0 <= i < |conf.replicas| && conf.replicas[i].id == conf.id) ==>
      (s.rid < |conf.replicas| && conf.replicas[s.rid].id == conf.id
       && forall j :: s.rid < j < |conf.replicas| ==> conf.replicas[j].id != conf.id)
    ensures (forall i :: 0 <= i < |conf.replicas| ==> conf.replicas[i].id != conf.id) ==> s.rid == 0
  {
    var replicas := conf.replicas;
    var pubs: seq<K> := [];
    var ids: seq<nat> := [];
    var rid: nat := 0;
    var found := false;
    var i := 0;
    while i < |replicas|
      invariant 0 <= i <= |replicas|
      invariant ids == seq(i, k => k)
      invariant |pubs| == i && forall k :: 0 <= k < i ==> pubs[k] == replicas[k].id
      invariant found <==> exists k :: 0 <= k < i && replicas[k].id == conf.id
      invariant found ==> (rid < i && replicas[rid].id == conf.id
        && forall j :: rid < j < i ==> replicas[j].id != conf.id)
      invariant !found ==> rid == 0
    {
      var id := i;
      ids := ids + [id];
      pubs := pubs + [replicas[i].id];
      if conf.id == replicas[i].id {
        rid := id;
        found := true;
      }
      i := i + 1;
    }
    s := Setup(Verifier(Threshold(|pubs|), pubs), rid, ids);
  }

  /** With four replicas the threshold is three. */
  lemma FourReplicasNeedThree()
    ensures Threshold(4) == 3
  {
  }

  /** The threshold is a strict two-thirds majority of the replicas and, for at least one
      replica, never more than all of them. */
  lemma ThresholdIsTwoThirdsMajority(n: nat)
    ensures 3 * Threshold(n) > 2 * n
    ensures n >= 1 ==> Threshold(n) <= n
  {
  }

  /** A set of indices below `n` has at most `n` members. */
  lemma {:induction false} SubsetSize(a: set<nat>, n: nat)
    requires forall x :: x in a ==> x < n
    ensures |a| <= n
  {
    if n > 0 {
      var a' := a - {n - 1};
      SubsetSize(a', n - 1);
      if n - 1 in a {
        assert a == a' + {n - 1};
      } else {
        assert a == a';
      }
    } else {
      assert a == {};
    }
  }

  /** Two sets of at least `Threshold(n)` replicas out of `n` share more than `n / 3`
      replicas, more than the `(n - 1) / 3` faulty ones a BFT system of `n` tolerates. */
  lemma QuorumsIntersect(n: nat, a: set<nat>, b: set<nat>)
    requires forall x :: x in a ==> x < n
    requires forall x :: x in b ==> x < n
    requires |a| >= Threshold(n) && |b| >= Threshold(n)
    ensures |a * b| >= n / 3 + 1
    ensures |a * b| > (n - 1) / 3
  {
    SubsetSize(a + b, n);
    assert |a + b| + |a * b| == |a| + |b| by {
      assert a + b == a + (b - a);
      assert b == (b - a) + (a * b);
      assert (b - a) * (a * b) == {};
    }
  }

  /** Two certificates accepted by a verifier set up as `NewNode` sets it up, with the
      duplicate check of `VerifyQuorum`, have more than `(n - 1) / 3` voters in common. */
  lemma AcceptedCertificatesIntersect<P, K>(c: Bls<P, K>, v: Verifier<K>, m1: Bytes, x: AggregatedSignature,
                                            m2: Bytes, y: AggregatedSignature)
    requires v.threshold == Threshold(|v.pubkeys|)
    requires VerifyQuorum(c, v, m1, x) && VerifyQuorum(c, v, m2, y)
    ensures |VoterSet(x.voters) * VoterSet(y.voters)| > (|v.pubkeys| - 1) / 3
  {
    QuorumsIntersect(|v.pubkeys|, VoterSet(x.voters), VoterSet(y.voters));
  }

  /** Without the duplicate check the intersection fails: with four replicas the
      certificates naming replica 0 three times and replica 1 three times both pass the
      threshold gate and the range check of `VerifyAggregated`, yet share no voter. */
  lemma RepeatedVoterCertificatesNeedNotIntersect()
    ensures var x: seq<U64>, y: seq<U64> := [0, 0, 0], [1, 1, 1];
      && |x| >= Threshold(4) && |y| >= Threshold(4)
      && AllKnown(x, 4) && AllKnown(y, 4)
      && VoterSet(x) * VoterSet(y) == {}
  {
    var x: seq<U64>, y: seq<U64> := [0, 0, 0], [1, 1, 1];
    assert forall e :: e in VoterSet(x) ==> e == 0;
    assert forall e :: e in VoterSet(y) ==> e == 1;
  }
}
