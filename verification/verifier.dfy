/** The BLS12-381 threshold-signature verifier (crypto/verifier.go): range checks on replica
    indices, the quorum threshold gate, voter de-duplication and the append-only voter list
    of an aggregated signature. The curve arithmetic itself is not modelled: decompression,
    compression, point addition and the two verification predicates are supplied as
    uninterpreted functions in a `Bls` record. */
module Crypto {
  import opened Wrappers
  import opened Encoding

  type Bytes = seq<Byte>

  /** The curve operations the verifier calls, as opaque functions over an abstract point
      type `P` (a signature) and public-key type `K`. */
  datatype Bls<!P, !K> = Bls(
    /** `blssig.NewSignatureFromCompresssed`; None is its error result. */
    decompress: Bytes -> Option<P>,
    /** `blssig.SignatureToCompressed`. */
    compress: P -> Bytes,
    /** `blssig.AggregateSignature`: group addition of two signatures. */
    aggregate: (P, P) -> P,
    /** `blssig.Verify(digest, domain, signature, key)`. */
    verify: (Bytes, Bytes, P, K) -> bool,
    /** `blssig.VerifyAggregateCommon(digest, domain, keys, signature)`. */
    verifyAggregateCommon: (Bytes, Bytes, seq<K>, P) -> bool)

  /** The domain tag shared by every signature: the array `{1, 1, 1}` padded to 8 bytes
      (crypto/signer.go:13). */
  const Domain: Bytes := [1, 1, 1, 0, 0, 0, 0, 0]

  /** Length of the digest handed to the curve library. */
  const DigestSize: nat := 32

  /** A verifier: the quorum threshold and the public keys indexed by replica number. */
  datatype Verifier<K> = Verifier(threshold: int, pubkeys: seq<K>)

  /** A quorum certificate: the voters in arrival order and the compressed aggregate, where
      None stands for Go's nil slice (no signature merged yet). */
  datatype AggregatedSignature = AggregatedSignature(voters: seq<U64>, sig: Option<Bytes>)

  /** The certificate invariant: no voter twice, every voter a known replica. */
  predicate Valid<K>(v: Verifier<K>, asig: AggregatedSignature)
  {
    NoDuplicates(asig.voters) && AllKnown(asig.voters, |v.pubkeys|)
  }

  /** The bytes of a possibly nil slice; Go reads a nil slice as an empty one. */
  function Raw(b: Option<Bytes>): Bytes
  {
    b.GetOr([])
  }

  function Zeros(n: nat): (z: Bytes)
    ensures |z| == n && forall i :: 0 <= i < n ==> z[i] == 0
  {
    if n == 0 then [] else Zeros(n - 1) + [0]
  }

  /** `m := [32]byte{}; copy(m[:], msg)`: the message cut or zero-padded to 32 bytes. */
  function ToDigest(msg: Bytes): (m: Bytes)
    ensures |m| == DigestSize
    ensures forall i :: 0 <= i < DigestSize ==> m[i] == (if i < |msg| then msg[i] else 0)
  {
    if |msg| >= DigestSize then msg[..DigestSize] else msg + Zeros(DigestSize - |msg|)
  }

  /** `Verify(idx, msg, sig)`: replica `idx`'s signature over the message. An index outside
      the key table and a signature that does not decompress both give false, and neither
      reaches the curve check. */
  function Verify<P, K>(c: Bls<P, K>, v: Verifier<K>, idx: U64, msg: Bytes, sig: Bytes): (ok: bool)
    ensures idx >= |v.pubkeys| ==> !ok
    ensures c.decompress(sig).None? ==> !ok
    ensures ok <==> (idx < |v.pubkeys| && c.decompress(sig).Some?
      && c.verify(ToDigest(msg), Domain, c.decompress(sig).value, v.pubkeys[idx]))
  {
    if idx >= |v.pubkeys| then false
    else
      match c.decompress(sig)
      case None => false
      case Some(s) => c.verify(ToDigest(msg), Domain, s, v.pubkeys[idx])
  }

  /** Every voter names a known replica. */
  predicate AllKnown(voters: seq<U64>, n: nat)
  {
    forall k :: 0 <= k < |voters| ==> voters[k] < n
  }

  /** The key list a verifying party rebuilds from a certificate: voter `k`'s key at
      position `k`. */
  function KeysOf<K>(voters: seq<U64>, pubkeys: seq<K>): (ks: seq<K>)
    requires AllKnown(voters, |pubkeys|)
  {
    seq(|voters|, k requires 0 <= k < |voters| => pubkeys[voters[k]])
  }

  /** The loop that fills `pubs` in `VerifyAggregated`: the voters' keys in voter order, or
      None as soon as some voter is not a known replica. */
  function ResolveKeys<K>(voters: seq<U64>, pubkeys: seq<K>): (r: Option<seq<K>>)
    ensures r.None? <==> exists k :: 0 <= k < |voters| && voters[k] >= |pubkeys|
    ensures r.Some? ==> (|r.value| == |voters|
      && forall k :: 0 <= k < |voters| ==> r.value[k] == pubkeys[voters[k]])
  {
    if |voters| == 0 then Some([])
    else if voters[0] >= |pubkeys| then None
    else
      match ResolveKeys(voters[1..], pubkeys)
      case None =>
        ghost var k :| 0 <= k < |voters[1..]| && voters[1..][k] >= |pubkeys|;
        assert voters[k + 1] >= |pubkeys|;
        None
      case Some(rest) => Some([pubkeys[voters[0]]] + rest)
  }

  /** `ResolveKeys` succeeds exactly on certificates naming known replicas, with the key
      list a verifying party rebuilds. */
  lemma ResolveKeysIsKeysOf<K>(voters: seq<U64>, pubkeys: seq<K>)
    ensures AllKnown(voters, |pubkeys|) ==> ResolveKeys(voters, pubkeys) == Some(KeysOf(voters, pubkeys))
    ensures !AllKnown(voters, |pubkeys|) ==> ResolveKeys(voters, pubkeys) == None
  {
    if AllKnown(voters, |pubkeys|) {
      var r := ResolveKeys(voters, pubkeys);
      assert r.value == KeysOf(voters, pubkeys);
    }
  }

  /** `VerifyAggregated(msg, asig)`, as written: a certificate with fewer voters than the
      threshold, with a voter outside the key table, or whose aggregate does not decompress
      is rejected; otherwise the curve check runs over the voters' keys in voter order.
      Duplicate voters are not rejected (see `DuplicateVotersPassThresholdGate`). */
  function VerifyAggregated<P, K>(c: Bls<P, K>, v: Verifier<K>, msg: Bytes, asig: AggregatedSignature): (ok: bool)
    ensures |asig.voters| < v.threshold ==> !ok
    ensures !AllKnown(asig.voters, |v.pubkeys|) ==> !ok
    ensures c.decompress(Raw(asig.sig)).None? ==> !ok
    ensures ok <==>
      && |asig.voters| >= v.threshold
      && AllKnown(asig.voters, |v.pubkeys|)
      && c.decompress(Raw(asig.sig)).Some?
      && c.verifyAggregateCommon(ToDigest(msg), Domain, KeysOf(asig.voters, v.pubkeys),
                                 c.decompress(Raw(asig.sig)).value)
  {
    ResolveKeysIsKeysOf(asig.voters, v.pubkeys);
    if |asig.voters| < v.threshold then false
    else
      match ResolveKeys(asig.voters, v.pubkeys)
      case None => false
      case Some(pubs) =>
        match c.decompress(Raw(asig.sig))
        case None => false
        case Some(s) => c.verifyAggregateCommon(ToDigest(msg), Domain, pubs, s)
  }

  /** `Merge(asig, voter, sig)`: adds replica `voter`'s partial signature to the certificate.
      Nothing changes when the voter is unknown, has already voted, or (once an aggregate
      exists) either signature fails to decompress. The first partial signature is stored
      as given, without decoding; later ones are added to the aggregate point. The voter is
      appended at the end on success only. */
  function Merge<P, K>(c: Bls<P, K>, v: Verifier<K>, asig: AggregatedSignature, voter: U64, sig: Option<Bytes>): (r: AggregatedSignature)
    ensures voter >= |v.pubkeys| ==> r == asig
    ensures voter in asig.voters ==> r == asig
    ensures r == asig || r.voters == asig.voters + [voter]
    ensures Valid(v, asig) ==> Valid(v, r)
    ensures asig.sig.None? && voter < |v.pubkeys| && voter !in asig.voters ==>
      r == AggregatedSignature(asig.voters + [voter], sig)
    ensures asig.sig.Some? && (c.decompress(asig.sig.value).None? || c.decompress(Raw(sig)).None?) ==>
      r == asig
    ensures (asig.sig.Some? && voter < |v.pubkeys| && voter !in asig.voters
      && c.decompress(asig.sig.value).Some? && c.decompress(Raw(sig)).Some?) ==>
      r == AggregatedSignature(asig.voters + [voter], Some(c.compress(
             c.aggregate(c.decompress(asig.sig.value).value, c.decompress(Raw(sig)).value))))
  {
    if voter >= |v.pubkeys| then asig
    else if voter in asig.voters then asig
    else
      match asig.sig
      case None => AggregatedSignature(asig.voters + [voter], sig)
      case Some(prior) =>
        match (c.decompress(prior), c.decompress(Raw(sig)))
        case (Some(s1), Some(s2)) =>
          AggregatedSignature(asig.voters + [voter], Some(c.compress(c.aggregate(s1, s2))))
        case _ => asig
  }

  // ---------------------------------------------------------------------------
  // The message digest

  /** Zero-padding a message never changes its digest. */
  lemma {:induction false} DigestIgnoresZeroPadding(msg: Bytes, k: nat)
    ensures ToDigest(msg + Zeros(k)) == ToDigest(msg)
  {
    var a := ToDigest(msg + Zeros(k));
    var b := ToDigest(msg);
    forall i | 0 <= i < DigestSize
      ensures a[i] == b[i]
    {
      if i < |msg| {
        assert (msg + Zeros(k))[i] == msg[i];
      } else if i < |msg| + k {
        assert (msg + Zeros(k))[i] == Zeros(k)[i - |msg|];
      }
    }
  }

  /** Bytes past the 32nd never reach the digest. */
  lemma DigestIgnoresTail(msg: Bytes, tail: Bytes)
    requires |msg| >= DigestSize
    ensures ToDigest(msg + tail) == ToDigest(msg)
  {
    assert (msg + tail)[..DigestSize] == msg[..DigestSize];
  }

  /** A 32-byte message is its own digest, so signing an exact digest loses nothing. */
  lemma DigestOfDigest(msg: Bytes)
    requires |msg| == DigestSize
    ensures ToDigest(msg) == msg
  {
    assert msg[..DigestSize] == msg;
  }

  /** Both verification functions see a message only through its digest: appending bytes
      after the 32nd, or zero bytes after a shorter message, changes neither verdict. */
  lemma VerdictsIgnoreBytesPastDigest<P, K>(c: Bls<P, K>, v: Verifier<K>, idx: U64, msg: Bytes,
                                            tail: Bytes, k: nat, sig: Bytes, asig: AggregatedSignature)
    requires |msg| >= DigestSize
    ensures Verify(c, v, idx, msg + tail, sig) == Verify(c, v, idx, msg, sig)
    ensures VerifyAggregated(c, v, msg + tail, asig) == VerifyAggregated(c, v, msg, asig)
    ensures Verify(c, v, idx, msg + Zeros(k), sig) == Verify(c, v, idx, msg, sig)
    ensures VerifyAggregated(c, v, msg + Zeros(k), asig) == VerifyAggregated(c, v, msg, asig)
  {
    DigestIgnoresTail(msg, tail);
    DigestIgnoresZeroPadding(msg, k);
  }

  /** A message shorter than 32 bytes verifies exactly as its zero-padded 32-byte form. */
  lemma ShortMessageActsZeroPadded<P, K>(c: Bls<P, K>, v: Verifier<K>, idx: U64, msg: Bytes,
                                         sig: Bytes, asig: AggregatedSignature)
    requires |msg| < DigestSize
    ensures Verify(c, v, idx, msg, sig) == Verify(c, v, idx, msg + Zeros(DigestSize - |msg|), sig)
    ensures VerifyAggregated(c, v, msg, asig)
         == VerifyAggregated(c, v, msg + Zeros(DigestSize - |msg|), asig)
  {
    var padded := msg + Zeros(DigestSize - |msg|);
    DigestIgnoresZeroPadding(msg, DigestSize - |msg|);
    VerifyFollowsDigest(c, v, idx, msg, padded, sig);
    AggregatedFollowsDigest(c, v, msg, padded, asig);
  }

  lemma VerifyFollowsDigest<P, K>(c: Bls<P, K>, v: Verifier<K>, idx: U64, m1: Bytes, m2: Bytes,
                                  sig: Bytes)
    requires ToDigest(m1) == ToDigest(m2)
    ensures Verify(c, v, idx, m1, sig) == Verify(c, v, idx, m2, sig)
  {
  }

  lemma AggregatedFollowsDigest<P, K>(c: Bls<P, K>, v: Verifier<K>, m1: Bytes, m2: Bytes,
                                      asig: AggregatedSignature)
    requires ToDigest(m1) == ToDigest(m2)
    ensures VerifyAggregated(c, v, m1, asig) == VerifyAggregated(c, v, m2, asig)
  {
  }

  // ---------------------------------------------------------------------------
  // Duplicate voters and the threshold gate

  /** No voter appears twice. */
  predicate NoDuplicates(voters: seq<U64>)
  {
    forall i, j :: 0 <= i < j < |voters| ==> voters[i] != voters[j]
  }

  /** The distinct replicas a certificate names. */
  function VoterSet(voters: seq<U64>): set<nat>
  {
    set k | 0 <= k < |voters| :: voters[k]
  }

  /** A duplicate-free voter list names as many replicas as it has entries. */
  lemma {:induction false} DistinctVoterCount(voters: seq<U64>)
    requires NoDuplicates(voters)
    ensures |VoterSet(voters)| == |voters|
  {
    if |voters| > 0 {
      var init := voters[..|voters| - 1];
      var last := voters[|voters| - 1];
      DistinctVoterCount(init);
      assert VoterSet(voters) == VoterSet(init) + {last};
      assert last !in VoterSet(init);
    }
  }

  /** The threshold gate of `VerifyAggregated` counts entries, not replicas: with four
      replicas (threshold 3) the certificate naming replica 0 three times passes the gate
      and the verdict is left to the curve check over replica 0's key three times. With
      BLS that check accepts the aggregate `3 * sigma0` of replica 0's own signature, so a
      single replica can produce a certificate that passes. */
  lemma DuplicateVotersPassThresholdGate<P, K>(c: Bls<P, K>, pubkeys: seq<K>, msg: Bytes, s: Bytes)
    requires |pubkeys| == 4
    requires c.decompress(s).Some?
    ensures var asig := AggregatedSignature([0, 0, 0], Some(s));
      && !Valid(Verifier(2 * 4 / 3 + 1, pubkeys), asig)
      && |VoterSet(asig.voters)| == 1
      && VerifyAggregated(c, Verifier(2 * 4 / 3 + 1, pubkeys), msg, asig)
         == c.verifyAggregateCommon(ToDigest(msg), Domain, [pubkeys[0], pubkeys[0], pubkeys[0]],
                                    c.decompress(s).value)
  {
    var voters: seq<U64> := [0, 0, 0];
    assert voters[0] == voters[1];
    assert forall x :: x in VoterSet(voters) ==> x == 0;
    assert voters[0] in VoterSet(voters);
    assert VoterSet(voters) == {0};
    assert KeysOf(voters, pubkeys) == [pubkeys[0], pubkeys[0], pubkeys[0]];
  }

  /** `VerifyAggregated` with the evident intent of the threshold restored: a certificate
      must name at least `threshold` DISTINCT replicas, so one with a repeated voter is
      rejected. On certificates that `Merge` builds it agrees with `VerifyAggregated`. */
  function VerifyQuorum<P, K>(c: Bls<P, K>, v: Verifier<K>, msg: Bytes, asig: AggregatedSignature): (ok: bool)
    ensures !NoDuplicates(asig.voters) ==> !ok
    ensures ok ==> Valid(v, asig) && |VoterSet(asig.voters)| >= v.threshold
    ensures ok ==> VerifyAggregated(c, v, msg, asig)
    ensures Valid(v, asig) ==> (ok <==> VerifyAggregated(c, v, msg, asig))
  {
    if !NoDuplicates(asig.voters) then false
    else
      DistinctVoterCount(asig.voters);
      VerifyAggregated(c, v, msg, asig)
  }

  // ---------------------------------------------------------------------------
  // Merging

  /** A second `Merge` of the same voter and signature is a no-op; once a voter has been
      added, any further signature for it is ignored. */
  lemma MergeIdempotent<P, K>(c: Bls<P, K>, v: Verifier<K>, asig: AggregatedSignature, voter: U64,
                             sig: Option<Bytes>, other: Option<Bytes>)
    ensures Merge(c, v, Merge(c, v, asig, voter, sig), voter, sig) == Merge(c, v, asig, voter, sig)
    ensures Merge(c, v, asig, voter, sig) != asig ==>
      Merge(c, v, Merge(c, v, asig, voter, sig), voter, other) == Merge(c, v, asig, voter, sig)
  {
    var r := Merge(c, v, asig, voter, sig);
    if r != asig {
      assert voter in r.voters;
    }
  }

  /** One vote: a replica index and the partial signature bytes it sent. */
  datatype Vote = Vote(voter: U64, sig: Option<Bytes>)

  /** The certificate after merging `votes` one after another into `asig`. The voter list
      only grows at its end, keeps the certificate invariant, and gains only voters that
      were merged. */
  function MergeAll<P, K>(c: Bls<P, K>, v: Verifier<K>, asig: AggregatedSignature, votes: seq<Vote>): (r: AggregatedSignature)
    ensures |asig.voters| <= |r.voters| <= |asig.voters| + |votes|
    ensures r.voters[..|asig.voters|] == asig.voters
    ensures forall k :: |asig.voters| <= k < |r.voters| ==>
      exists j :: 0 <= j < |votes| && votes[j].voter == r.voters[k]
    ensures Valid(v, asig) ==> Valid(v, r)
    decreases |votes|
  {
    if |votes| == 0 then asig
    else
      var first := votes[|votes| - 1];
      var before := MergeAll(c, v, asig, votes[..|votes| - 1]);
      var r := Merge(c, v, before, first.voter, first.sig);
      assert forall k :: |asig.voters| <= k < |before.voters| ==>
        exists j :: 0 <= j < |votes| && votes[j].voter == before.voters[k]
      by {
        forall k | |asig.voters| <= k < |before.voters|
          ensures exists j :: 0 <= j < |votes| && votes[j].voter == before.voters[k]
        {
          var j :| 0 <= j < |votes| - 1 && votes[..|votes| - 1][j].voter == before.voters[k];
          assert votes[j].voter == before.voters[k];
        }
      }
      assert r.voters[..|asig.voters|] == asig.voters by {
        if r != before {
          assert r.voters[..|before.voters|] == before.voters;
        }
      }
      r
  }

  /** A partial signature that does not decompress, merged into an empty certificate, is
      stored as is and counts its voter; from then on every `Merge` fails to decode the
      aggregate and leaves the certificate as it is. */
  lemma {:induction false} MalformedFirstPartialFreezesCertificate<P, K>(
    c: Bls<P, K>, v: Verifier<K>, voters: seq<U64>, voter: U64, bad: Bytes, later: seq<Vote>)
    requires voter < |v.pubkeys| && voter !in voters
    requires c.decompress(bad).None?
    ensures Merge(c, v, AggregatedSignature(voters, None), voter, Some(bad))
         == AggregatedSignature(voters + [voter], Some(bad))
    ensures MergeAll(c, v, AggregatedSignature(voters + [voter], Some(bad)), later)
         == AggregatedSignature(voters + [voter], Some(bad))
    decreases |later|
  {
    if |later| > 0 {
      MalformedFirstPartialFreezesCertificate(c, v, voters, voter, bad, later[..|later| - 1]);
    }
  }

  /** A nil partial signature merged into a certificate without an aggregate counts its
      voter but leaves the aggregate nil, so the next partial is stored as if it were the
      first and the earlier voter contributes nothing to the aggregate. */
  lemma NilPartialCountsVoterWithoutSignature<P, K>(
    c: Bls<P, K>, v: Verifier<K>, voters: seq<U64>, a: U64, b: U64, sb: Bytes)
    requires a < |v.pubkeys| && b < |v.pubkeys| && a != b
    requires a !in voters && b !in voters
    ensures var r1 := Merge(c, v, AggregatedSignature(voters, None), a, None);
      && r1 == AggregatedSignature(voters + [a], None)
      && Merge(c, v, r1, b, Some(sb)) == AggregatedSignature(voters + [a, b], Some(sb))
  {
    assert voters + [a] + [b] == voters + [a, b];
  }
}
