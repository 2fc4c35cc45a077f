/** Order-independence of certificate building. Under algebraic laws that BLS12-381 is
    expected to satisfy (they are hypotheses here, never facts about the opaque functions),
    merging the same valid partial signatures in any order yields certificates that verify
    alike; with a malformed partial signature the order does matter. */
module Aggregation {
  import opened Wrappers
  import opened Encoding
  import opened Crypto

  /** Laws of the curve operations: decompression inverts compression, point addition is
      commutative and associative, and the common-message aggregate check depends only on
      the multiset of keys, not on their order. */
  ghost predicate Lawful<P(!new), K(!new)>(c: Bls<P, K>)
  {
    && (forall p, q, r :: PointLaws(c, p, q, r))
    && (forall d, dom, ks1, ks2, s :: KeyOrderIrrelevant(c, d, dom, ks1, ks2, s))
  }

  /** The point laws at one triple of points; stated apart so that proofs instantiate them
      only where they are named. */
  ghost predicate PointLaws<P, K>(c: Bls<P, K>, p: P, q: P, r: P)
  {
    && c.decompress(c.compress(p)) == Some(p)
    && c.aggregate(p, q) == c.aggregate(q, p)
    && c.aggregate(c.aggregate(p, q), r) == c.aggregate(p, c.aggregate(q, r))
  }

  ghost predicate KeyOrderIrrelevant<P, K>(c: Bls<P, K>, d: Bytes, dom: Bytes, ks1: seq<K>, ks2: seq<K>, s: P)
  {
    multiset(ks1) == multiset(ks2) ==>
      c.verifyAggregateCommon(d, dom, ks1, s) == c.verifyAggregateCommon(d, dom, ks2, s)
  }

  /** A partial signature that is present and decompresses. */
  predicate GoodPartial<P, K>(c: Bls<P, K>, sig: Option<Bytes>)
  {
    sig.Some? && c.decompress(sig.value).Some?
  }

  /** A certificate whose aggregate is absent or decompresses. */
  predicate Decodable<P, K>(c: Bls<P, K>, asig: AggregatedSignature)
  {
    asig.sig.None? || c.decompress(asig.sig.value).Some?
  }

  /** Same voters in possibly another order, same aggregate bytes. */
  predicate Equiv(x: AggregatedSignature, y: AggregatedSignature)
  {
    multiset(x.voters) == multiset(y.voters) && x.sig == y.sig
  }

  predicate GoodVotes<P, K>(c: Bls<P, K>, votes: seq<Vote>)
  {
    forall i :: 0 <= i < |votes| ==> GoodPartial(c, votes[i].sig)
  }

  predicate DistinctVoters(votes: seq<Vote>)
  {
    forall i, j :: 0 <= i < j < |votes| ==> votes[i].voter != votes[j].voter
  }

  /** Merging a good partial signature keeps the aggregate decodable. */
  lemma MergeKeepsDecodable<P(!new), K(!new)>(c: Bls<P, K>, v: Verifier<K>, x: AggregatedSignature, a: U64, sa: Option<Bytes>)
    requires Lawful(c) && Decodable(c, x) && GoodPartial(c, sa)
    ensures Decodable(c, Merge(c, v, x, a, sa))
  {
    if x.sig.Some? {
      var p := c.aggregate(c.decompress(x.sig.value).value, c.decompress(sa.value).value);
      assert PointLaws(c, p, p, p);
    }
  }

  /** `Merge` only looks at the voters as a set and at the aggregate bytes, so it maps
      equivalent certificates to equivalent certificates. */
  lemma MergeRespectsEquiv<P, K>(c: Bls<P, K>, v: Verifier<K>, x: AggregatedSignature, y: AggregatedSignature,
                                 a: U64, sa: Option<Bytes>)
    requires Equiv(x, y)
    ensures Equiv(Merge(c, v, x, a, sa), Merge(c, v, y, a, sa))
  {
    assert a in x.voters <==> a in multiset(x.voters);
    assert a in y.voters <==> a in multiset(y.voters);
  }

  /** Two good partial signatures from different voters can be merged in either order. */
  lemma MergeSwap<P(!new), K(!new)>(c: Bls<P, K>, v: Verifier<K>, x: AggregatedSignature,
                        a: U64, sa: Option<Bytes>, b: U64, sb: Option<Bytes>)
    requires Lawful(c) && Decodable(c, x)
    requires a != b && GoodPartial(c, sa) && GoodPartial(c, sb)
    ensures Equiv(Merge(c, v, Merge(c, v, x, a, sa), b, sb), Merge(c, v, Merge(c, v, x, b, sb), a, sa))
  {
    var xa := Merge(c, v, x, a, sa);
    var xb := Merge(c, v, x, b, sb);
    if a >= |v.pubkeys| || a in x.voters {
      // the merge of `a` is refused whatever came before it
      assert xa == x;
      assert xb.voters == x.voters || xb.voters == x.voters + [b];
      assert a >= |v.pubkeys| || a in xb.voters;
      assert Merge(c, v, xb, a, sa) == xb;
    } else if b >= |v.pubkeys| || b in x.voters {
      assert xb == x;
      assert xa.voters == x.voters || xa.voters == x.voters + [a];
      assert b >= |v.pubkeys| || b in xa.voters;
      assert Merge(c, v, xa, b, sb) == xa;
    } else {
      SwapVoters(x.voters, a, b);
      if x.sig.None? {
        SwapFromEmpty(c, v, x, a, sa, b, sb);
      } else {
        SwapIntoAggregate(c, v, x, a, sa, b, sb);
      }
    }
  }

  lemma SwapVoters(voters: seq<U64>, a: U64, b: U64)
    ensures multiset(voters + [a] + [b]) == multiset(voters + [b] + [a])
  {
  }

  lemma SwapFromEmpty<P(!new), K(!new)>(c: Bls<P, K>, v: Verifier<K>, x: AggregatedSignature,
                                        a: U64, sa: Option<Bytes>, b: U64, sb: Option<Bytes>)
    requires Lawful(c) && x.sig.None?
    requires a != b && GoodPartial(c, sa) && GoodPartial(c, sb)
    requires a < |v.pubkeys| && b < |v.pubkeys| && a !in x.voters && b !in x.voters
    ensures Merge(c, v, Merge(c, v, x, a, sa), b, sb) == AggregatedSignature(x.voters + [a] + [b], Some(c.compress(
              c.aggregate(c.decompress(sa.value).value, c.decompress(sb.value).value))))
    ensures Merge(c, v, Merge(c, v, x, b, sb), a, sa) == AggregatedSignature(x.voters + [b] + [a], Some(c.compress(
              c.aggregate(c.decompress(sa.value).value, c.decompress(sb.value).value))))
  {
    var A := c.decompress(sa.value).value;
    var B := c.decompress(sb.value).value;
    assert Merge(c, v, x, a, sa) == AggregatedSignature(x.voters + [a], sa);
    assert Merge(c, v, x, b, sb) == AggregatedSignature(x.voters + [b], sb);
    assert PointLaws(c, A, B, B);
  }

  lemma SwapIntoAggregate<P(!new), K(!new)>(c: Bls<P, K>, v: Verifier<K>, x: AggregatedSignature,
                                            a: U64, sa: Option<Bytes>, b: U64, sb: Option<Bytes>)
    requires Lawful(c) && x.sig.Some? && c.decompress(x.sig.value).Some?
    requires a != b && GoodPartial(c, sa) && GoodPartial(c, sb)
    requires a < |v.pubkeys| && b < |v.pubkeys| && a !in x.voters && b !in x.voters
    ensures Merge(c, v, Merge(c, v, x, a, sa), b, sb).voters == x.voters + [a] + [b]
    ensures Merge(c, v, Merge(c, v, x, b, sb), a, sa).voters == x.voters + [b] + [a]
    ensures Merge(c, v, Merge(c, v, x, a, sa), b, sb).sig == Merge(c, v, Merge(c, v, x, b, sb), a, sa).sig
  {
    var A := c.decompress(sa.value).value;
    var B := c.decompress(sb.value).value;
    var X := c.decompress(x.sig.value).value;
    var XA := c.aggregate(X, A);
    var XB := c.aggregate(X, B);
    assert PointLaws(c, XA, XA, XA) && PointLaws(c, XB, XB, XB);
    assert Merge(c, v, x, a, sa) == AggregatedSignature(x.voters + [a], Some(c.compress(XA)));
    assert Merge(c, v, x, b, sb) == AggregatedSignature(x.voters + [b], Some(c.compress(XB)));
    assert PointLaws(c, X, A, B) && PointLaws(c, X, B, A) && PointLaws(c, A, B, B);
    calc {
      c.aggregate(XA, B);
      c.aggregate(X, c.aggregate(A, B));
      c.aggregate(X, c.aggregate(B, A));
      c.aggregate(XB, A);
    }
  }

  /** Reordering voters keeps them all known replicas. */
  lemma KnownPermutation(xs: seq<U64>, ys: seq<U64>, n: nat)
    requires multiset(xs) == multiset(ys) && AllKnown(xs, n)
    ensures AllKnown(ys, n)
  {
    forall k | 0 <= k < |ys|
      ensures ys[k] < n
    {
      assert ys[k] in multiset(xs);
    }
  }

  /** The keys rebuilt from two orderings of the same voters are the same multiset. */
  lemma {:induction false} KeysOfPermutation<K>(xs: seq<U64>, ys: seq<U64>, pubkeys: seq<K>)
    requires multiset(xs) == multiset(ys) && AllKnown(xs, |pubkeys|)
    ensures AllKnown(ys, |pubkeys|)
    ensures multiset(KeysOf(xs, pubkeys)) == multiset(KeysOf(ys, pubkeys))
    decreases |xs|
  {
    KnownPermutation(xs, ys, |pubkeys|);
    if |xs| > 0 {
      var a := xs[0];
      assert a in multiset(ys);
      var j :| 0 <= j < |ys| && ys[j] == a;
      var front, back := ys[..j], ys[j + 1..];
      RemoveOne(xs, ys, j);
      SplitKeys(xs, ys, j, pubkeys);
      KeysOfPermutation(xs[1..], front + back, pubkeys);
      var L, R := KeysOf(front, pubkeys), KeysOf(back, pubkeys);
      var ka := pubkeys[a];
      calc {
        multiset(KeysOf(xs, pubkeys));
        multiset([ka] + KeysOf(xs[1..], pubkeys));
        multiset{ka} + multiset(KeysOf(xs[1..], pubkeys));
        multiset{ka} + multiset(L + R);
        multiset(L + [ka] + R);
        multiset(KeysOf(ys, pubkeys));
      }
    }
  }

  /** The concatenation facts about `KeysOf` used when one voter is taken out. */
  lemma SplitKeys<K>(xs: seq<U64>, ys: seq<U64>, j: nat, pubkeys: seq<K>)
    requires |xs| > 0 && j < |ys| && ys[j] == xs[0]
    requires AllKnown(xs, |pubkeys|) && AllKnown(ys, |pubkeys|)
    ensures AllKnown(xs[1..], |pubkeys|) && AllKnown(ys[..j] + ys[j + 1..], |pubkeys|)
    ensures KeysOf(xs, pubkeys) == [pubkeys[xs[0]]] + KeysOf(xs[1..], pubkeys)
    ensures KeysOf(ys[..j] + ys[j + 1..], pubkeys) == KeysOf(ys[..j], pubkeys) + KeysOf(ys[j + 1..], pubkeys)
    ensures KeysOf(ys, pubkeys)
         == KeysOf(ys[..j], pubkeys) + [pubkeys[xs[0]]] + KeysOf(ys[j + 1..], pubkeys)
  {
    assert xs == [xs[0]] + xs[1..];
    KeysOfAppend([xs[0]], xs[1..], pubkeys);
    assert ys == ys[..j] + [ys[j]] + ys[j + 1..];
    KeysOfAppend(ys[..j] + [ys[j]], ys[j + 1..], pubkeys);
    KeysOfAppend(ys[..j], [ys[j]], pubkeys);
    KeysOfAppend(ys[..j], ys[j + 1..], pubkeys);
  }

  lemma RemoveOne(xs: seq<U64>, ys: seq<U64>, j: nat)
    requires multiset(xs) == multiset(ys) && |xs| > 0 && j < |ys| && ys[j] == xs[0]
    ensures multiset(xs[1..]) == multiset(ys[..j] + ys[j + 1..])
  {
    var a := xs[0];
    assert ys == ys[..j] + [a] + ys[j + 1..];
    assert xs == [a] + xs[1..];
    var rest := multiset(ys[..j]) + multiset(ys[j + 1..]);
    assert multiset(ys) == rest + multiset{a};
    assert multiset(xs) == multiset(xs[1..]) + multiset{a};
    assert multiset(ys[..j] + ys[j + 1..]) == rest;
    forall e
      ensures multiset(xs[1..])[e] == rest[e]
    {
      assert multiset(xs)[e] == multiset(ys)[e];
    }
  }

  lemma KeysOfAppend<K>(s: seq<U64>, t: seq<U64>, pubkeys: seq<K>)
    requires AllKnown(s + t, |pubkeys|)
    ensures AllKnown(s, |pubkeys|) && AllKnown(t, |pubkeys|)
    ensures KeysOf(s + t, pubkeys) == KeysOf(s, pubkeys) + KeysOf(t, pubkeys)
  {
    assert forall k :: 0 <= k < |s| ==> s[k] == (s + t)[k];
    assert forall k :: 0 <= k < |t| ==> t[k] == (s + t)[|s| + k];
  }

  /** Equivalent certificates get the same verdict, with or without the duplicate check. */
  lemma VerifyAggregatedRespectsEquiv<P(!new), K(!new)>(c: Bls<P, K>, v: Verifier<K>, msg: Bytes,
                                            x: AggregatedSignature, y: AggregatedSignature)
    requires Lawful(c) && Equiv(x, y)
    ensures VerifyAggregated(c, v, msg, x) == VerifyAggregated(c, v, msg, y)
  {
    assert |x.voters| == |multiset(x.voters)| == |y.voters|;
    if AllKnown(x.voters, |v.pubkeys|) {
      KeysOfPermutation(x.voters, y.voters, v.pubkeys);
      var d := c.decompress(Raw(x.sig));
      if d.Some? {
        assert KeyOrderIrrelevant(c, ToDigest(msg), Domain, KeysOf(x.voters, v.pubkeys),
                                  KeysOf(y.voters, v.pubkeys), d.value);
      }
    } else if AllKnown(y.voters, |v.pubkeys|) {
      KeysOfPermutation(y.voters, x.voters, v.pubkeys);
    }
  }

  lemma MergeAllSnoc<P, K>(c: Bls<P, K>, v: Verifier<K>, x: AggregatedSignature, votes: seq<Vote>, e: Vote)
    ensures MergeAll(c, v, x, votes + [e]) == Merge(c, v, MergeAll(c, v, x, votes), e.voter, e.sig)
  {
    assert (votes + [e])[..|votes|] == votes;
  }

  /** Merging good partial signatures keeps the aggregate decodable. */
  lemma {:induction false} MergeAllKeepsDecodable<P(!new), K(!new)>(c: Bls<P, K>, v: Verifier<K>, x: AggregatedSignature, votes: seq<Vote>)
    requires Lawful(c) && Decodable(c, x) && GoodVotes(c, votes)
    ensures Decodable(c, MergeAll(c, v, x, votes))
    decreases |votes|
  {
    if |votes| > 0 {
      var init := votes[..|votes| - 1];
      MergeAllKeepsDecodable(c, v, x, init);
      MergeAllSnoc(c, v, x, init, votes[|votes| - 1]);
      MergeKeepsDecodable(c, v, MergeAll(c, v, x, init), votes[|votes| - 1].voter, votes[|votes| - 1].sig);
    }
  }

  /** A vote can be moved past later votes from other voters without changing the result
      up to voter order. */
  lemma {:induction false} MoveToEnd<P(!new), K(!new)>(c: Bls<P, K>, v: Verifier<K>, x: AggregatedSignature,
                                           front: seq<Vote>, e: Vote, back: seq<Vote>)
    requires Lawful(c) && Decodable(c, x)
    requires GoodVotes(c, front + back) && GoodPartial(c, e.sig)
    requires forall k :: 0 <= k < |back| ==> back[k].voter != e.voter
    ensures Equiv(MergeAll(c, v, x, front + [e] + back), MergeAll(c, v, x, front + back + [e]))
    decreases |back|
  {
    if |back| == 0 {
      assert front + [e] + back == front + back + [e];
    } else {
      var back' := back[..|back| - 1];
      var z := back[|back| - 1];
      assert front + [e] + back == (front + [e] + back') + [z];
      assert front + back + [e] == (front + back') + [z] + [e];
      assert front + back == (front + back') + [z];
      assert GoodVotes(c, front + back') by {
        forall i | 0 <= i < |front + back'|
          ensures GoodPartial(c, (front + back')[i].sig)
        {
          assert (front + back')[i] == (front + back)[i];
        }
      }
      assert GoodPartial(c, z.sig) by {
        assert z == (front + back)[|front + back| - 1];
      }
      MoveToEnd(c, v, x, front, e, back');
      var m1 := MergeAll(c, v, x, front + [e] + back');
      var m2 := MergeAll(c, v, x, front + back' + [e]);
      var base := MergeAll(c, v, x, front + back');
      MergeAllSnoc(c, v, x, front + [e] + back', z);
      MergeRespectsEquiv(c, v, m1, m2, z.voter, z.sig);
      MergeAllSnoc(c, v, x, front + back', e);
      MergeAllKeepsDecodable(c, v, x, front + back');
      MergeSwap(c, v, base, e.voter, e.sig, z.voter, z.sig);
      MergeAllSnoc(c, v, x, front + back', z);
      MergeAllSnoc(c, v, x, front + back' + [z], e);
    }
  }

  /** Taking vote `j` out of a list of good votes from distinct voters leaves good votes
      from distinct voters, none of them from vote `j`'s voter. */
  lemma RemoveVote<P, K>(c: Bls<P, K>, votes: seq<Vote>, j: nat)
    requires j < |votes| && GoodVotes(c, votes) && DistinctVoters(votes)
    ensures votes == votes[..j] + [votes[j]] + votes[j + 1..]
    ensures GoodVotes(c, votes[..j] + votes[j + 1..]) && DistinctVoters(votes[..j] + votes[j + 1..])
    ensures GoodPartial(c, votes[j].sig)
    ensures forall k :: j < k < |votes| ==> votes[k].voter != votes[j].voter
    ensures multiset(votes[..j] + votes[j + 1..]) == multiset(votes) - multiset{votes[j]}
  {
    var rest := votes[..j] + votes[j + 1..];
    assert votes == votes[..j] + [votes[j]] + votes[j + 1..];
    forall i | 0 <= i < |rest|
      ensures rest[i] == votes[if i < j then i else i + 1]
    {
    }
    forall i, i' | 0 <= i < i' < |rest|
      ensures rest[i].voter != rest[i'].voter
    {
      assert rest[i] == votes[if i < j then i else i + 1];
      assert rest[i'] == votes[if i' < j then i' else i' + 1];
    }
    assert multiset(votes) == multiset(votes[..j]) + multiset{votes[j]} + multiset(votes[j + 1..]);
  }

  /** Merging the same good partial signatures from distinct voters in any order yields
      certificates with the same voters (up to order) and the same aggregate bytes. */
  lemma {:induction false} MergeOrderIrrelevant<P(!new), K(!new)>(c: Bls<P, K>, v: Verifier<K>, x: AggregatedSignature,
                                                      votes1: seq<Vote>, votes2: seq<Vote>)
    requires Lawful(c) && Decodable(c, x)
    requires multiset(votes1) == multiset(votes2)
    requires GoodVotes(c, votes2) && DistinctVoters(votes2)
    ensures Equiv(MergeAll(c, v, x, votes1), MergeAll(c, v, x, votes2))
    decreases |votes1|
  {
    if |votes1| == 0 {
      assert |votes2| == |multiset(votes2)| == 0;
    } else {
      var init := votes1[..|votes1| - 1];
      var e := votes1[|votes1| - 1];
      var j := PeelLast(c, votes1, votes2);
      var front, back := votes2[..j], votes2[j + 1..];
      forall k | 0 <= k < |back|
        ensures back[k].voter != e.voter
      {
        assert back[k] == votes2[j + 1 + k];
      }
      MoveToEnd(c, v, x, front, e, back);
      MergeOrderIrrelevant(c, v, x, init, front + back);
      MergeAllSnoc(c, v, x, init, e);
      MergeAllSnoc(c, v, x, front + back, e);
      MergeRespectsEquiv(c, v, MergeAll(c, v, x, init), MergeAll(c, v, x, front + back), e.voter, e.sig);
    }
  }

  /** Finds the last vote of `votes1` in `votes2`; what is left of both lists are again
      permutations of each other. */
  lemma PeelLast<P, K>(c: Bls<P, K>, votes1: seq<Vote>, votes2: seq<Vote>) returns (j: nat)
    requires |votes1| > 0 && multiset(votes1) == multiset(votes2)
    requires GoodVotes(c, votes2) && DistinctVoters(votes2)
    ensures j < |votes2| && votes2[j] == votes1[|votes1| - 1]
    ensures votes1 == votes1[..|votes1| - 1] + [votes2[j]]
    ensures votes2 == votes2[..j] + [votes2[j]] + votes2[j + 1..]
    ensures multiset(votes1[..|votes1| - 1]) == multiset(votes2[..j] + votes2[j + 1..])
    ensures GoodVotes(c, votes2[..j] + votes2[j + 1..]) && DistinctVoters(votes2[..j] + votes2[j + 1..])
    ensures GoodPartial(c, votes2[j].sig)
    ensures forall k :: j < k < |votes2| ==> votes2[k].voter != votes2[j].voter
  {
    j := IndexOfVote(votes2, votes1[|votes1| - 1]);
    PermutationPeel(votes1, votes2, j);
    RemoveVote(c, votes2, j);
  }

  lemma IndexOfVote(votes: seq<Vote>, e: Vote) returns (j: nat)
    requires e in multiset(votes)
    ensures j < |votes| && votes[j] == e
  {
    assert e in votes;
    j :| 0 <= j < |votes| && votes[j] == e;
  }

  /** Removing the same vote from two permutations of each other leaves permutations. */
  lemma PermutationPeel(votes1: seq<Vote>, votes2: seq<Vote>, j: nat)
    requires |votes1| > 0 && multiset(votes1) == multiset(votes2)
    requires j < |votes2| && votes2[j] == votes1[|votes1| - 1]
    ensures votes1 == votes1[..|votes1| - 1] + [votes2[j]]
    ensures multiset(votes1[..|votes1| - 1]) == multiset(votes2[..j] + votes2[j + 1..])
  {
    var init, e := votes1[..|votes1| - 1], votes1[|votes1| - 1];
    var front, back := votes2[..j], votes2[j + 1..];
    assert votes1 == init + [e];
    assert votes2 == front + [e] + back;
    assert multiset(votes1) == multiset(init) + multiset{e};
    assert multiset(votes2) == multiset(front + back) + multiset{e};
    MultisetCancel(multiset(init), multiset(front + back), e);
  }

  lemma MultisetCancel<T>(a: multiset<T>, b: multiset<T>, e: T)
    requires a + multiset{e} == b + multiset{e}
    ensures a == b
  {
    assert a == (a + multiset{e}) - multiset{e};
    assert b == (b + multiset{e}) - multiset{e};
  }

  /** Merging {a, b} and then {d}, or {d} and then {a} and {b}, gives certificates with the
      same verdict. */
  lemma MergeOrderExample<P(!new), K(!new)>(c: Bls<P, K>, v: Verifier<K>, x: AggregatedSignature, msg: Bytes,
                                a: Vote, b: Vote, d: Vote)
    requires Lawful(c) && Decodable(c, x) && Valid(v, x)
    requires GoodPartial(c, a.sig) && GoodPartial(c, b.sig) && GoodPartial(c, d.sig)
    requires a.voter != b.voter && a.voter != d.voter && b.voter != d.voter
    ensures VerifyAggregated(c, v, msg, MergeAll(c, v, x, [a, b, d]))
         == VerifyAggregated(c, v, msg, MergeAll(c, v, x, [d, a, b]))
    ensures VerifyQuorum(c, v, msg, MergeAll(c, v, x, [a, b, d]))
         == VerifyQuorum(c, v, msg, MergeAll(c, v, x, [d, a, b]))
  {
    assert multiset([d, a, b]) == multiset([a, b, d]);
    var votes: seq<Vote> := [a, b, d];
    assert GoodVotes(c, votes);
    assert DistinctVoters(votes);
    MergeOrderIrrelevant(c, v, x, [d, a, b], votes);
    VerifyAggregatedRespectsEquiv(c, v, msg, MergeAll(c, v, x, [a, b, d]), MergeAll(c, v, x, [d, a, b]));
  }

  /** Without the assumption that each partial signature decompresses, order matters: a
      malformed partial merged first is stored and freezes the certificate, while merged
      second it is refused. */
  lemma MalformedPartialMakesOrderMatter<P, K>(c: Bls<P, K>, v: Verifier<K>, a: U64, bad: Bytes, b: U64, sb: Bytes)
    requires a < |v.pubkeys| && b < |v.pubkeys| && a != b
    requires c.decompress(bad).None? && c.decompress(sb).Some?
    ensures var empty := AggregatedSignature([], None);
      && Merge(c, v, Merge(c, v, empty, a, Some(bad)), b, Some(sb)) == AggregatedSignature([a], Some(bad))
      && Merge(c, v, Merge(c, v, empty, b, Some(sb)), a, Some(bad)) == AggregatedSignature([b], Some(sb))
  {
  }
}
