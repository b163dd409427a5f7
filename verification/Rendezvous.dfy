/** hseq.c: highest-random-weight hashing, for one bucket and for the best k in order.

  carp.c holds the same two algorithms over a combining function that the caller supplies. */
module Rendezvous {
  import opened Heaps

  /** A bucket: the two halves of its hash and its weight factor. */
  datatype Item = Item(low: nat, high: nat, factor: real)

  /** The table; `mix` is MIX, whose arithmetic plays no part here. */
  datatype HSeq = HSeq(weighted: bool, items: seq<Item>, mix: (nat, nat, nat) -> nat)

  /** An identity's hash of 64 bits, and the weight that was asked for. */
  datatype Bucket = Bucket(hash: nat, weight: int)

  /** hseq_create: a weight below zero counts as zero, and the table is weighted when two weights
      differ. The factors of a weighted table come from the C library's pow; `factor` gives them. */
  function Created(buckets: seq<Bucket>, factor: (seq<Bucket>, nat) -> real, mix: (nat, nat, nat) -> nat): HSeq {
    var weighted := !EqualWeights(buckets);
    HSeq(weighted,
         seq(|buckets|, i requires 0 <= i < |buckets| =>
           Item(buckets[i].hash % 0x1_0000_0000, buckets[i].hash / 0x1_0000_0000,
                if weighted then factor(buckets, i) else 1.0)),
         mix)
  }

  predicate EqualWeights(buckets: seq<Bucket>) {
    forall i, j :: 0 <= i < |buckets| && 0 <= j < |buckets| ==> Weight(buckets[i]) == Weight(buckets[j])
  }

  function Weight(b: Bucket): int {
    if b.weight > 0 then b.weight else 0
  }

  /** The score of bucket i for a key; uint32 and double scores are both real numbers here. */
  function Score(hs: HSeq, keyhash: nat, i: nat): real
    requires i < |hs.items|
  {
    var it := hs.items[i];
    var x := hs.mix(keyhash, it.low, it.high) as real;
    if hs.weighted then it.factor * x else x
  }

  function Scores(hs: HSeq, keyhash: nat): (r: seq<real>)
    ensures |r| == |hs.items|
    ensures forall i :: 0 <= i < |r| ==> r[i] == Score(hs, keyhash, i)
  {
    seq(|hs.items|, i requires 0 <= i < |hs.items| => Score(hs, keyhash, i))
  }

  /** One slot of the two arrays `res` and `seqs`. */
  datatype Slot = Slot(x: real, idx: nat)

  /** The macro GREATER: the higher score is first, then the lower index. */
  predicate Greater(a: Slot, b: Slot) {
    a.x > b.x || (a.x == b.x && a.idx < b.idx)
  }

  lemma GreaterIsOrder()
    ensures StrictTotalOrder(Greater)
  {
  }

  // ---------- the ranking ----------

  /** Bucket i comes before bucket j. */
  predicate Precedes(scores: seq<real>, i: nat, j: nat)
    requires i < |scores| && j < |scores|
  {
    Greater(Slot(scores[i], i), Slot(scores[j], j))
  }

  /** The buckets that come before bucket i. */
  function Better(scores: seq<real>, i: nat): set<nat>
    requires i < |scores|
  {
    set j: nat | j < |scores| && Precedes(scores, j, i)
  }

  /** The place of bucket i in the full sort by descending score and ascending index. */
  function Rank(scores: seq<real>, i: nat): nat
    requires i < |scores|
  {
    |Better(scores, i)|
  }

  /** `r` is the beginning of the full sort. */
  ghost predicate IsTop(scores: seq<real>, r: seq<nat>) {
    forall p :: 0 <= p < |r| ==> r[p] < |scores| && Rank(scores, r[p]) == p
  }

  lemma SmallerSet(a: set<nat>, b: set<nat>)
    requires a < b
    ensures |a| < |b|
  {
    var x :| x in b && x !in a;
    SubsetSize(a, b - {x});
  }

  lemma {:induction false} SubsetSize(a: set<nat>, b: set<nat>)
    requires a <= b
    ensures |a| <= |b|
  {
    if a != {} {
      var x :| x in a;
      SubsetSize(a - {x}, b - {x});
    }
  }

  /** Ranks follow the order; so no two buckets share one, and the full sort is unique. */
  lemma RankFollowsOrder(scores: seq<real>, i: nat, j: nat)
    requires i < |scores| && j < |scores|
    ensures Precedes(scores, i, j) <==> Rank(scores, i) < Rank(scores, j)
    ensures Rank(scores, i) == Rank(scores, j) ==> i == j
  {
    if Precedes(scores, i, j) {
      assert i in Better(scores, j) && i !in Better(scores, i);
      SmallerSet(Better(scores, i), Better(scores, j));
    } else if i != j {
      assert Precedes(scores, j, i);
      assert j in Better(scores, i) && j !in Better(scores, j);
      SmallerSet(Better(scores, j), Better(scores, i));
    }
  }

  /** A shorter answer is the beginning of a longer one. */
  lemma TopIsPrefix(scores: seq<real>, r: seq<nat>, q: seq<nat>)
    requires IsTop(scores, r) && IsTop(scores, q) && |r| <= |q|
    ensures r == q[..|r|]
  {
    forall p | 0 <= p < |r| ensures r[p] == q[p] {
      RankFollowsOrder(scores, r[p], q[p]);
    }
  }

  ghost function SetOf(r: seq<nat>): set<nat> {
    set i | i in r
  }

  lemma {:induction false} DistinctSize(r: seq<nat>)
    requires forall i, j :: 0 <= i < j < |r| ==> r[i] != r[j]
    ensures |SetOf(r)| == |r|
  {
    if r != [] {
      var last := |r| - 1;
      DistinctSize(r[..last]);
      assert SetOf(r) == SetOf(r[..last]) + {r[last]};
    }
  }

  /** A sequence of buckets in order, all of which come before every other bucket, is the
      beginning of the full sort. */
  lemma OrderedTop(scores: seq<real>, r: seq<nat>)
    requires forall p :: 0 <= p < |r| ==> r[p] < |scores|
    requires forall p, q :: 0 <= p < q < |r| ==> Precedes(scores, r[p], r[q])
    requires forall p, j: nat :: 0 <= p < |r| && j < |scores| && j !in r ==> Precedes(scores, r[p], j)
    ensures IsTop(scores, r)
  {
    forall p | 0 <= p < |r| ensures Rank(scores, r[p]) == p {
      forall j: nat | j < |scores| ensures j in Better(scores, r[p]) <==> j in SetOf(r[..p]) {
        if j in r {
          var q :| 0 <= q < |r| && r[q] == j;
          if q < p {
            assert r[..p][q] == j;
          } else {
            assert !Precedes(scores, j, r[p]);
            forall k | 0 <= k < p ensures r[k] != j {
              assert Precedes(scores, r[k], r[q]);
            }
          }
        }
      }
      assert Better(scores, r[p]) == SetOf(r[..p]);
      DistinctSize(r[..p]);
    }
  }

  // ---------- what the weights do ----------

  /** Bucket i goes before bucket j: by the product of factor and hash in a weighted table, by the
      hash alone in any other, and by the index among equals. */
  ghost predicate Outbids(hs: HSeq, keyhash: nat, i: nat, j: nat)
    requires i < |hs.items| && j < |hs.items|
  {
    var (a, b) := (hs.items[i], hs.items[j]);
    var x := hs.mix(keyhash, a.low, a.high) as real;
    var y := hs.mix(keyhash, b.low, b.high) as real;
    if hs.weighted then a.factor * x > b.factor * y || (a.factor * x == b.factor * y && i < j)
    else x > y || (x == y && i < j)
  }

  /** Weight factors are not negative. */
  predicate IsSound(hs: HSeq) {
    hs.weighted ==> forall i :: 0 <= i < |hs.items| ==> hs.items[i].factor >= 0.0
  }

  /** The bucket of a key. */
  ghost predicate IsAnswer(hs: HSeq, keyhash: nat, idx: nat) {
    idx < |hs.items| && forall j: nat :: j < |hs.items| && j != idx ==> Outbids(hs, keyhash, idx, j)
  }

  /** The beginning of the row of all buckets. */
  ghost predicate IsRow(hs: HSeq, keyhash: nat, r: seq<nat>) {
    && (forall p :: 0 <= p < |r| ==> r[p] < |hs.items|)
    && (forall p, q :: 0 <= p < q < |r| ==> Outbids(hs, keyhash, r[p], r[q]))
    && (forall p, j: nat :: 0 <= p < |r| && j < |hs.items| && j !in r ==> Outbids(hs, keyhash, r[p], j))
  }

  lemma ScoresOutbid(hs: HSeq, keyhash: nat, i: nat, j: nat)
    requires i < |hs.items| && j < |hs.items|
    ensures Precedes(Scores(hs, keyhash), i, j) <==> Outbids(hs, keyhash, i, j)
  {
  }

  lemma TopIsRow(hs: HSeq, keyhash: nat, r: seq<nat>)
    requires IsTop(Scores(hs, keyhash), r)
    ensures IsRow(hs, keyhash, r)
  {
    hide Rank;
    hide Precedes;
    hide Outbids;
    var scores := Scores(hs, keyhash);
    forall p, q | 0 <= p < q < |r| ensures Outbids(hs, keyhash, r[p], r[q]) {
      RankFollowsOrder(scores, r[p], r[q]);
      ScoresOutbid(hs, keyhash, r[p], r[q]);
    }
    forall p, j: nat | 0 <= p < |r| && j < |hs.items| && j !in r ensures Outbids(hs, keyhash, r[p], j) {
      RankFollowsOrder(scores, r[p], j);
      if Rank(scores, j) < |r| {
        RankFollowsOrder(scores, r[Rank(scores, j)], j);
        assert false;
      }
      ScoresOutbid(hs, keyhash, r[p], j);
    }
  }

  lemma FirstOfRow(hs: HSeq, keyhash: nat, idx: nat)
    requires IsRow(hs, keyhash, [idx])
    ensures IsAnswer(hs, keyhash, idx)
  {
    hide Outbids;
    var r := [idx];
    assert r[0] == idx;
    forall j: nat | j < |hs.items| && j != idx ensures Outbids(hs, keyhash, idx, j) {
      assert j !in r;
    }
  }

  /** A bucket of factor zero gets no key for which another one bids. */
  lemma DrainedBucketIsPassedOver(hs: HSeq, keyhash: nat, idx: nat, j: nat)
    requires hs.weighted && IsAnswer(hs, keyhash, idx) && j < |hs.items|
    requires hs.items[j].factor * hs.mix(keyhash, hs.items[j].low, hs.items[j].high) as real > 0.0
    ensures hs.items[idx].factor != 0.0
  {
    var factor, x := hs.items[idx].factor, hs.mix(keyhash, hs.items[idx].low, hs.items[idx].high);
    if idx != j {
      assert Outbids(hs, keyhash, idx, j);
    }
    ABidHasAFactor(factor, x);
  }

  lemma ABidHasAFactor(factor: real, x: nat)
    requires factor * x as real > 0.0
    ensures factor != 0.0
  {
  }

  lemma BidIsNotNegative(factor: real, x: nat)
    ensures factor >= 0.0 ==> factor * x as real >= 0.0
  {
  }

  lemma Dearer(factor: real, more: real, x: nat)
    requires factor <= more
    ensures factor * x as real <= more * x as real
  {
  }

  /** A larger factor takes keys to its bucket, and to no other. */
  lemma LargerFactorAttracts(hs: HSeq, keyhash: nat, b: nat, factor: real, idx: nat, answer: nat)
    requires hs.weighted && b < |hs.items| && hs.items[b].factor <= factor && IsAnswer(hs, keyhash, idx)
    requires IsAnswer(hs.(items := hs.items[b := hs.items[b].(factor := factor)]), keyhash, answer)
    ensures answer == idx || answer == b
    ensures idx == b ==> answer == b
  {
    hide Outbids;
    var raised := hs.(items := hs.items[b := hs.items[b].(factor := factor)]);
    if answer != idx && answer != b {
      OneOutbids(raised, keyhash, answer, idx);
      BidsGrow(hs, keyhash, b, factor, idx, answer);
      assert false;
    }
  }

  lemma OneOutbids(hs: HSeq, keyhash: nat, i: nat, j: nat)
    requires i < |hs.items| && j < |hs.items|
    ensures !(Outbids(hs, keyhash, i, j) && Outbids(hs, keyhash, j, i))
  {
  }

  /** Only what the bucket of the larger factor bids has changed. */
  lemma BidsGrow(hs: HSeq, keyhash: nat, b: nat, factor: real, i: nat, j: nat)
    requires hs.weighted && b < |hs.items| && hs.items[b].factor <= factor && i < |hs.items| && j < |hs.items|
    requires Outbids(hs, keyhash, i, j) && j != b
    ensures Outbids(hs.(items := hs.items[b := hs.items[b].(factor := factor)]), keyhash, i, j)
  {
    Dearer(hs.items[b].factor, factor, hs.mix(keyhash, hs.items[b].low, hs.items[b].high));
  }

  // ---------- one bucket ----------

  /** hseq_hash_which. */
  method HashWhich(hs: HSeq, keyhash: nat) returns (idx: nat)
    requires |hs.items| > 0 && IsSound(hs)
    ensures IsTop(Scores(hs, keyhash), [idx]) && IsAnswer(hs, keyhash, idx) && idx < |hs.items|
  {
    hide Outbids;
    ghost var scores := Scores(hs, keyhash);
    var max := 0.0;
    idx := 0;
    var i := 0;
    while i < |hs.items|
      invariant i <= |hs.items| && (idx < i || idx == 0)
      invariant i == 0 ==> max == 0.0
      invariant i > 0 ==> max == scores[idx]
      invariant forall j :: 0 <= j < i && j != idx ==> scores[j] < scores[idx] || (scores[j] == scores[idx] && idx < j)
    {
      var x := Score(hs, keyhash, i);
      assert x == scores[i];
      BidIsNotNegative(hs.items[i].factor, hs.mix(keyhash, hs.items[i].low, hs.items[i].high));
      if x > max {
        max := x;
        idx := i;
      }
      i := i + 1;
    }
    OrderedTop(scores, [idx]);
    TopIsRow(hs, keyhash, [idx]);
    FirstOfRow(hs, keyhash, idx);
  }

  // ---------- the best k ----------

  ghost predicate Holds(s: seq<Slot>, i: nat) {
    exists p :: 0 <= p < |s| && s[p].idx == i
  }

  /** The slots hold buckets among the first n, with their scores, each once. */
  ghost predicate Faithful(scores: seq<real>, s: seq<Slot>, n: nat) {
    && n <= |scores|
    && (forall p :: 0 <= p < |s| ==> s[p].idx < n && s[p].x == scores[s[p].idx])
    && (forall p, q :: 0 <= p < q < |s| ==> s[p].idx != s[q].idx)
  }

  /** The slots hold the best of the first n buckets: everything else comes after them. */
  ghost predicate Best(scores: seq<real>, s: seq<Slot>, n: nat) {
    && Faithful(scores, s, n)
    && forall p, j: nat :: 0 <= p < |s| && j < n && !Holds(s, j) ==> Greater(s[p], Slot(scores[j], j))
  }

  /** Reordering the slots changes nothing of this. */
  lemma BestIsOrderless(scores: seq<real>, s: seq<Slot>, t: seq<Slot>, n: nat)
    requires Best(scores, s, n) && multiset(t) == multiset(s)
    ensures Best(scores, t, n)
  {
    forall p | 0 <= p < |t| ensures t[p] in s {
      assert t[p] in multiset(t);
    }
    forall p | 0 <= p < |s| ensures s[p] in t {
      assert s[p] in multiset(s);
    }
    forall p, q | 0 <= p < q < |t| ensures t[p].idx != t[q].idx {
      if t[p] == t[q] {
        TwiceInMultiset(t, p, q);
        OnceInMultiset(s, t[p]);
      }
    }
    forall j: nat | Holds(s, j) ensures Holds(t, j) {
      var p :| 0 <= p < |s| && s[p].idx == j;
      assert s[p] in t;
    }
  }

  lemma TwiceInMultiset(t: seq<Slot>, p: nat, q: nat)
    requires p < q < |t| && t[p] == t[q]
    ensures multiset(t)[t[p]] >= 2
  {
    assert t == t[..q] + [t[q]] + t[q + 1..];
    assert t[..q][p] in multiset(t[..q]);
  }

  lemma {:induction false} OnceInMultiset(s: seq<Slot>, x: Slot)
    requires forall p, q :: 0 <= p < q < |s| ==> s[p].idx != s[q].idx
    ensures multiset(s)[x] <= 1
  {
    if s != [] {
      var last := |s| - 1;
      OnceInMultiset(s[..last], x);
      assert s == s[..last] + [s[last]];
      assert s[last] !in s[..last];
    }
  }

  /** The sorted slots of the best k are the beginning of the full sort. */
  lemma SortedBestIsTop(scores: seq<real>, s: seq<Slot>, r: seq<nat>)
    requires Best(scores, s, |scores|) && Sorted(s, Greater)
    requires |r| == |s| && forall p :: 0 <= p < |s| ==> r[p] == s[p].idx
    ensures IsTop(scores, r)
  {
    forall p, q | 0 <= p < q < |r| ensures Precedes(scores, r[p], r[q]) {
      assert !Greater(s[q], s[p]);
    }
    forall p, j: nat | 0 <= p < |r| && j < |scores| && j !in r ensures Precedes(scores, r[p], j) {
      forall q | 0 <= q < |s| ensures s[q].idx != j {
        assert r[q] in r;
      }
    }
    OrderedTop(scores, r);
  }

  ghost predicate HoldsAll(s: seq<Slot>, n: nat) {
    forall j: nat {:trigger Holds(s, j)} :: j < n ==> Holds(s, j)
  }

  /** The slots while the first k buckets are collected. */
  lemma CollectedIsBest(scores: seq<real>, s: seq<Slot>, n: nat)
    requires n < |scores| && |s| == n && Best(scores, s, n)
    requires HoldsAll(s, n)
    ensures Best(scores, s + [Slot(scores[n], n)], n + 1) && HoldsAll(s + [Slot(scores[n], n)], n + 1)
  {
    var t := s + [Slot(scores[n], n)];
    forall j: nat | j < n + 1 ensures Holds(t, j) {
      if j < n {
        assert Holds(s, j);
        var p :| 0 <= p < |s| && s[p].idx == j;
        assert t[p].idx == j;
      } else {
        assert t[n].idx == j;
      }
    }
  }

  /** A bucket that does not beat the worst of the best stays outside. */
  lemma LoserStaysOut(scores: seq<real>, s: seq<Slot>, n: nat)
    requires n < |scores| && |s| > 0 && Best(scores, s, n) && IsHeap(s, |s|, Greater)
    requires scores[n] <= s[0].x
    ensures Best(scores, s, n + 1)
  {
    forall p | 0 <= p < |s| ensures Greater(s[p], Slot(scores[n], n)) {
      RootIsLargest(s, |s|, Greater, p);
    }
  }

  /** A bucket that beats it takes its slot. */
  lemma WinnerComesIn(scores: seq<real>, s: seq<Slot>, n: nat)
    requires n < |scores| && |s| > 0 && Best(scores, s, n) && IsHeap(s, |s|, Greater)
    requires scores[n] > s[0].x
    ensures Best(scores, s[0 := Slot(scores[n], n)], n + 1)
  {
    var winner := Slot(scores[n], n);
    var t := s[0 := winner];
    forall p, j: nat | 0 <= p < |t| && j < n + 1 && !Holds(t, j) ensures Greater(t[p], Slot(scores[j], j)) {
      assert t[0].idx == n;
      if j == s[0].idx {
        RootIsLargest(s, |s|, Greater, p);
      } else {
        assert !Holds(s, j) by {
          forall q | 0 <= q < |s| ensures s[q].idx != j {
            assert q > 0 ==> t[q].idx == s[q].idx;
          }
        }
        assert Greater(s[p], Slot(scores[j], j)) && Greater(s[0], Slot(scores[j], j));
      }
    }
  }

  /** The two loops that leave the best k in a heap, the worst of them first. */
  method SelectBest(hs: HSeq, keyhash: nat, k: nat) returns (res: array<Slot>)
    requires 0 < k <= |hs.items|
    ensures fresh(res) && res.Length == k
    ensures IsHeap(res[..], k, Greater) && Best(Scores(hs, keyhash), res[..], |hs.items|)
  {
    hide Best;
    hide HoldsAll;
    res := new Slot[k](_ => Slot(0.0, 0));
    var i := 0;
    NoneIsBest(hs, keyhash, res[..i]);
    while i < k
      invariant i <= k
      invariant IsHeap(res[..], i, Greater) && Best(Scores(hs, keyhash), res[..i], i) && HoldsAll(res[..i], i)
    {
      Collect(hs, keyhash, res, i);
      i := i + 1;
    }
    assert res[..k] == res[..];
    while i < |hs.items|
      invariant k <= i <= |hs.items|
      invariant IsHeap(res[..], k, Greater) && Best(Scores(hs, keyhash), res[..], i)
    {
      Offer(hs, keyhash, res, i);
      i := i + 1;
    }
  }

  lemma NoneIsBest(hs: HSeq, keyhash: nat, s: seq<Slot>)
    requires s == []
    ensures Best(Scores(hs, keyhash), s, 0) && HoldsAll(s, 0)
  {
  }

  /** hseq_hash_sequence; the buckets go to `seqs`, and n says how many. */
  method HashSequence(hs: HSeq, keyhash: nat, seqs: array<nat>, seqsNum: int) returns (n: nat)
    requires seqsNum <= seqs.Length
    modifies seqs
    ensures n == if seqsNum <= 0 then 0 else if seqsNum > |hs.items| then |hs.items| else seqsNum
    ensures IsTop(Scores(hs, keyhash), seqs[..n]) && IsRow(hs, keyhash, seqs[..n])
    ensures seqs[n..] == old(seqs[n..])
  {
    hide Best;
    hide IsRow;
    n := if seqsNum <= 0 then 0 else if seqsNum > |hs.items| then |hs.items| else seqsNum;
    if n == 0 {
      TopIsRow(hs, keyhash, seqs[..n]);
      return;
    }
    var res := SelectBest(hs, keyhash, n);
    ghost var heap := res[..];
    GreaterIsOrder();
    HeapSort(res, Greater);
    ghost var sorted := res[..];
    BestIsOrderless(Scores(hs, keyhash), heap, sorted, |hs.items|);
    var i := 0;
    while i < n
      invariant i <= n && res[..] == sorted
      invariant forall p :: 0 <= p < i ==> seqs[p] == res[p].idx
      invariant seqs[n..] == old(seqs[n..])
    {
      seqs[i] := res[i].idx;
      i := i + 1;
    }
    SortedBestIsTop(Scores(hs, keyhash), sorted, seqs[..n]);
    TopIsRow(hs, keyhash, seqs[..n]);
  }

  /** Put bucket i, one of the first k, into the heap. */
  method Collect(hs: HSeq, keyhash: nat, res: array<Slot>, i: nat)
    requires i < res.Length <= |hs.items|
    requires IsHeap(res[..], i, Greater) && Best(Scores(hs, keyhash), res[..i], i)
    requires HoldsAll(res[..i], i)
    modifies res
    ensures IsHeap(res[..], i + 1, Greater) && Best(Scores(hs, keyhash), res[..i + 1], i + 1)
    ensures HoldsAll(res[..i + 1], i + 1)
  {
    hide Best;
    hide HoldsAll;
    hide IsHeap;
    hide StrictTotalOrder;
    ghost var scores, s := Scores(hs, keyhash), res[..i];
    GreaterIsOrder();
    CollectedIsBest(scores, s, i);
    NewLeaf(res[..], i, Slot(Score(hs, keyhash, i), i));
    res[i] := Slot(Score(hs, keyhash, i), i);
    ghost var whole := res[..];
    assert whole[..i + 1] == s + [Slot(scores[i], i)];
    FixUp(res, i, Greater);
    PermutedPrefix(whole, res[..], i + 1);
    BestIsOrderless(scores, whole[..i + 1], res[..i + 1], i + 1);
    HoldsAllIsOrderless(whole[..i + 1], res[..i + 1], i + 1);
  }

  lemma NewLeaf(s: seq<Slot>, i: nat, x: Slot)
    requires i < |s| && IsHeap(s, i, Greater)
    ensures IsHeap(s[i := x], i, Greater)
  {
  }

  lemma HoldsAllIsOrderless(s: seq<Slot>, t: seq<Slot>, n: nat)
    requires multiset(t) == multiset(s) && HoldsAll(s, n)
    ensures HoldsAll(t, n)
  {
    forall j: nat | j < n ensures Holds(t, j) {
      assert Holds(s, j);
      var p :| 0 <= p < |s| && s[p].idx == j;
      assert s[p] in multiset(s) && s[p] in t;
    }
  }

  /** Offer bucket i to the heap of the best so far. */
  method Offer(hs: HSeq, keyhash: nat, res: array<Slot>, i: nat)
    requires res.Length > 0 && i < |hs.items|
    requires IsHeap(res[..], res.Length, Greater) && Best(Scores(hs, keyhash), res[..], i)
    modifies res
    ensures IsHeap(res[..], res.Length, Greater) && Best(Scores(hs, keyhash), res[..], i + 1)
  {
    hide Best;
    ghost var scores := Scores(hs, keyhash);
    GreaterIsOrder();
    var x := Score(hs, keyhash, i);
    assert x == scores[i];
    if x > res[0].x {
      WinnerComesIn(scores, res[..], i);
      NewRoot(res[..], Slot(x, i));
      res[0] := Slot(x, i);
      ghost var whole := res[..];
      assert whole == old(res[..])[0 := Slot(scores[i], i)];
      FixDown(res, 0, res.Length, Greater);
      BestIsOrderless(scores, whole, res[..], i + 1);
    } else {
      LoserStaysOut(scores, res[..], i);
    }
  }

  lemma NewRoot(s: seq<Slot>, x: Slot)
    requires |s| > 0 && IsHeap(s, |s|, Greater)
    ensures HeapFrom(s[0 := x], 1, |s|, Greater)
  {
  }

  // ---------- consequences ----------

  /** The first of the sequence is the single answer. */
  lemma FirstIsWhich(scores: seq<real>, r: seq<nat>, idx: nat)
    requires IsTop(scores, r) && r != [] && IsTop(scores, [idx])
    ensures r[0] == idx
  {
    TopIsPrefix(scores, [idx], r);
  }

  /** What is left without the d-th, and where the others have moved. */
  ghost function Deleted<T>(s: seq<T>, d: nat): seq<T>
    requires d < |s|
  {
    s[..d] + s[d + 1..]
  }

  ghost function Moved(d: nat, i: nat): nat {
    if i < d then i else if i > 0 then i - 1 else 0
  }

  /** Without one score the others keep their order: each keeps its place, or moves up by one when
      the one left out was in front of it. */
  lemma DeletionKeepsRanks(scores: seq<real>, d: nat, i: nat)
    requires d < |scores| && i < |scores| && i != d
    ensures Moved(d, i) < |scores| - 1
    ensures Rank(Deleted(scores, d), Moved(d, i)) == Rank(scores, i) - if Precedes(scores, d, i) then 1 else 0
  {
    var rest := Deleted(scores, d);
    var better := Better(scores, i) - {d};
    var moved := Better(rest, Moved(d, i));
    forall j: nat | j < |scores| && j != d
      ensures Moved(d, j) < |rest| && rest[Moved(d, j)] == scores[j]
      ensures j in better <==> Moved(d, j) in moved
    {
    }
    SameSize(d, better, moved, |scores|);
  }

  /** Moving the indices is one to one. */
  lemma {:induction false} SameSize(d: nat, a: set<nat>, b: set<nat>, n: nat)
    requires d < n && d !in a
    requires forall j :: j in a ==> j < n
    requires forall j :: j in b ==> j < n - 1
    requires forall j: nat :: j < n && j != d ==> (j in a <==> Moved(d, j) in b)
    ensures |a| == |b|
    decreases |a|
  {
    if a == {} {
      forall k: nat | k < n - 1 ensures k !in b {
        assert Moved(d, if k < d then k else k + 1) == k;
      }
      assert b == {};
    } else {
      var j :| j in a;
      forall k: nat | k < n && k != d ensures k in a - {j} <==> Moved(d, k) in b - {Moved(d, j)} {
      }
      SameSize(d, a - {j}, b - {Moved(d, j)}, n);
    }
  }

  /** A table of equal weights that is created without one of its buckets gives every other
      bucket the score it had. */
  lemma ScoresStay(buckets: seq<Bucket>, factor: (seq<Bucket>, nat) -> real, mix: (nat, nat, nat) -> nat,
                   d: nat, keyhash: nat)
    requires d < |buckets| && EqualWeights(buckets)
    ensures Scores(Created(Deleted(buckets, d), factor, mix), keyhash)
         == Deleted(Scores(Created(buckets, factor, mix), keyhash), d)
  {
    var rest := Deleted(buckets, d);
    forall i | 0 <= i < |rest| ensures rest[i] == buckets[if i < d then i else i + 1] {
    }
    assert EqualWeights(rest);
  }

  /** Deleting a bucket from a table of equal weights keeps the order of the others for every
      key: each keeps its place in the ranking, or moves up by one when the deleted bucket was in
      front of it. */
  lemma DeletionKeepsOrder(buckets: seq<Bucket>, factor: (seq<Bucket>, nat) -> real, mix: (nat, nat, nat) -> nat,
                           d: nat, keyhash: nat, i: nat)
    requires d < |buckets| && EqualWeights(buckets) && i < |buckets| && i != d
    ensures var before := Scores(Created(buckets, factor, mix), keyhash);
      var after := Scores(Created(Deleted(buckets, d), factor, mix), keyhash);
      && Moved(d, i) < |after| && |before| == |buckets|
      && Rank(after, Moved(d, i)) == Rank(before, i) - if Precedes(before, d, i) then 1 else 0
  {
    ScoresStay(buckets, factor, mix, d, keyhash);
    hide Rank;
    hide Precedes;
    DeletionKeepsRanks(Scores(Created(buckets, factor, mix), keyhash), d, i);
  }

  /** So only the keys of the deleted bucket get another answer. */
  lemma DeletionMovesOnlyOwnKeys(buckets: seq<Bucket>, factor: (seq<Bucket>, nat) -> real,
                                 mix: (nat, nat, nat) -> nat, d: nat, keyhash: nat, idx: nat, answer: nat)
    requires d < |buckets| && EqualWeights(buckets)
    requires IsTop(Scores(Created(buckets, factor, mix), keyhash), [idx])
    requires IsTop(Scores(Created(Deleted(buckets, d), factor, mix), keyhash), [answer])
    ensures idx != d ==> answer == Moved(d, idx)
  {
    var scores := Scores(Created(buckets, factor, mix), keyhash);
    ScoresStay(buckets, factor, mix, d, keyhash);
    assert |scores| == |buckets|;
    hide Created;
    assert [idx][0] == idx && [answer][0] == answer;
    if idx != d {
      DeletionKeepsRanks(scores, d, idx);
      RankFollowsOrder(scores, d, idx);
      RankFollowsOrder(Deleted(scores, d), answer, Moved(d, idx));
    }
  }
}
