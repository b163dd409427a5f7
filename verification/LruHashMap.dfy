/** LruHashMap.h: hash chains crossed with a tail queue over the same nodes. */
module LruHashMaps {
  import opened Bounds
  import opened Sequences
  import opened TailQueues
  import opened RecencyLists

  ghost function EntriesOf<K, D>(nodes: seq<Node<K, D>>): (r: Entries<K, D>)
    reads nodes
    ensures |r| == |nodes|
    ensures forall i {:trigger r[i]} :: 0 <= i < |r| ==> r[i] == Entry(nodes[i].key, nodes[i].data)
  {
    if nodes == [] then []
    else
      var last := nodes[|nodes| - 1];
      EntriesOf(nodes[..|nodes| - 1]) + [Entry(last.key, last.data)]
  }

  lemma LastIsTouched<T>(s: seq<T>, i: nat)
    requires Distinct(s) && i < |s| && s[i] == s[|s| - 1]
    ensures Touched(s, i) == s
  {
    assert i == |s| - 1;
  }

  lemma FirstIsFront<T>(s: seq<T>, i: nat)
    requires Distinct(s) && i < |s| && s[i] == s[0]
    ensures [s[i]] + Without(s, i) == s
  {
    assert i == 0;
  }

  class LruHashMap<K(==), D> {
    const hashFun: K -> nat
    const tab: array<Node?<K, D>>
    const lru: TailQueue<K, D>
    const maxSize: nat
    var total: nat
    ghost var chains: seq<seq<Node<K, D>>>

    /** `hash & _mask`, for a table whose size is the mask plus one. */
    function Bucket(hash: nat): (b: nat)
      requires tab.Length > 0
      ensures b < tab.Length
    {
      hash % tab.Length
    }

    /** The links of one bucket agree with its chain, and the hashes with the bucket. */
    ghost predicate Hooked(b: nat)
      reads this, tab, if b < |chains| then chains[b] else []
    {
      && b < |chains| == tab.Length
      && Distinct(chains[b])
      && tab[b] == (if |chains[b]| > 0 then chains[b][0] else null)
      && forall i {:trigger chains[b][i]} :: 0 <= i < |chains[b]| ==>
           Bucket(chains[b][i].hash) == b && chains[b][i].hashNext == After(chains[b], i)
    }

    /** The chains hold the nodes of `nodes`, each once, in the bucket of its hash. */
    ghost predicate Chained(nodes: set<Node<K, D>>)
      reads this, tab, nodes
    {
      && |chains| == tab.Length > 0
      && (forall b, i :: 0 <= b < |chains| && 0 <= i < |chains[b]| ==> chains[b][i] in nodes)
      && (forall b :: 0 <= b < |chains| ==> Hooked(b))
      && (forall n :: n in nodes ==> n in chains[Bucket(n.hash)])
    }

    ghost predicate Valid()
      reads this, tab, lru, lru.Members()
    {
      && lru.Valid()
      && Chained(lru.Members())
      && (forall n :: n in lru.order ==> n.hash == hashFun(n.key))
      && (forall n, m :: n in lru.order && m in lru.order && n != m ==> n.key != m.key)
      && total == |lru.order| <= maxSize
      && maxSize >= 1
    }

    constructor (hashFun: K -> nat, buckets: nat, maxSize: nat)
      requires buckets >= 1 && maxSize >= 1
      ensures Valid() && lru.order == [] && this.maxSize == maxSize && fresh(tab) && fresh(lru)
    {
      this.hashFun := hashFun;
      tab := new Node?<K, D>[buckets](_ => null);
      lru := new TailQueue<K, D>();
      this.maxSize := maxSize;
      total := 0;
      chains := seq(buckets, _ => []);
    }

    /** The loop over a hash chain that every operation starts with. */
    method Search(key: K) returns (node: Node?<K, D>, prev: Node?<K, D>, ghost i: nat)
      requires Valid()
      ensures node == null ==> forall n :: n in lru.order ==> n.key != key
      ensures node != null ==>
        var chain := chains[Bucket(node.hash)];
        && node in lru.order && node.key == key && i < |chain| && chain[i] == node
        && prev == if i > 0 then chain[i - 1] else null
    {
      var hash := hashFun(key);
      var bkt := Bucket(hash);
      ghost var chain := chains[bkt];
      node, prev, i := tab[bkt], null, 0;
      assert Hooked(bkt);
      while node != null
        invariant i <= |chain|
        invariant node == if i < |chain| then chain[i] else null
        invariant prev == if i > 0 then chain[i - 1] else null
        invariant forall j :: 0 <= j < i ==> chain[j].key != key
        decreases |chain| - i
      {
        assert chains[bkt][i] == node && node in lru.Members();
        if node.hash == hash && node.key == key {
          return;
        }
        assert chains[bkt][i].hashNext == node.hashNext;
        prev := node;
        node := node.hashNext;
        i := i + 1;
      }
      forall n | n in lru.order ensures n.key != key {
        assert n in lru.Members() && n in chains[Bucket(n.hash)];
      }
    }

    /** What a walk along the chain of a node meets. */
    lemma BucketOf(nodes: set<Node<K, D>>, node: Node<K, D>)
      requires Chained(nodes) && node in nodes
      ensures var b := Bucket(node.hash);
        && b < |chains| == tab.Length && node in chains[b] && Distinct(chains[b])
        && tab[b] == chains[b][0]
        && forall i {:trigger chains[b][i]} :: 0 <= i < |chains[b]| ==>
             chains[b][i] in nodes && Bucket(chains[b][i].hash) == b && chains[b][i].hashNext == After(chains[b], i)
    {
      assert Hooked(Bucket(node.hash));
    }

    lemma BucketsAreApart(nodes: set<Node<K, D>>, b: nat)
      requires Chained(nodes) && b < |chains|
      ensures forall c, k :: 0 <= c < |chains| && c != b && 0 <= k < |chains[c]| ==> chains[c][k] !in chains[b]
    {
      forall c, k | 0 <= c < |chains| && c != b && 0 <= k < |chains[c]| ensures chains[c][k] !in chains[b] {
        assert Hooked(c) && Hooked(b);
        assert Bucket(chains[c][k].hash) == c;
      }
    }

    /** Other buckets than the one that is written stay as they are. */
    twostate lemma OtherBuckets(b: nat)
      requires |chains| == |old(chains)| == tab.Length
      requires forall c :: 0 <= c < |chains| ==> old(Hooked(c))
      requires forall c :: 0 <= c < |chains| && c != b ==> chains[c] == old(chains)[c] && tab[c] == old(tab[c])
      requires forall c, k :: 0 <= c < |chains| && c != b && 0 <= k < |chains[c]| ==>
        var n := old(chains)[c][k]; n.hash == old(n.hash) && n.hashNext == old(n.hashNext)
      ensures forall c :: 0 <= c < |chains| && c != b ==> Hooked(c)
    {
      forall c | 0 <= c < |chains| && c != b ensures Hooked(c) {
        assert old(Hooked(c));
      }
    }

    /** The i-th node of what was the chain of the bucket is skipped. */
    lemma ShorterBucket(b: nat, was: seq<Node<K, D>>, i: nat)
      requires b < |chains| == tab.Length && Distinct(was) && i < |was| && chains[b] == Without(was, i)
      requires tab[b] == if i == 0 then After(was, 0) else was[0]
      requires forall k {:trigger was[k]} :: 0 <= k < |was| ==>
        Bucket(was[k].hash) == b && was[k].hashNext == After(was, if k + 1 == i then i else k)
      ensures Hooked(b)
    {
      hide Without;
      WithoutIsDistinct(was, i);
      if |was| > 1 {
        NeighboursWithout(was, i, 0);
      }
      forall k | 0 <= k < |chains[b]|
        ensures Bucket(chains[b][k].hash) == b && chains[b][k].hashNext == After(chains[b], k)
      {
        NeighboursWithout(was, i, k);
        assert chains[b][k] == was[if k < i then k else k + 1];
      }
    }

    /** The chains hold what they held before but for the one node. */
    lemma NodeIsUnchained(nodes: set<Node<K, D>>, was: seq<seq<Node<K, D>>>, b: nat, i: nat)
      requires b < |was| == tab.Length && i < |was[b]| && Distinct(was[b])
      requires chains == was[b := Without(was[b], i)] && forall c :: 0 <= c < |chains| ==> Hooked(c)
      requires forall c, k :: 0 <= c < |was| && 0 <= k < |was[c]| ==> was[c][k] in nodes
      requires Bucket(was[b][i].hash) == b && forall n :: n in nodes ==> n in was[Bucket(n.hash)]
      ensures Chained(nodes - {was[b][i]})
    {
      hide Distinct;
      hide Without;
      WithoutIsDistinct(was[b], i);
      forall c, k | 0 <= c < |chains| && 0 <= k < |chains[c]| ensures chains[c][k] in nodes - {was[b][i]} {
        assert Hooked(c) && chains[c][k] in chains[c] && chains[c][k] in was[c];
      }
    }

    /** Link the nodes on both sides of the i-th one of a chain. */
    method Skip(ghost nodes: set<Node<K, D>>, bkt: nat, node: Node<K, D>, prev: Node?<K, D>, ghost i: nat)
      requires Chained(nodes) && node in nodes && bkt == Bucket(node.hash)
      requires i < |chains[bkt]| && chains[bkt][i] == node && prev == if i > 0 then chains[bkt][i - 1] else null
      modifies this`chains, tab, nodes`hashNext
      ensures chains == old(chains)[bkt := Without(old(chains)[bkt], i)]
      ensures forall b :: 0 <= b < |chains| ==> Hooked(b)
    {
      hide Without;
      hide LruHashMap.Hooked;
      BucketOf(nodes, node);
      BucketsAreApart(nodes, bkt);
      ghost var was := chains[bkt];
      if prev != null {
        prev.hashNext := node.hashNext;
      } else {
        tab[bkt] := node.hashNext;
      }
      chains := chains[bkt := Without(was, i)];
      ShorterBucket(bkt, was, i);
      OtherBuckets(bkt);
    }

    /** Take the i-th node out of its chain. */
    method Unchain(ghost nodes: set<Node<K, D>>, node: Node<K, D>, prev: Node?<K, D>, ghost i: nat)
      requires Chained(nodes) && node in nodes
      requires var chain := chains[Bucket(node.hash)];
        i < |chain| && chain[i] == node && prev == if i > 0 then chain[i - 1] else null
      modifies this`chains, tab, nodes`hashNext
      ensures Chained(nodes - {node})
    {
      hide Without;
      hide LruHashMap.Hooked;
      BucketOf(nodes, node);
      ghost var bkt, was := Bucket(node.hash), chains;
      Skip(nodes, Bucket(node.hash), node, prev, i);
      NodeIsUnchained(nodes, was, bkt, i);
    }

    lemma ChainOf(b: nat)
      requires Hooked(b)
      ensures b < |chains| == tab.Length && Distinct(chains[b])
      ensures tab[b] == if |chains[b]| > 0 then chains[b][0] else null
      ensures forall k {:trigger chains[b][k]} :: 0 <= k < |chains[b]| ==>
        Bucket(chains[b][k].hash) == b && chains[b][k].hashNext == After(chains[b], k)
    {
    }

    /** A node stands in front of what was the chain of the bucket. */
    lemma LongerBucket(b: nat, was: seq<Node<K, D>>, node: Node<K, D>)
      requires b < |chains| == tab.Length && Distinct(was) && node !in was && chains[b] == [node] + was
      requires tab[b] == node && Bucket(node.hash) == b && node.hashNext == if |was| > 0 then was[0] else null
      requires forall k {:trigger was[k]} :: 0 <= k < |was| ==>
        Bucket(was[k].hash) == b && was[k].hashNext == After(was, k)
      ensures Hooked(b)
    {
      forall k | 0 < k < |chains[b]|
        ensures Bucket(chains[b][k].hash) == b && chains[b][k].hashNext == After(chains[b], k)
      {
        assert chains[b][k] == was[k - 1];
      }
    }

    /** Put a node in front of the chain of its hash. */
    method Link(ghost nodes: set<Node<K, D>>, node: Node<K, D>)
      requires Chained(nodes) && node !in nodes
      modifies this`chains, tab, node`hashNext
      ensures Chained(nodes + {node})
    {
      hide LruHashMap.Hooked;
      var bkt := Bucket(node.hash);
      ghost var before, was := chains, chains[bkt];
      assert Hooked(bkt);
      ChainOf(bkt);
      node.hashNext := tab[bkt];
      tab[bkt] := node;
      chains := chains[bkt := [node] + was];
      LongerBucket(bkt, was, node);
      OtherBuckets(bkt);
      assert forall b :: 0 <= b < |chains| ==> forall n :: n in before[b] ==> n in chains[b];
    }

    /** The map as a list of entries, the stalest first. */
    ghost function Contents(): (r: Entries<K, D>)
      reads this, tab, lru, lru.Members()
      requires Valid()
      ensures UniqueKeys(r) && |r| == total <= maxSize
    {
      EntriesOf(lru.order)
    }

    /** The position of a node is that of its key. */
    lemma NodePosition(node: Node<K, D>)
      requires Valid() && node in lru.order
      ensures Position(Contents(), node.key) == Index(lru.order, node)
    {
      var i := Index(lru.order, node);
      assert Contents()[i] == Entry(node.key, node.data);
    }

    lemma NoPosition(key: K)
      requires Valid() && forall n :: n in lru.order ==> n.key != key
      ensures Position(Contents(), key) == |Contents()|
    {
      forall i | 0 <= i < |Contents()| ensures Contents()[i].key != key {
        assert lru.order[i] in lru.order;
      }
    }

    /** The tail queue's links are no part of the chains. */
    twostate lemma ChainsKept(nodes: set<Node<K, D>>)
      requires old(Chained(nodes)) && chains == old(chains) && unchanged(tab)
      requires forall n :: n in nodes ==> n.hash == old(n.hash) && n.hashNext == old(n.hashNext)
      ensures Chained(nodes)
    {
      forall b | 0 <= b < |chains| ensures Hooked(b) {
        assert old(Hooked(b));
      }
      forall n | n in nodes ensures n in chains[Bucket(n.hash)] {
        assert n in old(chains)[old(Bucket(n.hash))];
      }
    }

    /** Reordering the tail queue leaves the rest of the structure alone. */
    twostate lemma Reordered()
      requires old(Valid()) && lru.Valid() && |lru.order| == old(|lru.order|)
      requires lru.Members() == old(lru.Members())
      requires chains == old(chains) && total == old(total) && unchanged(tab)
      requires forall n :: n in old(lru.order) ==> n.hash == old(n.hash) && n.hashNext == old(n.hashNext)
      ensures Valid()
    {
      assert forall n :: n in lru.order <==> n in lru.Members();
      assert forall n :: n in old(lru.order) <==> n in old(lru.Members());
      ChainsKept(lru.Members());
    }

    /** Make a node the freshest: fresh_node, and the end of use and replace. */
    method FreshNode(node: Node<K, D>)
      requires Valid() && node in lru.order
      modifies lru, lru.Members()`tqeNext, lru.Members()`tqePrev
      ensures Valid() && lru.Members() == old(lru.Members())
      ensures lru.order == Touched(old(lru.order), Index(old(lru.order), node))
      ensures Contents() == RecencyLists.Use(old(Contents()), node.key)
    {
      ghost var was, i := lru.order, Index(lru.order, node);
      NodePosition(node);
      hide Index;
      hide Position;
      hide LruHashMap.Chained;
      var last := lru.Last();
      if node != last {
        lru.MoveToTail(node);
        Reordered();
      } else {
        LastIsTouched(was, i);
      }
      ContentsTouched(i);
    }

    /** stale_node. */
    method StaleNode(node: Node<K, D>)
      requires Valid() && node in lru.order
      modifies lru, lru.Members()`tqeNext, lru.Members()`tqePrev
      ensures Valid() && lru.Members() == old(lru.Members())
      ensures lru.order == [node] + Without(old(lru.order), Index(old(lru.order), node))
      ensures Contents() == Stale(old(Contents()), node.key)
    {
      ghost var was, i := lru.order, Index(lru.order, node);
      NodePosition(node);
      hide Index;
      hide Position;
      hide LruHashMap.Chained;
      if node != lru.first {
        lru.MoveToHead(node);
        Reordered();
      } else {
        FirstIsFront(was, i);
      }
      ContentsStaled(i);
    }

    twostate lemma ContentsStaled(i: nat)
      requires old(Valid()) && Valid() && i < old(|lru.order|)
      requires lru.order == [old(lru.order)[i]] + Without(old(lru.order), i)
      requires forall n :: n in old(lru.order) ==> n.data == old(n.data)
      ensures Contents() == [old(Contents())[i]] + Without(old(Contents()), i)
    {
      ghost var was := old(lru.order);
      SameEntries(was);
      EntriesOfWithout(was, i);
      EntriesOfPrepend(was[i], Without(was, i));
    }

    /** Take a node out of both structures. */
    method Delete(node: Node<K, D>, prev: Node?<K, D>, ghost i: nat)
      requires Valid() && node in lru.order
      requires var chain := chains[Bucket(node.hash)];
        i < |chain| && chain[i] == node && prev == if i > 0 then chain[i - 1] else null
      modifies this, tab, lru, lru.Members()`hashNext, lru.Members()`tqeNext, lru.Members()`tqePrev
      ensures Valid() && lru.order == Without(old(lru.order), Index(old(lru.order), node))
      ensures total == old(total) - 1
    {
      hide Index;
      hide Without;
      hide EntriesOf;
      hide Distinct;
      hide LruHashMap.Chained;
      hide TailQueue.Valid;
      ghost var was, k := lru.order, Index(lru.order, node);
      Unchain(lru.Members(), node, prev, i);
      lru.LinksKept();
      label unchained:
      lru.Remove(node);
      total := total - 1;
      WithoutIsDistinct(was, k);
      assert lru.Members() == old(lru.Members()) - {node};
      ChainsKept@unchained(lru.Members());
      assert Valid() by {
        assert forall n :: n in lru.order ==> n in was;
      }
    }

    twostate lemma ContentsWithout(i: nat)
      requires old(Valid()) && Valid() && i < old(|lru.order|)
      requires lru.order == Without(old(lru.order), i)
      requires forall n :: n in old(lru.order) ==> n.data == old(n.data)
      ensures Contents() == Without(old(Contents()), i)
    {
      SameEntries(old(lru.order));
      EntriesOfWithout(old(lru.order), i);
    }

    /** remove_node: find the node in its chain by address. */
    method RemoveNode(theNode: Node<K, D>)
      requires Valid() && theNode in lru.order
      modifies this, tab, lru, lru.Members()`hashNext, lru.Members()`tqeNext, lru.Members()`tqePrev
      ensures Valid() && lru.order == Without(old(lru.order), Index(old(lru.order), theNode))
      ensures Contents() == Without(old(Contents()), Index(old(lru.order), theNode))
      ensures Contents() == RecencyLists.Remove(old(Contents()), theNode.key)
      ensures total == old(total) - 1
    {
      hide Position;
      hide Index;
      hide Distinct;
      hide LruHashMap.Chained;
      hide LruHashMap.Hooked;
      hide EntriesOf;
      hide TailQueue.Valid;
      NodePosition(theNode);
      BucketOf(lru.Members(), theNode);
      var bkt := Bucket(theNode.hash);
      ghost var chain, i := chains[bkt], 0;
      var node, prev: Node?<K, D> := tab[bkt], null;
      while node != theNode
        invariant i < |chain| && node == chain[i]
        invariant prev == if i > 0 then chain[i - 1] else null
        invariant theNode in chain[i..]
        decreases |chain| - i
      {
        assert chains[bkt][i].hashNext == node.hashNext == After(chain, i);
        prev := node;
        node := node.hashNext;
        i := i + 1;
      }
      Delete(theNode, prev, i);
      ContentsWithout(Index(old(lru.order), theNode));
    }

    twostate lemma ContentsTouched(i: nat)
      requires old(Valid()) && Valid() && i < old(|lru.order|)
      requires lru.order == Touched(old(lru.order), i)
      requires forall n :: n in old(lru.order) ==> n.data == old(n.data)
      ensures Contents() == Touched(old(Contents()), i)
    {
      ghost var was := old(lru.order);
      SameEntries(was);
      EntriesOfWithout(was, i);
      EntriesOfAppend(Without(was, i), was[i]);
    }

    method Find(key: K) returns (node: Node?<K, D>)
      requires Valid()
      ensures node == null <==> Position(Contents(), key) == |Contents()|
      ensures node != null ==> node in lru.order && Contents()[Position(Contents(), key)] == Entry(node.key, node.data)
    {
      hide LruHashMap.Chained;
      hide TailQueue.Valid;
      ghost var i;
      var prev;
      node, prev, i := Search(key);
      if node == null {
        NoPosition(key);
      } else {
        NodePosition(node);
      }
    }

    method Use(key: K) returns (node: Node?<K, D>)
      requires Valid()
      modifies lru, lru.Members()`tqeNext, lru.Members()`tqePrev
      ensures Valid() && Contents() == RecencyLists.Use(old(Contents()), key)
      ensures node == null <==> Position(old(Contents()), key) == |old(Contents())|
      ensures node != null ==> node.key == key && lru.order[|lru.order| - 1] == node
    {
      hide LruHashMap.Chained;
      hide TailQueue.Valid;
      hide Position;
      ghost var i;
      var prev;
      node, prev, i := Search(key);
      if node == null {
        NoPosition(key);
      } else {
        var found: Node<K, D> := node;
        NodePosition(found);
        FreshNode(found);
      }
    }

    /** remove_node on the stale end. */
    method RemoveStalest()
      requires Valid() && total > 0
      modifies this, tab, lru, lru.Members()`hashNext, lru.Members()`tqeNext, lru.Members()`tqePrev
      ensures Valid() && Contents() == old(Contents())[1..] && lru.order == old(lru.order)[1..]
    {
      hide LruHashMap.Chained;
      ghost var was := lru.order;
      RemoveNode(lru.first);
      assert Index(was, was[0]) == 0;
      assert Without(was, 0) == was[1..] && Without(old(Contents()), 0) == old(Contents())[1..];
    }

    /** Put a new node into both structures. */
    method Enter(node: Node<K, D>)
      requires Valid() && node !in lru.order && total < maxSize
      requires node.hash == hashFun(node.key) && forall n :: n in lru.order ==> n.key != node.key
      modifies this, tab, lru, lru.Members()`tqeNext, node`hashNext, node`tqeNext, node`tqePrev
      ensures Valid() && lru.order == old(lru.order) + [node]
    {
      hide LruHashMap.Chained;
      hide TailQueue.Valid;
      ghost var nodes, was := lru.Members(), lru.order;
      lru.InsertTail(node);
      ChainsKept(nodes);
      label queued:
      Link(nodes, node);
      lru.LinksKept@queued();
      label linked:
      total := total + 1;
      assert lru.Members() == nodes + {node};
      ChainsKept@linked(lru.Members());
    }

    twostate lemma ContentsEntered(new node: Node<K, D>)
      requires old(Valid()) && Valid() && lru.order == old(lru.order) + [node]
      requires forall n :: n in old(lru.order) ==> n.data == old(n.data)
      ensures Contents() == old(Contents()) + [Entry(node.key, node.data)]
    {
      SameEntries(old(lru.order));
      EntriesOfAppend(old(lru.order), node);
    }

    /** The end of insert and replace: a new node, for which the stalest one may have to go. */
    method AddNode(key: K, data: D) returns (node: Node<K, D>)
      requires Valid() && forall n :: n in lru.order ==> n.key != key
      modifies this, tab, lru, lru.Members()`hashNext, lru.Members()`tqeNext, lru.Members()`tqePrev
      ensures Valid() && Contents() == Added(old(Contents()), key, data, maxSize)
      ensures fresh(node) && node.key == key && node.data == data && lru.order[|lru.order| - 1] == node
    {
      hide LruHashMap.Chained;
      hide TailQueue.Valid;
      hide EntriesOf;
      if total >= maxSize {
        RemoveStalest();
      }
      label roomy:
      node := new Node(key, data);
      node.hash := hashFun(key);
      Enter(node);
      ContentsEntered@roomy(node);
    }

    method Insert(key: K, data: D) returns (node: Node?<K, D>)
      requires Valid()
      modifies this, tab, lru, lru.Members()`hashNext, lru.Members()`tqeNext, lru.Members()`tqePrev
      ensures Valid() && Contents() == RecencyLists.Insert(old(Contents()), key, data, maxSize)
      ensures node == null <==> Position(old(Contents()), key) < |old(Contents())|
      ensures node != null ==> fresh(node) && node.key == key && node.data == data && lru.order[|lru.order| - 1] == node
    {
      hide LruHashMap.Chained;
      hide TailQueue.Valid;
      hide Position;
      ghost var i;
      var prev;
      node, prev, i := Search(key);
      if node != null {
        NodePosition(node);
        return null;
      }
      NoPosition(key);
      node := AddNode(key, data);
    }

    twostate lemma DataChanged(node: Node<K, D>)
      requires old(Valid()) && node in old(lru.order) && unchanged(this) && unchanged(lru) && unchanged(tab)
      requires forall n :: n in old(lru.order) ==>
        n.hash == old(n.hash) && n.hashNext == old(n.hashNext)
        && n.tqeNext == old(n.tqeNext) && n.tqePrev == old(n.tqePrev)
      requires forall n :: n in old(lru.order) && n != node ==> n.data == old(n.data)
      ensures Valid()
      ensures Contents() == old(Contents())[Index(old(lru.order), node) := Entry(node.key, node.data)]
    {
      hide LruHashMap.Chained;
      ChainsKept(lru.Members());
      lru.LinksKept();
    }

    /** A node gets other data and becomes the freshest. */
    method Overwrite(node: Node<K, D>, data: D)
      requires Valid() && node in lru.order
      modifies lru, lru.Members()`tqeNext, lru.Members()`tqePrev, node`data
      ensures Valid() && Contents() == RecencyLists.Replace(old(Contents()), node.key, data, maxSize)
      ensures node.data == data && lru.order[|lru.order| - 1] == node
    {
      hide LruHashMap.Chained;
      hide TailQueue.Valid;
      hide Position;
      NodePosition(node);
      node.data := data;
      DataChanged(node);
      label changed:
      FreshNode(node);
      ContentsTouched@changed(Index(old(lru.order), node));
    }

    method Replace(key: K, data: D) returns (node: Node<K, D>)
      requires Valid()
      modifies this, tab, lru, lru.Members()`hashNext, lru.Members()`tqeNext, lru.Members()`tqePrev, lru.Members()`data
      ensures Valid() && Contents() == RecencyLists.Replace(old(Contents()), key, data, maxSize)
      ensures node.key == key && node.data == data && lru.order[|lru.order| - 1] == node
    {
      hide LruHashMap.Chained;
      hide TailQueue.Valid;
      hide Position;
      ghost var i;
      var prev;
      var found: Node?<K, D>;
      found, prev, i := Search(key);
      if found == null {
        NoPosition(key);
        node := AddNode(key, data);
        return;
      }
      node := found;
      Overwrite(node, data);
    }

    method Remove(key: K) returns (removed: bool)
      requires Valid()
      modifies this, tab, lru, lru.Members()`hashNext, lru.Members()`tqeNext, lru.Members()`tqePrev
      ensures Valid() && Contents() == RecencyLists.Remove(old(Contents()), key)
      ensures removed <==> Position(old(Contents()), key) < |old(Contents())|
    {
      hide LruHashMap.Chained;
      hide TailQueue.Valid;
      hide Position;
      ghost var i;
      var node, prev: Node?<K, D>;
      node, prev, i := Search(key);
      if node == null {
        NoPosition(key);
        return false;
      }
      var found: Node<K, D> := node;
      NodePosition(found);
      Delete(found, prev, i);
      ContentsWithout(Index(old(lru.order), found));
      return true;
    }

    /** Remove the `num` stalest entries. */
    method Drain(num: nat) returns (left: nat)
      requires Valid()
      modifies this, tab, lru, lru.Members()`hashNext, lru.Members()`tqeNext, lru.Members()`tqePrev
      ensures Valid() && Contents() == Drained(old(Contents()), num) && left == |Contents()|
      ensures |Contents()| == Max(0, |old(Contents())| - num)
      ensures Contents() == old(Contents())[|old(Contents())| - |Contents()|..]
    {
      hide LruHashMap.Chained;
      var i := 0;
      while lru.first != null && i < num
        invariant Valid() && i <= num
        invariant lru.Members() <= old(lru.Members())
        invariant i <= |old(Contents())| && Contents() == old(Contents())[i..]
        decreases num - i
      {
        RemoveStalest();
        i := i + 1;
      }
      return total;
    }
  }

  twostate lemma SameEntries<K, D>(nodes: seq<Node<K, D>>)
    requires forall n :: n in nodes ==> n.data == old(n.data)
    ensures EntriesOf(nodes) == old(EntriesOf(nodes))
  {
  }

  lemma {:induction false} EntriesOfWithout<K, D>(nodes: seq<Node<K, D>>, i: nat)
    requires i < |nodes|
    ensures EntriesOf(Without(nodes, i)) == Without(EntriesOf(nodes), i)
  {
    hide EntriesOf;
    var a, b := EntriesOf(Without(nodes, i)), Without(EntriesOf(nodes), i);
    forall k | 0 <= k < |a| ensures a[k] == b[k] {
      var j := if k < i then k else k + 1;
      assert Without(nodes, i)[k] == nodes[j];
      assert EntriesOf(nodes)[j] == Entry(nodes[j].key, nodes[j].data);
    }
  }

  lemma EntriesOfAppend<K, D>(nodes: seq<Node<K, D>>, n: Node<K, D>)
    ensures EntriesOf(nodes + [n]) == EntriesOf(nodes) + [Entry(n.key, n.data)]
  {
  }

  lemma EntriesOfPrepend<K, D>(n: Node<K, D>, nodes: seq<Node<K, D>>)
    ensures EntriesOf([n] + nodes) == [Entry(n.key, n.data)] + EntriesOf(nodes)
  {
    hide EntriesOf;
    var a, b := EntriesOf([n] + nodes), [Entry(n.key, n.data)] + EntriesOf(nodes);
    forall k | 0 <= k < |a| ensures a[k] == b[k] {
      assert k > 0 ==> ([n] + nodes)[k] == nodes[k - 1];
    }
  }
}
