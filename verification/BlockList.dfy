/** The doubly linked lists of UnlockedMemoryPool.cpp: a head pointer and the Pre and Next fields
  of the blocks. A list is described by the sequence of its blocks. */
module BlockLists {
  import opened Sequences

  class Block {
    var pre: Block?
    var next: Block?
    const overdraft: bool

    constructor (overdraft: bool)
      ensures this.overdraft == overdraft && pre == null && next == null
    {
      this.overdraft := overdraft;
      pre, next := null, null;
    }
  }

  ghost function After(s: seq<Block>, i: nat): Block? {
    if i + 1 < |s| then s[i + 1] else null
  }

  ghost function Before(s: seq<Block>, i: nat): Block? {
    if 0 < i <= |s| then s[i - 1] else null
  }

  ghost predicate Linked(head: Block?, s: seq<Block>)
    reads s
  {
    && Distinct(s)
    && head == (if s == [] then null else s[0])
    && (forall i {:trigger s[i].next} :: 0 <= i < |s| ==> s[i].next == After(s, i))
    && (forall i {:trigger s[i].pre} :: 0 <= i < |s| ==> s[i].pre == Before(s, i))
  }

  lemma LinkedHead(head: Block?, s: seq<Block>)
    requires Linked(head, s)
    ensures head == if s == [] then null else s[0]
    ensures s != [] ==> s[0] !in s[1..]
  {
  }

  /** The block becomes the first one. */
  method PushFront(head: Block?, block: Block, ghost s: seq<Block>) returns (first: Block)
    requires Linked(head, s) && block !in s
    modifies block, (if s == [] then {} else {s[0]})`pre
    ensures first == block && Linked(first, [block] + s)
  {
    block.pre := null;
    block.next := head;
    if head != null {
      head.pre := block;
    }
    first := block;
    ghost var t := [block] + s;
    forall i | 0 <= i < |t| ensures t[i].next == After(t, i) && t[i].pre == Before(t, i) {
      if i > 0 {
        assert t[i] == s[i - 1] && old(s[i - 1].next) == After(s, i - 1);
        assert old(s[i - 1].pre) == Before(s, i - 1);
      }
    }
  }

  /** The first block is taken off. */
  method PopFront(head: Block, ghost s: seq<Block>) returns (first: Block?)
    requires Linked(head, s)
    modifies (if |s| > 1 then {s[1]} else {})`pre
    ensures s[0] == head && Linked(first, s[1..])
  {
    assert s[0].next == After(s, 0);
    first := head.next;
    if first != null {
      first.pre := null;
    }
    ghost var t := s[1..];
    forall i | 0 <= i < |t| ensures t[i].next == After(t, i) && t[i].pre == Before(t, i) {
      assert t[i] == s[i + 1] && old(s[i + 1].next) == After(s, i + 1);
      assert old(s[i + 1].pre) == Before(s, i + 1);
    }
  }

  lemma NeighboursWithout(s: seq<Block>, i: nat, k: nat)
    requires i < |s| && k < |s| - 1
    ensures var r, j := Without(s, i), if k < i then k else k + 1;
      && |r| == |s| - 1 && r[k] == s[j]
      && After(r, k) == (if j + 1 == i then After(s, i) else After(s, j))
      && Before(r, k) == (if j == i + 1 then Before(s, i) else Before(s, j))
  {
  }

  /** A block is taken out of the middle. */
  method TakeOut(head: Block?, block: Block, ghost s: seq<Block>, ghost i: nat) returns (first: Block?)
    requires Linked(head, s) && i < |s| && s[i] == block
    modifies (if i > 0 then {s[i - 1]} else {})`next, (if i + 1 < |s| then {s[i + 1]} else {})`pre
    ensures Linked(first, Without(s, i)) && block !in Without(s, i)
    ensures forall b :: b in s <==> b == block || b in Without(s, i)
  {
    hide Without;
    assert block.next == After(s, i) && block.pre == Before(s, i);
    first := head;
    if block.pre != null {
      block.pre.next := block.next;
    } else {
      first := block.next;
    }
    if block.next != null {
      block.next.pre := block.pre;
    }
    WithoutIsDistinct(s, i);
    ghost var r := Without(s, i);
    forall k | 0 <= k < |r| ensures r[k].next == After(r, k) && r[k].pre == Before(r, k) {
      NeighboursWithout(s, i, k);
      ghost var j := if k < i then k else k + 1;
      assert old(s[j].next) == After(s, j) && old(s[j].pre) == Before(s, j);
    }
    if |r| > 0 {
      NeighboursWithout(s, i, 0);
    }
  }

  /** A chain is hung behind the last block of a list that has one. */
  method AttachBehind(head: Block?, chain: Block, ghost s: seq<Block>, ghost t: seq<Block>) returns (first: Block)
    requires Linked(head, s) && Linked(chain, t) && forall b :: b in s ==> b !in t
    modifies (if s == [] then {} else {s[|s| - 1]})`next, (if t == [] then {} else {t[0]})`pre
    ensures Linked(first, s + t)
  {
    if head == null {
      assert s + t == t;
      return chain;
    }
    var last: Block := head;
    ghost var i := 0;
    while last.next != null
      invariant i < |s| && last == s[i]
      decreases |s| - i
    {
      assert s[i].next == After(s, i);
      last := last.next;
      i := i + 1;
    }
    assert s[i].next == After(s, i);
    LinkedHead(chain, t);
    assert i == |s| - 1;
    assert forall k :: 0 <= k < i ==> s[k] != last;
    forall k | 0 <= k < |t| ensures t[k] != last && t[k] !in s {
      assert t[k] in t && last in s;
    }
    last.next := chain;
    chain.pre := last;
    first := head;
    ghost var u := s + t;
    forall k | 0 <= k < |u| ensures u[k].next == After(u, k) && u[k].pre == Before(u, k) {
      if k < |s| {
        assert u[k] == s[k] && old(s[k].next) == After(s, k) && old(s[k].pre) == Before(s, k);
        assert k < i ==> s[k].next == old(s[k].next) && u[k + 1] == s[k + 1];
        assert k == i ==> u[k + 1] == t[0];
      } else {
        assert u[k] == t[k - |s|] && old(t[k - |s|].next) == After(t, k - |s|);
        assert old(t[k - |s|].pre) == Before(t, k - |s|);
      }
    }
  }

  // ---------- lists without a common block ----------

  ghost predicate Apart(a: seq<Block>, b: seq<Block>) {
    forall x :: x in a ==> x !in b
  }

  ghost predicate Flagged(s: seq<Block>, overdraft: bool) {
    forall b :: b in s ==> b.overdraft == overdraft
  }

  lemma ApartAt(a: seq<Block>, b: seq<Block>, i: nat)
    requires Apart(a, b)
    ensures i < |a| ==> a[i] in a && a[i] !in b
    ensures i < |b| ==> b[i] in b && b[i] !in a
  {
  }

  /** The first block of one list becomes the first of another. */
  lemma ApartMoved(a: seq<Block>, b: seq<Block>, c: seq<Block>, flag: bool)
    requires a != [] && a[0] !in a[1..] && Apart(a, b) && Apart(a, c) && Apart(b, c)
    requires Flagged(a, flag) && Flagged(b, flag)
    ensures Apart(a[1..], [a[0]] + b) && Apart(a[1..], c) && Apart([a[0]] + b, c)
    ensures Flagged(a[1..], flag) && Flagged([a[0]] + b, flag)
  {
    assert forall x :: x in [a[0]] + b <==> x == a[0] || x in b;
    assert forall x :: x in a[1..] ==> x in a;
  }

  /** A block leaves one list. */
  lemma ApartWithout(a: seq<Block>, r: seq<Block>, x: Block, flag: bool)
    requires forall b :: b in a <==> b == x || b in r
    requires Flagged(a, flag)
    ensures Flagged(r, flag)
    ensures forall c :: Apart(a, c) ==> Apart(r, c)
    ensures forall c :: Apart(c, a) ==> Apart(c, r)
  {
  }

  /** A block that is in none of the others joins a list. */
  lemma ApartWith(a: seq<Block>, x: Block, flag: bool)
    requires Flagged(a, flag) && x.overdraft == flag
    ensures Flagged([x] + a, flag)
    ensures forall c :: Apart(a, c) && x !in c ==> Apart([x] + a, c)
    ensures forall c :: Apart(c, a) && x !in c ==> Apart(c, [x] + a)
  {
  }

  /** Three lists without a common block; the blocks of the third are the flagged ones. */
  ghost predicate Lists(h0: Block?, a: seq<Block>, h1: Block?, b: seq<Block>, h2: Block?, c: seq<Block>)
    reads a, b, c
  {
    && Linked(h0, a) && Linked(h1, b) && Linked(h2, c)
    && Apart(a, b) && Apart(a, c) && Apart(b, c)
    && Flagged(a, false) && Flagged(b, false) && Flagged(c, true)
  }

  /** The first block of the first list becomes the first of the second. */
  method MoveFront(h0: Block, h1: Block?, ghost h2: Block?,
                   ghost a: seq<Block>, ghost b: seq<Block>, ghost c: seq<Block>)
    returns (r0: Block?, r1: Block)
    requires Lists(h0, a, h1, b, h2, c)
    modifies a, b
    ensures a != [] && a[0] == h0 && Lists(r0, a[1..], r1, [h0] + b, h2, c)
  {
    LinkedHead(h0, a);
    LinkedHead(h1, b);
    ApartAt(a, b, 0);
    ApartAt(a, c, 0);
    ApartAt(b, c, 0);
    ApartAt(a, b, 1);
    ApartAt(a, c, 1);
    ApartMoved(a, b, c, false);
    hide Linked;
    hide Apart;
    hide Flagged;
    r0 := PopFront(h0, a);
    assert Linked(h1, b) && Linked(h2, c);
    r1 := PushFront(h1, h0, b);
  }

  /** A block of the second list becomes the first of the first. */
  method MoveBack(h0: Block?, h1: Block?, ghost h2: Block?, block: Block,
                  ghost a: seq<Block>, ghost b: seq<Block>, ghost c: seq<Block>, ghost i: nat)
    returns (r0: Block, r1: Block?)
    requires Lists(h0, a, h1, b, h2, c) && i < |b| && b[i] == block
    modifies a, b
    ensures Lists(r0, [block] + a, r1, Without(b, i), h2, c)
  {
    LinkedHead(h0, a);
    hide Linked;
    ApartAt(a, b, i);
    ApartAt(b, c, i);
    assert block in b && !block.overdraft;
    hide Apart;
    hide Flagged;
    hide Without;
    r1 := TakeFromSecond(h0, h1, h2, block, a, b, c, i);
    ApartAt(a, Without(b, i), 0);
    ApartAt(a, c, 0);
    r0 := PushFront(h0, block, a);
    ApartWith(a, block, false);
  }

  method TakeFromSecond(ghost h0: Block?, h1: Block?, ghost h2: Block?, block: Block,
                        ghost a: seq<Block>, ghost b: seq<Block>, ghost c: seq<Block>, ghost i: nat)
    returns (r1: Block?)
    requires Lists(h0, a, h1, b, h2, c) && i < |b| && b[i] == block
    modifies b
    ensures Lists(h0, a, r1, Without(b, i), h2, c) && block !in Without(b, i)
  {
    if i > 0 {
      ApartAt(a, b, i - 1);
      ApartAt(b, c, i - 1);
    }
    ApartAt(a, b, i + 1);
    ApartAt(b, c, i + 1);
    hide Linked;
    hide Apart;
    hide Flagged;
    hide Without;
    r1 := TakeOut(h1, block, b, i);
    ApartWithout(b, Without(b, i), block, false);
  }

  /** A block leaves the third list. */
  method Drop(ghost h0: Block?, ghost h1: Block?, h2: Block?, block: Block,
              ghost a: seq<Block>, ghost b: seq<Block>, ghost c: seq<Block>, ghost i: nat)
    returns (r2: Block?)
    requires Lists(h0, a, h1, b, h2, c) && i < |c| && c[i] == block
    modifies c
    ensures Lists(h0, a, h1, b, r2, Without(c, i))
  {
    if i > 0 {
      ApartAt(a, c, i - 1);
      ApartAt(b, c, i - 1);
    }
    ApartAt(a, c, i + 1);
    ApartAt(b, c, i + 1);
    hide Linked;
    hide Apart;
    hide Flagged;
    hide Without;
    r2 := TakeOut(h2, block, c, i);
    ApartWithout(c, Without(c, i), block, true);
  }

  /** A new block becomes the first of the third list. */
  method PushOverdraft(ghost h0: Block?, ghost h1: Block?, h2: Block?, block: Block,
                       ghost a: seq<Block>, ghost b: seq<Block>, ghost c: seq<Block>)
    returns (r2: Block)
    requires Lists(h0, a, h1, b, h2, c) && block !in a && block !in b && block !in c && block.overdraft
    modifies block, c
    ensures r2 == block && Lists(h0, a, h1, b, r2, [block] + c)
  {
    LinkedHead(h2, c);
    ApartAt(a, c, 0);
    ApartAt(b, c, 0);
    hide Linked;
    hide Apart;
    hide Flagged;
    r2 := PushFront(h2, block, c);
    ApartWith(c, block, true);
  }

  lemma ApartSum(a: seq<Block>, t: seq<Block>, flag: bool)
    requires Flagged(a, flag) && Flagged(t, flag)
    ensures Flagged(a + t, flag)
    ensures forall c :: Apart(a, c) && Apart(t, c) ==> Apart(a + t, c)
  {
  }

  /** A chain of new blocks is hung behind the first list. */
  method Attach(h0: Block?, ghost h1: Block?, ghost h2: Block?, chain: Block,
                ghost a: seq<Block>, ghost b: seq<Block>, ghost c: seq<Block>, ghost t: seq<Block>)
    returns (r0: Block)
    requires Lists(h0, a, h1, b, h2, c) && Linked(chain, t) && Flagged(t, false)
    requires Apart(t, a) && Apart(t, b) && Apart(t, c)
    modifies a, t
    ensures Lists(r0, a + t, h1, b, h2, c)
  {
    assert forall x :: x in a ==> x !in t;
    LinkedHead(chain, t);
    ApartAt(t, b, 0);
    ApartAt(t, c, 0);
    ApartSum(a, t, false);
    if a != [] {
      ApartAt(a, b, |a| - 1);
      ApartAt(a, c, |a| - 1);
    }
    hide Linked;
    hide Apart;
    hide Flagged;
    r0 := AttachBehind(h0, chain, a, t);
  }

  lemma EmptyLists()
    ensures Lists(null, [], null, [], null, [])
  {
  }
}
