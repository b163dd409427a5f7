/** The TAILQ macros of queue.h on the nodes of LruHashMap.h.

  In C, `tqe_prev` and `tqh_last` are addresses of `next` fields, one of which is the `first`
  field of the head. Such an address is modelled by the node that holds the field, and by null
  when it is the field of the head. */
module TailQueues {
  import opened Sequences

  class Node<K, D> {
    var hashNext: Node?<K, D>
    var tqeNext: Node?<K, D>
    var tqePrev: Node?<K, D>
    var hash: nat
    const key: K
    var data: D

    constructor (key: K, data: D)
      ensures this.key == key && this.data == data
    {
      this.key := key;
      this.data := data;
      hashNext, tqeNext, tqePrev, hash := null, null, null, 0;
    }
  }

  ghost function After<K, D>(order: seq<Node<K, D>>, i: nat): Node?<K, D> {
    if i + 1 < |order| then order[i + 1] else null
  }

  ghost function Before<K, D>(order: seq<Node<K, D>>, i: nat): Node?<K, D> {
    if 0 < i <= |order| then order[i - 1] else null
  }

  /** The neighbours of the elements that stay. */
  lemma NeighboursWithout<K, D>(order: seq<Node<K, D>>, i: nat, k: nat)
    requires i < |order| && k < |order| - 1
    ensures var (r, j) := (Without(order, i), if k < i then k else k + 1);
      && |r| == |order| - 1 && r[k] == order[j]
      && After(r, k) == (if j + 1 == i then After(order, i) else After(order, j))
      && Before(r, k) == (if j == i + 1 then Before(order, i) else Before(order, j))
  {
  }

  class TailQueue<K, D> {
    var first: Node?<K, D>
    var last: Node?<K, D>
    ghost var order: seq<Node<K, D>>

    ghost function Members(): set<Node<K, D>>
      reads this
    {
      set n | n in order
    }

    /** The links agree with `order`, from the first element to the last. */
    ghost predicate Valid()
      reads this, Members()
    {
      && Distinct(order)
      && first == (if |order| > 0 then order[0] else null)
      && last == (if |order| > 0 then order[|order| - 1] else null)
      && (forall i {:trigger order[i].tqeNext} :: 0 <= i < |order| ==> order[i].tqeNext == After(order, i))
      && (forall i {:trigger order[i].tqePrev} :: 0 <= i < |order| ==> order[i].tqePrev == Before(order, i))
    }

    constructor ()
      ensures Valid() && order == []
    {
      first, last, order := null, null, [];
    }

    /** Other fields of the nodes are no part of the queue. */
    twostate lemma LinksKept()
      requires old(Valid()) && unchanged(this)
      requires forall n :: n in order ==> n.tqeNext == old(n.tqeNext) && n.tqePrev == old(n.tqePrev)
      ensures Valid() && Distinct(order)
    {
    }

    /** The `next` field at an address. */
    function At(slot: Node?<K, D>): Node?<K, D>
      reads this, slot
    {
      if slot == null then first else slot.tqeNext
    }

    /** TAILQ_LAST: the element is reached through the address it keeps of the field before it. */
    method Last() returns (r: Node?<K, D>)
      requires Valid()
      ensures r == if |order| > 0 then order[|order| - 1] else null
    {
      var before := if last == null then last else last.tqePrev;
      if |order| > 1 {
        assert order[|order| - 2].tqeNext == After(order, |order| - 2);
      }
      r := At(before);
    }

    method InsertHead(elm: Node<K, D>)
      requires Valid() && elm !in order
      modifies this, Members()`tqePrev, elm`tqeNext, elm`tqePrev
      ensures Valid() && order == [elm] + old(order)
    {
      elm.tqeNext := first;
      if elm.tqeNext != null {
        first.tqePrev := elm;
      } else {
        last := elm;
      }
      first := elm;
      elm.tqePrev := null;
      order := [elm] + order;
      ghost var was := old(order);
      forall i | 0 <= i < |order| ensures order[i].tqeNext == After(order, i) && order[i].tqePrev == Before(order, i) {
        if i > 0 {
          assert order[i] == was[i - 1] && old(was[i - 1].tqeNext) == After(was, i - 1);
          assert old(was[i - 1].tqePrev) == Before(was, i - 1);
        }
      }
    }

    method InsertTail(elm: Node<K, D>)
      requires Valid() && elm !in order
      modifies this, Members()`tqeNext, elm`tqeNext, elm`tqePrev
      ensures Valid() && order == old(order) + [elm]
    {
      elm.tqeNext := null;
      elm.tqePrev := last;
      if last == null {
        first := elm;
      } else {
        last.tqeNext := elm;
      }
      last := elm;
      order := order + [elm];
      ghost var was := old(order);
      forall i | 0 <= i < |order| ensures order[i].tqeNext == After(order, i) && order[i].tqePrev == Before(order, i) {
        if i < |was| {
          assert order[i] == was[i] && old(was[i].tqeNext) == After(was, i);
          assert old(was[i].tqePrev) == Before(was, i);
        }
      }
    }

    /** The four assignments of TAILQ_REMOVE. */
    method Unlink(elm: Node<K, D>, ghost i: nat)
      requires Valid() && i < |order| && elm == order[i]
      modifies this`first, this`last, Members()`tqeNext, Members()`tqePrev
      ensures first == if i == 0 then After(order, i) else old(first)
      ensures last == if i == |order| - 1 then Before(order, i) else old(last)
      ensures forall j {:trigger order[j].tqeNext} :: 0 <= j < |order| && j != i ==>
        order[j].tqeNext == if j + 1 == i then After(order, i) else After(order, j)
      ensures forall j {:trigger order[j].tqePrev} :: 0 <= j < |order| && j != i ==>
        order[j].tqePrev == if j == i + 1 then Before(order, i) else Before(order, j)
    {
      assert elm.tqeNext == After(order, i) && elm.tqePrev == Before(order, i);
      if elm.tqeNext != null {
        elm.tqeNext.tqePrev := elm.tqePrev;
      } else {
        last := elm.tqePrev;
      }
      if elm.tqePrev == null {
        first := elm.tqeNext;
      } else {
        elm.tqePrev.tqeNext := elm.tqeNext;
      }
    }

    method Remove(elm: Node<K, D>)
      requires Valid() && elm in order
      modifies this, Members()`tqeNext, Members()`tqePrev
      ensures Valid() && order == Without(old(order), Index(old(order), elm))
    {
      hide Index;
      hide Without;
      ghost var was, i := order, Index(order, elm);
      Unlink(elm, i);
      order := Without(order, i);
      assert Distinct(order) by {
        WithoutIsDistinct(was, i);
      }
      if |order| > 0 {
        NeighboursWithout(was, i, 0);
        NeighboursWithout(was, i, |order| - 1);
      }
      forall k | 0 <= k < |order| ensures order[k].tqeNext == After(order, k) && order[k].tqePrev == Before(order, k) {
        NeighboursWithout(was, i, k);
      }
    }

    /** TAILQ_REMOVE, then TAILQ_INSERT_TAIL. */
    method MoveToTail(elm: Node<K, D>)
      requires Valid() && elm in order
      modifies this, Members()`tqeNext, Members()`tqePrev
      ensures Valid() && Members() == old(Members())
      ensures order == Without(old(order), Index(old(order), elm)) + [elm]
    {
      hide Without;
      hide Index;
      ghost var was, i := order, Index(order, elm);
      Remove(elm);
      WithoutIsDistinct(was, i);
      InsertTail(elm);
      WithoutIsDistinct(was, i);
    }

    /** TAILQ_REMOVE, then TAILQ_INSERT_HEAD. */
    method MoveToHead(elm: Node<K, D>)
      requires Valid() && elm in order
      modifies this, Members()`tqeNext, Members()`tqePrev
      ensures Valid() && Members() == old(Members())
      ensures order == [elm] + Without(old(order), Index(old(order), elm))
    {
      hide Without;
      hide Index;
      ghost var was, i := order, Index(order, elm);
      Remove(elm);
      WithoutIsDistinct(was, i);
      InsertHead(elm);
      WithoutIsDistinct(was, i);
    }
  }
}
