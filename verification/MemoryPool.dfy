/** UnlockedMemoryPool.cpp: blocks in three doubly linked lists with their counters. How many
  blocks malloc grants during a call is a parameter of the call. */
module MemoryPools {
  import opened Sequences
  import opened Bounds
  import opened BlockLists

  /** The soft limit bounds the blocks that are kept, and the hard limit all of them. It does so
      because overdrafts begin only when the soft limit is reached. */
  predicate WithinLimits(kept: int, overdrafts: int, perfectCount: int, maxCount: int) {
    && kept <= Max(perfectCount, 0)
    && (overdrafts > 0 ==> kept >= perfectCount)
    && (maxCount > 0 ==> perfectCount <= maxCount && kept + overdrafts <= maxCount)
  }

  class UnlockedMemoryPool {
    var recycleLink: Block?
    var activeLink: Block?
    var activeOverdraftLink: Block?
    var appendCount: int
    var perfectCount: int
    var maxCount: int
    var usedCount: int
    var freeCount: int
    var overdraftCount: int
    var totalCount: int
    var inited: bool
    ghost var free: seq<Block>
    ghost var used: seq<Block>
    ghost var overdraft: seq<Block>

    ghost predicate Valid()
      reads this, free, used, overdraft
    {
      && Lists(recycleLink, free, activeLink, used, activeOverdraftLink, overdraft)
      && freeCount == |free| && usedCount == |used| && overdraftCount == |overdraft|
      && totalCount == |free| + |used| + |overdraft|
      && WithinLimits(usedCount + freeCount, overdraftCount, perfectCount, maxCount)
      && (!inited ==> totalCount == 0)
    }

    /** The blocks that are handed out. */
    ghost function HandedOut(): seq<Block>
      reads this
    {
      used + overdraft
    }

    /** With no block free, the limits leave room for another. */
    ghost predicate MayGrow()
      reads this
    {
      if usedCount < perfectCount then appendCount > 0 else maxCount == 0 || totalCount != maxCount
    }

    constructor ()
      ensures Valid() && !inited
    {
      recycleLink, activeLink, activeOverdraftLink := null, null, null;
      appendCount, perfectCount, maxCount := 10, 200, 1000;
      usedCount, freeCount, overdraftCount, totalCount, inited := 0, 0, 0, 0, false;
      free, used, overdraft := [], [], [];
    }

    method ReviseDataRelation(initCount: int)
      modifies this`maxCount, this`perfectCount
      ensures perfectCount >= initCount && (maxCount > 0 ==> perfectCount <= maxCount)
      ensures maxCount == if old(maxCount) > 0 then Max(old(maxCount), initCount) else old(maxCount)
      ensures perfectCount ==
        Max(if maxCount > 0 && old(perfectCount) > maxCount then maxCount else old(perfectCount), initCount)
    {
      if maxCount > 0 {
        if maxCount < initCount {
          maxCount := initCount;
        }
        if perfectCount > maxCount {
          perfectCount := maxCount;
        }
      }
      if perfectCount < initCount {
        perfectCount := initCount;
      }
    }

    lemma FreeHead()
      requires Valid()
      ensures recycleLink == if free == [] then null else free[0]
    {
      LinkedHead(recycleLink, free);
    }

    /** GainNode: the first free block becomes the first used one. */
    method GainNode() returns (block: Block?)
      requires Valid()
      modifies this`recycleLink, this`activeLink, this`usedCount, this`freeCount, this`free, this`used, free, used
      ensures Valid()
      ensures old(free) == [] ==> block == null && free == [] && used == old(used)
      ensures old(free) != [] ==> block == old(free)[0] && free == old(free)[1..] && used == [old(free)[0]] + old(used)
    {
      hide Lists;
      hide WithinLimits;
      FreeHead();
      block := recycleLink;
      if block == null {
        return;
      }
      var first: Block := block;
      var recycle, active := MoveFront(first, activeLink, activeOverdraftLink, free, used, overdraft);
      recycleLink, activeLink, free, used := recycle, active, free[1..], [first] + used;
      usedCount, freeCount := usedCount + 1, freeCount - 1;
    }

    /** RecycleNode: the block goes to the front of the free list. */
    method RecycleNode(block: Block)
      requires Valid() && block in used
      modifies this`recycleLink, this`activeLink, this`usedCount, this`freeCount, this`free, this`used, free, used
      ensures Valid()
      ensures free == [block] + old(free) && used == Without(old(used), Index(old(used), block))
    {
      hide Lists;
      hide Index;
      hide Without;
      ghost var i := Index(used, block);
      var recycle, active :=
        MoveBack(recycleLink, activeLink, activeOverdraftLink, block, free, used, overdraft, i);
      recycleLink, activeLink, free, used := recycle, active, [block] + free, Without(used, i);
      usedCount, freeCount := usedCount - 1, freeCount + 1;
    }

    /** RecycleOverdraftNode: the block leaves the pool. */
    method RecycleOverdraftNode(block: Block)
      requires Valid() && block in overdraft
      modifies this`activeOverdraftLink, this`overdraftCount, this`totalCount, this`overdraft, overdraft
      ensures Valid()
      ensures overdraft == Without(old(overdraft), Index(old(overdraft), block))
    {
      hide Lists;
      hide Index;
      hide Without;
      ghost var i := Index(overdraft, block);
      var rest := Drop(recycleLink, activeLink, activeOverdraftLink, block, free, used, overdraft, i);
      activeOverdraftLink, overdraft := rest, Without(overdraft, i);
      overdraftCount, totalCount := overdraftCount - 1, totalCount - 1;
    }

    /** AppendNode: as many free blocks more as are needed and granted. */
    method AppendNode(needBlocks: int, granted: nat) returns (done: bool)
      requires Valid() && inited && usedCount + freeCount + needBlocks <= perfectCount
      modifies this`recycleLink, this`freeCount, this`totalCount, this`free, free
      ensures Valid()
      ensures done <==> needBlocks > 0 && granted > 0
      ensures old(free) <= free && fresh(free[|old(free)|..])
      ensures |free| ==
        |old(free)| + if needBlocks <= 0 then 0 else if needBlocks < granted then needBlocks else granted
    {
      var header, count, chain := NewChain(needBlocks, granted);
      assert free[|free|..] == [];
      if header == null {
        return false;
      }
      assert Apart(chain, free) && Apart(chain, used) && Apart(chain, overdraft);
      hide *;
      HangChain(header, count, chain);
      assert free[|old(free)|..] == chain;
      return true;
    }

    /** The end of AppendNode, which hangs the new blocks behind the free ones. */
    method HangChain(header: Block, count: nat, ghost chain: seq<Block>)
      requires Valid() && inited && Linked(header, chain) && Flagged(chain, false) && count == |chain|
      requires Apart(chain, free) && Apart(chain, used) && Apart(chain, overdraft)
      requires usedCount + freeCount + count <= perfectCount
      modifies this`recycleLink, this`freeCount, this`totalCount, this`free, free, chain
      ensures Valid() && free == old(free) + chain
    {
      hide Lists;
      hide Linked;
      hide Apart;
      hide Flagged;
      var recycle := Attach(recycleLink, activeLink, activeOverdraftLink, header, free, used, overdraft, chain);
      recycleLink, free := recycle, free + chain;
      freeCount, totalCount := freeCount + count, totalCount + count;
    }

    /** AppendOverdraftNode: a block beyond the soft limit, if it is granted. */
    method AppendOverdraftNode(granted: nat) returns (block: Block?)
      requires Valid() && inited && usedCount + freeCount >= perfectCount && (maxCount > 0 ==> totalCount < maxCount)
      modifies this`activeOverdraftLink, this`overdraftCount, this`totalCount, this`overdraft, overdraft
      ensures Valid()
      ensures granted == 0 ==> block == null && overdraft == old(overdraft)
      ensures granted > 0 ==> block != null && fresh(block) && overdraft == [block] + old(overdraft)
    {
      hide Lists;
      if granted == 0 {
        return null;
      }
      var node := new Block(true);
      var first := PushOverdraft(recycleLink, activeLink, activeOverdraftLink, node, free, used, overdraft);
      activeOverdraftLink, overdraft := first, [node] + overdraft;
      overdraftCount, totalCount := overdraftCount + 1, totalCount + 1;
      return node;
    }

    /** Append: free blocks up to the soft limit, and beyond it one overdraft up to the hard one. The
        code tests only whether the hard limit is met, which suffices because it is never passed. */
    method Append(needBlocks: int, granted: nat) returns (ok: bool, overdraftNode: Block?)
      requires Valid() && inited
      modifies this`recycleLink, this`freeCount, this`totalCount, this`free, free
      modifies this`activeOverdraftLink, this`overdraftCount, this`overdraft, overdraft
      ensures Valid()
      ensures old(usedCount + freeCount < perfectCount) ==>
        && overdraftNode == null && overdraft == old(overdraft) && (ok <==> needBlocks > 0 && granted > 0)
        && old(free) <= free && fresh(free[|old(free)|..])
        && |free| == |old(free)| + Max(0, Min(granted, Min(needBlocks, perfectCount - |old(free)| - |old(used)|)))
      ensures old(usedCount + freeCount >= perfectCount) ==>
        && free == old(free) && (ok <==> maxCount == 0 || old(totalCount) != maxCount)
        && (overdraftNode != null <==> ok && granted > 0)
        && (overdraftNode == null ==> overdraft == old(overdraft))
        && (overdraftNode != null ==> fresh(overdraftNode) && overdraft == [overdraftNode] + old(overdraft))
    {
      overdraftNode := null;
      var need := needBlocks;
      var currentCount := totalCount - overdraftCount;
      if currentCount >= perfectCount {
        if maxCount != 0 {
          if maxCount == totalCount {
            return false, null;
          }
        }
        overdraftNode := AppendOverdraftNode(granted);
        return true, overdraftNode;
      }
      var remainCount := perfectCount - currentCount;
      if remainCount < need {
        need := remainCount;
      }
      ok := AppendNode(need, granted);
    }

    /** Which blocks are flagged, and that no block is in two lists. */
    lemma Flags()
      requires Valid()
      ensures free != [] ==> !free[0].overdraft && free[0] !in used && free[0] !in overdraft
      ensures forall b :: b in used ==> !b.overdraft
      ensures forall b :: b in overdraft ==> b.overdraft
    {
      assert free != [] ==> free[0] in free;
    }

    /** The end of gain: the pool grows, by an overdraft if the soft limit is reached. */
    method GainAppended(granted: nat) returns (block: Block?)
      requires Valid() && inited && free == []
      modifies this`recycleLink, this`freeCount, this`totalCount, this`free, free
      modifies this`activeOverdraftLink, this`overdraftCount, this`overdraft, overdraft
      modifies this`activeLink, this`usedCount, this`used, used
      ensures Valid()
      ensures block != null <==> granted > 0 && old(MayGrow())
      ensures block == null ==> used == old(used) && overdraft == old(overdraft)
      ensures block != null ==>
        && fresh(block) && (block.overdraft <==> old(|used|) >= perfectCount)
        && (if block.overdraft then used == old(used) && overdraft == [block] + old(overdraft)
            else used == [block] + old(used) && overdraft == old(overdraft))
        && (!block.overdraft ==> |free| == Min(granted, Min(appendCount, perfectCount - old(|used|))) - 1)
    {
      hide Lists;
      var ok;
      ok, block := Append(appendCount, granted);
      if !ok {
        return null;
      }
      Flags();
      if block == null {
        assert free[0..] == free;
        block := GainNode();
      } else {
        assert overdraft[0] == block;
      }
    }

    /** gain: a block that is not handed out yet. It is refused exactly when the pool is not
        initialised, or has no free block and may or can not get one. The first free block is
        taken; without any the pool grows. */
    method Gain(granted: nat) returns (block: Block?)
      requires Valid()
      modifies this`recycleLink, this`freeCount, this`totalCount, this`free, free
      modifies this`activeOverdraftLink, this`overdraftCount, this`overdraft, overdraft
      modifies this`activeLink, this`usedCount, this`used, used
      ensures Valid()
      ensures block != null <==> inited && (old(free) != [] || (granted > 0 && old(MayGrow())))
      ensures block == null ==> used == old(used) && overdraft == old(overdraft)
      ensures block != null ==>
        && block !in old(HandedOut())
        && if block.overdraft then used == old(used) && overdraft == [block] + old(overdraft)
           else used == [block] + old(used) && overdraft == old(overdraft)
      ensures block != null && old(free) != [] ==> block == old(free)[0] && free == old(free)[1..]
      ensures block != null && old(free) == [] ==> (block.overdraft <==> old(|used|) >= perfectCount)
      ensures block != null && old(free) == [] && !block.overdraft ==>
        |free| == Min(granted, Min(appendCount, perfectCount - old(|used|))) - 1
    {
      block := null;
      if !inited {
        return;
      }
      hide Lists;
      Flags();
      block := GainNode();
      if block == null {
        block := GainAppended(granted);
      }
    }

    /** recycle: a block that was handed out goes back to the free ones, an overdraft goes away. */
    method Recycle(block: Block?)
      requires Valid() && (inited && block != null ==> block in HandedOut())
      modifies this`recycleLink, this`activeLink, this`usedCount, this`freeCount, this`free, this`used, free, used
      modifies this`activeOverdraftLink, this`overdraftCount, this`totalCount, this`overdraft, overdraft
      ensures Valid()
      ensures !inited || block == null ==> free == old(free) && used == old(used) && overdraft == old(overdraft)
      ensures inited && block != null && block.overdraft ==>
        && free == old(free) && used == old(used)
        && var node: Block := block;
        && node in old(overdraft) && overdraft == Without(old(overdraft), Index(old(overdraft), node))
      ensures inited && block != null && !block.overdraft ==>
        && free == [block] + old(free) && overdraft == old(overdraft)
        && var node: Block := block;
        && node in old(used) && used == Without(old(used), Index(old(used), node))
    {
      hide Lists;
      hide Without;
      hide Index;
      if !inited || block == null {
        return;
      }
      var node: Block := block;
      Flags();
      assert if node.overdraft then node in overdraft else node in used;
      if node.overdraft {
        RecycleOverdraftNode(node);
      } else {
        RecycleNode(node);
      }
    }

    /** createPool on an empty pool: as many blocks as are asked for and granted. */
    method CreatePool(initCount: int, granted: nat) returns (ok: bool)
      requires Valid() && !inited && initCount <= perfectCount
      modifies this
      ensures unchanged(this`appendCount, this`perfectCount, this`maxCount, this`inited)
      ensures ok <==> initCount <= 0 || granted > 0
      ensures Lists(recycleLink, free, activeLink, used, activeOverdraftLink, overdraft)
      ensures used == [] && overdraft == [] && fresh(free)
      ensures |free| == if initCount <= 0 then 0 else if initCount < granted then initCount else granted
      ensures usedCount == 0 && overdraftCount == 0 && freeCount == |free| && totalCount == |free|
    {
      var header, count, chain := NewChain(initCount, granted);
      recycleLink, free := header, chain;
      totalCount, freeCount := count, count;
      ok := initCount <= 0 || count > 0;
    }

    /** init, once the rounded block size is in order. */
    method Init(initBlocks: int, perAppendBlocks: int, perfectBlocks: int, maxBlocks: int, granted: nat)
      returns (ok: bool)
      requires Valid()
      modifies this
      ensures Valid() && ok == inited
      ensures old(inited) ==> ok && unchanged(this)
      ensures !old(inited) ==> (ok <==> initBlocks <= 0 || granted > 0) && used == [] && overdraft == []
      ensures !old(inited) ==> |free| == Max(0, Min(initBlocks, granted)) && appendCount == perAppendBlocks
      ensures !old(inited) ==> maxCount == if maxBlocks > 0 then Max(maxBlocks, initBlocks) else maxBlocks
      ensures !old(inited) ==>
        perfectCount == Max(initBlocks, if maxBlocks > 0 then Min(perfectBlocks, maxCount) else perfectBlocks)
    {
      if inited {
        return true;
      }
      maxCount, appendCount, perfectCount := maxBlocks, perAppendBlocks, perfectBlocks;
      ReviseDataRelation(initBlocks);
      inited := CreatePool(initBlocks, granted);
      return inited;
    }

    /** clean: every block is freed, once. */
    method Clean() returns (ghost freed: seq<Block>)
      requires Valid()
      modifies this
      ensures Valid() && !inited && freed == old(free + used + overdraft)
    {
      hide Lists;
      freed := FreeThree(recycleLink, activeLink, activeOverdraftLink, free, used, overdraft);
      Reset();
      EmptyLists();
    }

    method Reset()
      modifies this
      ensures recycleLink == null && activeLink == null && activeOverdraftLink == null && !inited
      ensures usedCount == 0 && freeCount == 0 && overdraftCount == 0 && totalCount == 0
      ensures free == [] && used == [] && overdraft == []
      ensures unchanged(this`appendCount, this`perfectCount, this`maxCount)
    {
      recycleLink, activeLink, activeOverdraftLink := null, null, null;
      usedCount, freeCount, overdraftCount, totalCount, inited := 0, 0, 0, 0, false;
      free, used, overdraft := [], [], [];
    }
  }

  method FreeThree(h0: Block?, h1: Block?, h2: Block?, ghost a: seq<Block>, ghost b: seq<Block>, ghost c: seq<Block>)
    returns (ghost freed: seq<Block>)
    requires Lists(h0, a, h1, b, h2, c)
    ensures freed == a + b + c
  {
    hide Linked;
    ghost var f := FreeAll(h0, a);
    ghost var u := FreeAll(h1, b);
    ghost var o := FreeAll(h2, c);
    freed := f + u + o;
  }

  /** A list is walked, and each block of it freed. */
  method FreeAll(head: Block?, ghost s: seq<Block>) returns (ghost freed: seq<Block>)
    requires Linked(head, s)
    ensures freed == s
  {
    freed := [];
    var link := head;
    while link != null
      invariant |freed| <= |s| && freed == s[..|freed|]
      invariant link == if |freed| < |s| then s[|freed|] else null
      decreases |s| - |freed|
    {
      var node: Block := link;
      assert s[|freed|].next == After(s, |freed|);
      link := link.next;
      freed := freed + [node];
    }
  }

  /** The loop of AppendNode that links new blocks in front of each other. */
  method NewChain(needBlocks: int, granted: nat) returns (header: Block?, count: nat, ghost chain: seq<Block>)
    ensures count == if needBlocks <= 0 then 0 else if needBlocks < granted then needBlocks else granted
    ensures |chain| == count && fresh(chain) && Linked(header, chain) && Flagged(chain, false)
    ensures header == null <==> count == 0
  {
    header, count, chain := null, 0, [];
    while count < needBlocks
      invariant 0 <= count <= (if needBlocks <= 0 then 0 else needBlocks) && count <= granted
      invariant |chain| == count && fresh(chain) && Linked(header, chain) && Flagged(chain, false)
    {
      if count == granted {
        break;
      }
      var block := new Block(false);
      header := PushFront(header, block, chain);
      ApartWith(chain, block, false);
      chain := [block] + chain;
      count := count + 1;
    }
    LinkedHead(header, chain);
  }
}
