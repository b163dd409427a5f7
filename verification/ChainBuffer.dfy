/** ChainBuffer.cpp: a byte string in a chain of blocks of equal size. Every method is stated on
  the flat string; where the borders of the blocks fall does not show. */
module ChainBuffers {
  import opened Bytes
  import opened Chunks

  class ChainBlock {
    var next: ChainBlock?
    var length: nat
    const buf: array<Byte>

    constructor (capacity: nat)
      ensures next == null && length == 0 && fresh(buf) && buf.Length == capacity
    {
      next, length := null, 0;
      buf := new Byte[capacity](_ => 0);
    }
  }

  class ChainBuffer {
    var first: ChainBlock
    var current: ChainBlock
    var length: nat
    const capacity: nat
    var blockCount: nat
    ghost var blocks: seq<ChainBlock>
    ghost var chunks: seq<Text>
    ghost var repr: set<object>

    /** The blocks follow each other, are apart, and hold the pieces. */
    ghost predicate Chained()
      reads this, repr
    {
      && |blocks| == |chunks| == blockCount > 0
      && this !in repr
      && (forall i :: 0 <= i < |blocks| ==> blocks[i] in repr && blocks[i].buf in repr)
      && first == blocks[0] && current == blocks[|blocks| - 1]
      && (forall i {:trigger blocks[i].next} :: 0 <= i < |blocks| ==>
            blocks[i].next == if i + 1 < |blocks| then blocks[i + 1] else null)
      && (forall i :: 0 <= i < |blocks| ==>
            blocks[i].buf.Length == capacity && blocks[i].length == |chunks[i]| <= capacity
            && blocks[i].buf[..|chunks[i]|] == chunks[i])
      && (forall i, j :: 0 <= i < j < |blocks| ==> blocks[i] != blocks[j] && blocks[i].buf != blocks[j].buf)
    }

    ghost predicate Valid()
      reads this, repr
    {
      Chained() && capacity > 0 && Packed(chunks, capacity) && length == |Flat(chunks)|
    }

    ghost function Contents(): Text
      reads this
    {
      Flat(chunks)
    }

    constructor (capacity: nat)
      requires capacity > 0
      ensures Valid() && Contents() == [] && fresh(repr) && this.capacity == capacity
    {
      var block := new ChainBlock(capacity);
      this.capacity := capacity;
      first, current, length, blockCount := block, block, 0, 1;
      blocks, chunks, repr := [block], [[]], {block, block.buf};
    }

    /** append(): a new block at the end of the chain. */
    method AppendBlock()
      requires Valid() && |chunks[|chunks| - 1]| == capacity
      modifies this, current
      ensures Valid() && chunks == old(chunks) + [[]] && Contents() == old(Contents())
      ensures repr == old(repr) + {current, current.buf} && fresh(current) && fresh(current.buf)
      ensures length == old(length) && |chunks[|chunks| - 1]| == 0
    {
      hide Packed;
      hide Flat;
      PackedGrow(chunks, capacity);
      var cb := new ChainBlock(capacity);
      assert cb !in repr && cb.buf !in repr;
      current.next := cb;
      current := cb;
      blockCount := blockCount + 1;
      blocks := blocks + [cb];
      chunks := chunks + [[]];
      repr := repr + {cb, cb.buf};
      hide ChainBuffer.Chained;
      Lengthened(cb);
      IsValid();
    }

    /** A new empty block behind the last one. */
    twostate lemma Lengthened(new cb: ChainBlock)
      requires old(Chained()) && old(|chunks[|chunks| - 1]|) == capacity
      requires cb !in old(repr) && cb.buf !in old(repr)
      requires cb.next == null && cb.length == 0 && cb.buf.Length == capacity
      requires first == old(first) && current == cb && blockCount == old(blockCount) + 1
      requires blocks == old(blocks) + [cb] && chunks == old(chunks) + [[]] && repr == old(repr) + {cb, cb.buf}
      requires old(current).next == cb
      requires forall b :: b in old(blocks) ==>
        b.length == old(b.length) && b.buf[..] == old(b.buf[..]) && (b != old(current) ==> b.next == old(b.next))
      ensures Chained()
    {
      var n := old(|blocks|);
      forall i | 0 <= i < n
        ensures blocks[i] == old(blocks)[i] && blocks[i].length == |chunks[i]|
        ensures blocks[i].buf[..|chunks[i]|] == chunks[i] && blocks[i].next == blocks[i + 1]
      {
        var b := old(blocks)[i];
        assert b in old(blocks);
        assert b.buf[..|chunks[i]|] == b.buf[..][..|chunks[i]|] == old(b.buf[..])[..|chunks[i]|];
      }
    }

    lemma IsValid()
      requires Chained() && capacity > 0 && Packed(chunks, capacity) && length == |Flat(chunks)|
      ensures Valid()
    {
    }

    /** The number of bytes copied is added to both lengths. */
    method Put(piece: Text)
      requires Valid() && |chunks[|chunks| - 1]| + |piece| <= capacity
      modifies this, current, current.buf
      ensures Valid() && Contents() == old(Contents()) + piece && repr == old(repr)
      ensures |chunks| == |old(chunks)| && |chunks[|chunks| - 1]| == |old(chunks)[|chunks| - 1]| + |piece|
    {
      hide Flat;
      hide Packed;
      FlatGrow(chunks, piece);
      var at := current.length;
      forall i | 0 <= i < |piece| {
        current.buf[at + i] := piece[i];
      }
      length := length + |piece|;
      current.length := current.length + |piece|;
      chunks := chunks[|chunks| - 1 := chunks[|chunks| - 1] + piece];
      Filled(piece);
      IsValid();
    }

    /** More bytes in the last block. */
    twostate lemma Filled(piece: Text)
      requires old(Chained()) && old(|chunks[|chunks| - 1]|) + |piece| <= capacity
      requires first == old(first) && current == old(current) && blockCount == old(blockCount)
      requires blocks == old(blocks) && repr == old(repr)
      requires chunks == old(chunks)[|blocks| - 1 := old(chunks)[|blocks| - 1] + piece]
      requires current.length == old(current.length) + |piece| && current.next == old(current.next)
      requires current.buf[..old(current.length)] == old(current.buf[..current.length])
      requires current.buf[old(current.length)..old(current.length) + |piece|] == piece
      requires forall b :: b in old(blocks) && b != current ==>
        b.length == old(b.length) && b.buf[..] == old(b.buf[..]) && b.next == old(b.next)
      ensures Chained()
    {
      forall i | 0 <= i < |blocks|
        ensures blocks[i].length == |chunks[i]| && blocks[i].buf[..|chunks[i]|] == chunks[i]
        ensures blocks[i].next == old(blocks[i].next)
      {
        var b := blocks[i];
        if b == current {
          var n := old(current.length);
          assert b.buf[..n + |piece|] == b.buf[..n] + b.buf[n..n + |piece|];
        } else {
          assert b in old(blocks);
          assert b.buf[..|chunks[i]|] == b.buf[..][..|chunks[i]|] == old(b.buf[..])[..|chunks[i]|];
        }
      }
    }

    lemma LengthOfContents()
      requires Valid()
      ensures length == |Contents()| && |blocks| > 0
    {
    }

    /** What the chain says of one block. */
    lemma Block(i: nat)
      requires Valid() && i < |blocks|
      ensures |chunks| == |blocks| && blocks[0] == first && length == |Contents()| && capacity > 0
      ensures blocks[i].next == if i + 1 < |blocks| then blocks[i + 1] else null
      ensures blocks[i].buf.Length == capacity && blocks[i].length == |chunks[i]| <= capacity
      ensures i + 1 < |blocks| ==> |chunks[i]| == capacity
      ensures Base(chunks, i + 1) == Base(chunks, i) + |chunks[i]| <= length
      ensures Base(chunks, |blocks|) == length && Base(chunks, 0) == 0
    {
      hide Flat;
      BaseStep(chunks, i);
    }

    lemma BaseOf(i: nat)
      requires Valid() && i < |blocks| == |chunks|
      ensures Base(chunks, i) == i * capacity
    {
      FlatFront(chunks, capacity, i);
    }

    /** The bytes of one block, found in the whole. */
    lemma Slice(i: nat, from: nat, to: nat)
      requires Valid() && i < |blocks| == |chunks| && from <= to <= |chunks[i]|
      ensures Base(chunks, i) + to <= |Contents()| && blocks[i].buf.Length == capacity >= to
      ensures blocks[i].buf[from..to] == chunks[i][from..to] == Contents()[Base(chunks, i) + from..Base(chunks, i) + to]
    {
      SliceAt(chunks, i, from, to);
      assert blocks[i].buf[..|chunks[i]|][from..to] == blocks[i].buf[from..to];
    }

    lemma ByteAt(i: nat, k: nat)
      requires Valid() && i < |blocks| == |chunks| && k < |chunks[i]|
      ensures Base(chunks, i) + k < |Contents()| && blocks[i].buf.Length == capacity > k
      ensures blocks[i].buf[k] == Contents()[Base(chunks, i) + k]
    {
      Slice(i, k, k + 1);
      assert blocks[i].buf[k] == blocks[i].buf[k..k + 1][0];
    }

    method Append(data: Text)
      requires Valid()
      modifies this, repr
      ensures Valid() && Contents() == old(Contents()) + data && fresh(repr - old(repr))
    {
      var pos := 0;
      assert data[..0] == [];
      while pos < |data|
        invariant Valid() && pos <= |data|
        invariant Contents() == old(Contents()) + data[..pos]
        invariant fresh(repr - old(repr))
        decreases |data| - pos, |chunks[|chunks| - 1]|
      {
        assert current in repr && current.buf in repr;
        assert current.length == |chunks[|chunks| - 1]| <= capacity;
        hide Valid;
        var remain := capacity - current.length;
        if remain != 0 {
          var size := if remain > |data| - pos then |data| - pos else remain;
          Put(data[pos..pos + size]);
          assert old(Contents()) + data[..pos] + data[pos..pos + size] == old(Contents()) + data[..pos + size];
          pos := pos + size;
        } else {
          AppendBlock();
        }
      }
      assert data[..pos] == data;
    }

    /** The block behind the i-th, the number of bytes in use in the i-th, and one of them. */
    method Next(cb: ChainBlock, ghost i: nat) returns (next: ChainBlock?)
      requires Valid() && i < |blocks| && cb == blocks[i]
      ensures next == if i + 1 < |blocks| then blocks[i + 1] else null
    {
      return cb.next;
    }

    method Used(cb: ChainBlock, ghost i: nat) returns (used: nat)
      requires Valid() && i < |blocks| && cb == blocks[i]
      ensures |chunks| == |blocks| && used == |chunks[i]|
    {
      return cb.length;
    }

    method At(cb: ChainBlock, ghost i: nat, k: nat) returns (b: Byte)
      requires Valid() && i < |blocks| == |chunks| && cb == blocks[i] && k < |chunks[i]|
      ensures Base(chunks, i) + k < |Contents()| && b == Contents()[Base(chunks, i) + k] == chunks[i][k]
    {
      ByteAt(i, k);
      return cb.buf[k];
    }

    /** The loop with which the readers skip blocks. It may stop behind the last byte of a block. */
    method Seek(start: nat) returns (cb: ChainBlock, index: nat, skip: nat)
      requires Valid() && start < length
      ensures index < |blocks| == |chunks| && cb == blocks[index]
      ensures start == Base(chunks, index) + skip && skip <= |chunks[index]|
    {
      hide Valid;
      hide Base;
      LengthOfContents();
      Block(0);
      skip, cb, index := start, first, 0;
      while skip > capacity
        invariant Valid() && index < |blocks| && cb == blocks[index] && start == Base(chunks, index) + skip
      {
        Block(index);
        skip := skip - capacity;
        index := index + 1;
        cb := cb.next;
      }
      Block(index);
    }

    /** What is in the blocks, byte for byte, in use or not. */
    ghost function Rooms(): (r: seq<Text>)
      reads this, repr
      requires Valid()
      ensures |r| == |blocks| && forall i :: 0 <= i < |r| ==> r[i] == blocks[i].buf[..]
    {
      seq(|blocks|,
          i requires Valid() && 0 <= i < |blocks| reads this, repr => blocks[i].buf[..])
    }

    /** What the chain says of one block and its room. */
    lemma Room(i: nat)
      requires Valid() && i < |blocks|
      ensures |Rooms()| == |blocks| && blocks[0] == first && capacity > 0
      ensures blocks[i].next == if i + 1 < |blocks| then blocks[i + 1] else null
      ensures blocks[i].buf.Length == capacity && Rooms()[i] == blocks[i].buf[..]
      ensures Base(Rooms(), i + 1) == Base(Rooms(), i) + capacity <= |Flat(Rooms())|
      ensures Base(Rooms(), |blocks|) == |Flat(Rooms())| && Base(Rooms(), 0) == 0
    {
      hide Flat;
      BaseStep(Rooms(), i);
    }

    /** The bytes in use come first. */
    lemma ContentsFirst()
      requires Valid()
      ensures length == |Contents()| <= |Flat(Rooms())| && Flat(Rooms())[..length] == Contents()
    {
      hide Flat;
      FlatPrefix(chunks, Rooms(), capacity);
    }

    lemma WithinLength(offset: nat, length: nat)
      requires Valid()
      ensures offset + length <= this.length ==>
        && offset + length <= |Contents()| && offset + length <= |Flat(Rooms())|
        && Contents()[offset..offset + length] == Flat(Rooms())[offset..offset + length]
    {
      ContentsFirst();
      hide *;
    }

    /** The other such loop, which looks at no length and stops in front of the byte. */
    method SeekTo(offset: nat) returns (cb: ChainBlock?, ghost i: nat, skip: nat)
      requires Valid()
      ensures cb == null ==> offset >= |Flat(Rooms())|
      ensures cb != null ==> i < |blocks| == |Rooms()| && cb == blocks[i]
      ensures cb != null ==> offset == Base(Rooms(), i) + skip && skip < capacity
    {
      hide Valid;
      hide Base;
      LengthOfContents();
      Room(0);
      i := 0;
      var block: ChainBlock := first;
      skip := offset;
      while skip >= capacity
        invariant Valid() && i < |blocks| && block == blocks[i] && offset == Base(Rooms(), i) + skip
      {
        Room(i);
        if block.next == null {
          return null, i, skip;
        }
        block, skip, i := block.next, skip - capacity, i + 1;
      }
      return block, i, skip;
    }

    /** One memcpy of writeTo: as much as is wanted and the block has room for. */
    method CopyOut(cb: ChainBlock, ghost i: nat, skip: nat, left: nat, ghost at: nat) returns (piece: Text)
      requires Valid() && i < |blocks| && cb == blocks[i] && skip < capacity && left > 0
      requires at == Base(Rooms(), i) + skip
      ensures 0 < |piece| <= left && at + |piece| <= |Flat(Rooms())|
      ensures piece == Flat(Rooms())[at..at + |piece|]
      ensures cb.next == if i + 1 < |blocks| then blocks[i + 1] else null
      ensures |piece| < left ==> at + |piece| == Base(Rooms(), i + 1)
      ensures |piece| < left && i + 1 == |blocks| ==> at + |piece| == |Flat(Rooms())|
    {
      Room(i);
      hide Base;
      hide Flat;
      var remain := capacity - skip;
      var size := if left > remain then remain else left;
      SliceAt(Rooms(), i, skip, skip + size);
      piece := cb.buf[skip..skip + size];
      assert piece == Rooms()[i][skip..skip + size];
    }

    /** writeTo: as many bytes of the blocks from the offset on as are asked for and there is room
        for in the chain. Within the length they are the contents; behind it they are what the
        last block happens to hold, and they are counted all the same. */
    method WriteTo(length: nat, offset: nat) returns (count: nat, out: Text)
      requires Valid()
      ensures count == if offset >= |Flat(Rooms())| then 0
                       else if offset + length <= |Flat(Rooms())| then length else |Flat(Rooms())| - offset
      ensures out == if count == 0 then [] else Flat(Rooms())[offset..offset + count]
      ensures offset + length <= this.length ==> count == length && out == Contents()[offset..offset + length]
    {
      hide *;
      WithinLength(offset, length);
      ghost var rooms := Flat(Rooms());
      var cb: ChainBlock?, i: nat, skip: nat := SeekTo(offset);
      count, out := 0, [];
      if cb == null {
        return;
      }
      var block: ChainBlock, left: nat := cb, length;
      assert offset < |rooms| by {
        Room(i);
      }
      while left != 0
        invariant Valid() && count + left == length && rooms == Flat(Rooms())
        invariant left != 0 ==> i < |blocks| == |Rooms()| && block == blocks[i] && skip < capacity
        invariant left != 0 ==> offset + count == Base(Rooms(), i) + skip
        invariant offset + count <= |rooms| && out == rooms[offset..offset + count]
        decreases left
      {
        var piece := CopyOut(block, i, skip, left, offset + count);
        Adjacent(rooms, offset, offset + count, offset + count + |piece|);
        out := out + piece;
        left, count, skip := left - |piece|, count + |piece|, 0;
        if left != 0 {
          assert capacity > 0 by {
            Room(i);
          }
          if block.next == null {
            break;
          }
          block, i := block.next, i + 1;
        }
      }
    }

    /** find: the first place from start on that holds the byte, with its block and offset. */
    method Find(c: Byte, start: nat) returns (pos: int, chunkIndex: nat, chunkOffset: nat)
      requires Valid()
      ensures pos == -1 ==> forall k :: start <= k < |Contents()| ==> Contents()[k] != c
      ensures pos != -1 ==> start <= pos < |Contents()| && Contents()[pos] == c
      ensures pos != -1 ==> forall k :: start <= k < pos ==> Contents()[k] != c
      ensures pos != -1 ==> pos == chunkIndex * capacity + chunkOffset && chunkOffset < capacity
    {
      hide *;
      LengthOfContents();
      if start >= length {
        return -1, 0, 0;
      }
      var cb: ChainBlock?;
      cb, chunkIndex, chunkOffset := Seek(start);
      while true
        invariant Valid() && chunkIndex < |blocks| == |chunks| && cb == blocks[chunkIndex]
        invariant chunkOffset <= |chunks[chunkIndex]|
        invariant start <= Base(chunks, chunkIndex) + chunkOffset <= length
        invariant forall k :: start <= k < Base(chunks, chunkIndex) + chunkOffset ==> Contents()[k] != c
        decreases |blocks| - chunkIndex
      {
        var found: bool;
        found, chunkOffset := FindInBlock(c, cb, chunkIndex, chunkOffset, start);
        Block(chunkIndex);
        if found {
          BaseOf(chunkIndex);
          return chunkIndex * capacity + chunkOffset, chunkIndex, chunkOffset;
        }
        cb := Next(cb, chunkIndex);
        if cb == null {
          return -1, 0, 0;
        }
        chunkOffset := 0;
        chunkIndex := chunkIndex + 1;
        Block(chunkIndex);
      }
    }

    /** The inner loop of find. */
    method FindInBlock(c: Byte, cb: ChainBlock, ghost i: nat, from: nat, ghost start: nat)
      returns (found: bool, offset: nat)
      requires Valid() && i < |blocks| == |chunks| && cb == blocks[i] && from <= |chunks[i]|
      requires Base(chunks, i) + from <= length
      requires forall k :: start <= k < Base(chunks, i) + from ==> Contents()[k] != c
      ensures from <= offset <= |chunks[i]| && Base(chunks, i) + offset <= length
      ensures found ==> offset < |chunks[i]| && Base(chunks, i) + offset < length
      ensures found ==> Contents()[Base(chunks, i) + offset] == c
      ensures !found ==> offset == |chunks[i]|
      ensures forall k :: start <= k < Base(chunks, i) + offset ==> Contents()[k] != c
    {
      hide Valid;
      hide Base;
      hide Contents;
      Block(i);
      offset := from;
      var used := Used(cb, i);
      while offset < used
        invariant Valid() && from <= offset <= used
        invariant forall k :: start <= k < Base(chunks, i) + offset ==> Contents()[k] != c
      {
        var b := At(cb, i, offset);
        if b == c {
          return true, offset;
        }
        offset := offset + 1;
      }
      found := false;
    }

    /** The byte at an offset; behind the last byte of a block the next block begins. */
    method NextByte(cb: ChainBlock, ghost i: nat, skip: nat)
      returns (b: Byte, cb': ChainBlock, ghost i': nat, skip': nat)
      requires Valid() && i < |blocks| == |chunks| && cb == blocks[i] && skip <= |chunks[i]|
      requires Base(chunks, i) + skip < length == |Contents()|
      ensures i' < |blocks| && cb' == blocks[i'] && skip' <= |chunks[i']|
      ensures Base(chunks, i') + skip' == Base(chunks, i) + skip + 1
      ensures b == Contents()[Base(chunks, i) + skip]
    {
      Block(i);
      hide Base;
      cb', i', skip' := cb, i, skip;
      if skip >= cb.length {
        cb', i', skip' := cb.next, i + 1, 0;
        Block(i');
      }
      ByteAt(i', skip');
      b := cb'.buf[skip'];
      skip' := skip' + 1;
    }

    lemma StretchGrows(s: Text, start: nat, target: Text, k: nat)
      requires start + k < |s| && k < |target| && s[start..start + k] == target[..k]
      ensures s[start + k] == target[k] ==> s[start..start + (k + 1)] == target[..k + 1]
    {
      assert s[start..start + (k + 1)] == s[start..start + k] + [s[start + k]];
      assert target[..k + 1] == target[..k] + [target[k]];
    }

    /** memcmp: whether the target is the slice at start. */
    method Memcmp(target: Text, start: nat) returns (same: bool)
      requires Valid()
      ensures same <==>
        target != [] && start + |target| <= |Contents()| && Contents()[start..start + |target|] == target
    {
      hide *;
      LengthOfContents();
      if |target| == 0 || start + |target| > length {
        return false;
      }
      var cb: ChainBlock, seen: nat, skip: nat := Seek(start);
      ghost var index: nat := seen;
      for k := 0 to |target|
        invariant Valid() && index < |blocks| == |chunks| && cb == blocks[index] && length == |Contents()|
        invariant skip <= |chunks[index]| && start + k == Base(chunks, index) + skip
        invariant Contents()[start..start + k] == target[..k]
      {
        var b: Byte;
        b, cb, index, skip := NextByte(cb, index, skip);
        StretchGrows(Contents(), start, target, k);
        if target[k] != b {
          assert Contents()[start..start + |target|][k] != target[k];
          return false;
        }
      }
      assert target[..|target|] == target;
      return true;
    }

    /** getLines, one block of the chain. */
    method AddLines(cb: ChainBlock, ghost i: nat, skip: nat, lines0: seq<Text>, unclosure0: bool,
                    ghost first: seq<Text>, ghost start: nat)
      returns (lines: seq<Text>, unclosure: bool)
      requires Valid() && i < |blocks| == |chunks| && cb == blocks[i] && skip <= |chunks[i]|
      requires start <= Base(chunks, i) + skip <= |Contents()| && (unclosure0 ==> skip == 0)
      requires lines0 == first + Lines(Contents()[start..Base(chunks, i) + skip])
      requires unclosure0 == Open(Contents()[start..Base(chunks, i) + skip])
      ensures Base(chunks, i) + skip <= Base(chunks, i + 1) <= length == |Contents()|
      ensures i + 1 == |blocks| ==> Base(chunks, i + 1) == length
      ensures lines == first + Lines(Contents()[start..Base(chunks, i + 1)])
      ensures i + 1 < |blocks| ==> unclosure == Open(Contents()[start..Base(chunks, i + 1)])
    {
      Block(i);
      Slice(i, 0, |chunks[i]|);
      hide *;
      lines, unclosure := LinesOfBlock(cb, skip, lines0, unclosure0, Contents(), Base(chunks, i), first, start);
    }

    /** getLines: the lines of the bytes from offset on are added, wherever the blocks end. */
    method GetLines(lines0: seq<Text>, offset: nat) returns (lines: seq<Text>, count: nat)
      requires Valid()
      ensures offset >= |Contents()| ==> lines == lines0 && count == 0
      ensures offset < |Contents()| ==> lines == lines0 + Lines(Contents()[offset..]) && count == |lines|
    {
      hide *;
      LengthOfContents();
      lines := lines0;
      if offset >= length {
        return lines, 0;
      }
      var seen: nat;
      var cb: ChainBlock?, skip: nat, unclosure := null, 0, false;
      cb, seen, skip := Seek(offset);
      ghost var i: nat, s, at := seen, Contents(), offset;
      NothingYet(s, offset);
      while cb != null
        invariant Valid() && Contents() == s && i <= |blocks| == |chunks|
        invariant cb == if i < |blocks| then blocks[i] else null
        invariant cb != null ==> skip <= |chunks[i]|
        invariant offset <= at <= |s| && at == if cb != null then Base(chunks, i) + skip else |s|
        invariant lines == lines0 + Lines(s[offset..at])
        invariant cb != null ==> unclosure == Open(s[offset..at]) && (unclosure ==> skip == 0)
        decreases |blocks| - i
      {
        lines, unclosure := AddLines(cb, i, skip, lines, unclosure, lines0, offset);
        cb := Next(cb, i);
        skip := 0;
        i := i + 1;
        at := Base(chunks, i);
      }
      assert s[offset..|s|] == s[offset..];
      count := |lines|;
    }
  }

  /** getLines, one block, which holds the text s from base on: its runs go on with the open line
      or make new ones. */
  method LinesOfBlock(cb: ChainBlock, offset0: nat, lines0: seq<Text>, unclosure0: bool,
                      ghost s: Text, ghost base: nat, ghost first: seq<Text>, ghost start: nat)
    returns (lines: seq<Text>, unclosure: bool)
    requires offset0 <= cb.length <= cb.buf.Length && base + cb.length <= |s|
    requires cb.buf[0..cb.length] == s[base..base + cb.length]
    requires start <= base + offset0
    requires lines0 == first + Lines(s[start..base + offset0])
    requires unclosure0 == Open(s[start..base + offset0]) && (unclosure0 ==> offset0 == 0)
    ensures lines == first + Lines(s[start..base + cb.length])
    ensures cb.length > 0 ==> unclosure == Open(s[start..base + cb.length])
  {
    hide *;
    var block := cb.buf[0..cb.length];
    lines, unclosure := lines0, unclosure0;
    var offset := offset0;
    var pos := offset;
    UnbrokenEmpty(s, base + pos);
    while pos < cb.length
      invariant offset0 <= offset <= pos <= cb.length
      invariant lines == first + Lines(s[start..base + offset])
      invariant unclosure == Open(s[start..base + offset]) && (unclosure ==> offset == 0)
      invariant Unbroken(s[base + offset..base + pos])
    {
      assert block[pos] == s[base..base + cb.length][pos] == s[base + pos];
      if IsBreak(cb.buf[pos]) {
        if pos > offset {
          Inner(s, base, cb.length, offset, pos);
          lines := AddRun(block[offset..pos], lines, unclosure, s, start, base + offset, base + pos, first);
        }
        unclosure := false;
        BreakEnds(s, start, base + pos);
        UnbrokenEmpty(s, base + pos + 1);
        pos := pos + 1;
        offset := pos;
      } else {
        UnbrokenGrow(s, base + offset, base + pos);
        pos := pos + 1;
      }
    }
    if pos != offset {
      Inner(s, base, cb.length, offset, pos);
      lines := AddRun(block[offset..pos], lines, unclosure, s, start, base + offset, base + pos, first);
      unclosure := true;
    } else {
      unclosure := false;
    }
  }

  lemma Inner(s: Text, base: nat, length: nat, from: nat, to: nat)
    requires base + length <= |s| && from <= to <= length
    ensures s[base..base + length][from..to] == s[base + from..base + to]
  {
    var block := s[base..base + length];
    assert |block[from..to]| == to - from == |s[base + from..base + to]|;
    assert forall k :: 0 <= k < to - from ==> block[from..to][k] == s[base + from..base + to][k];
  }

  /** The bytes between two offsets of a block continue the open line or make a new one. */
  method AddRun(piece: Text, lines0: seq<Text>, unclosure: bool,
                ghost s: Text, ghost start: nat, ghost from: nat, ghost to: nat, ghost first: seq<Text>)
    returns (lines: seq<Text>)
    requires start <= from < to <= |s| && piece == s[from..to] && Unbroken(piece)
    requires lines0 == first + Lines(s[start..from]) && unclosure == Open(s[start..from])
    ensures lines == first + Lines(s[start..to]) && Open(s[start..to])
  {
    RunGoesOn(s, start, from, to);
    ghost var own := Lines(s[start..from]);
    assert unclosure ==> own != [];
    ExtendBehind(first, own, piece, unclosure);
    hide *;
    if unclosure {
      lines := Extended(lines0, piece);
    } else {
      lines := lines0 + [piece];
    }
  }
}
