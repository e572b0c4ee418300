/**
 The memory pool: blocks are cut from the head chunk of a list, nothing is given
 back before `Clear`, and the pool is shared by handles that count references.
 */
module Allocators {
  import opened Json

  type byte = n: int | 0 <= n < 0x100

  /** RAPIDJSON_ALIGN: up to the next multiple of eight. */
  function Align(n: nat): (r: nat)
    ensures n <= r < n + 8 && r % 8 == 0
  {
    (n + 7) / 8 * 8
  }

  function Least(a: nat, b: nat): nat {
    if a < b then a else b
  }

  /** A chunk, without its header: its memory, and how much of it is in use. */
  class Chunk {
    const buffer: array<byte>
    var size: nat

    constructor (capacity: nat)
      ensures buffer.Length == capacity && size == 0 && fresh(buffer)
    {
      buffer := new byte[capacity](_ => 0);
      size := 0;
    }
  }

  /** A block handed out: `size` bytes of a chunk. */
  datatype Block = Block(chunk: Chunk, offset: nat, size: nat)

  ghost predicate Apart(a: Block, b: Block) {
    a.chunk != b.chunk || a.offset + a.size <= b.offset || b.offset + b.size <= a.offset
  }

  ghost predicate Inside(b: Block)
    reads b.chunk
  {
    && b.size > 0 && b.size % 8 == 0 && b.offset % 8 == 0
    && b.offset + b.size <= b.chunk.size <= b.chunk.buffer.Length
  }

  /** The first `n` bytes of a block. */
  ghost function First(b: Block, n: nat): seq<byte>
    requires b.offset + n <= b.chunk.buffer.Length
    reads b.chunk.buffer
  {
    b.chunk.buffer[b.offset..b.offset + n]
  }

  lemma FirstPrefix(b: Block, n: nat, m: nat)
    requires n <= m && b.offset + m <= b.chunk.buffer.Length
    ensures First(b, n) == First(b, m)[..n]
  {
  }

  /** The chunks are distinct and within their capacity, and none was given back twice or is still in use. */
  ghost predicate ListOk(chunks: seq<Chunk>, freed: seq<Chunk>)
    reads chunks
  {
    && chunks != []
    && (forall i :: 0 <= i < |chunks| ==> chunks[i].size <= chunks[i].buffer.Length && chunks[i].size % 8 == 0)
    && (forall i, j :: 0 <= i < j < |chunks| ==> chunks[i] != chunks[j])
    && (forall i, j :: 0 <= i < j < |chunks| ==> chunks[i].buffer != chunks[j].buffer)
    && (forall i, j :: 0 <= i < j < |freed| ==> freed[i] != freed[j])
    && (forall i, j :: 0 <= i < |freed| && 0 <= j < |chunks| ==> freed[i] != chunks[j])
  }

  lemma HeadFreed(chunks: seq<Chunk>, freed: seq<Chunk>)
    requires ListOk(chunks, freed) && |chunks| > 1
    ensures ListOk(chunks[1..], freed + [chunks[0]])
  {
  }

  function Sizes(chunks: seq<Chunk>): nat
    reads chunks
  {
    if chunks == [] then 0 else chunks[0].size + Sizes(chunks[1..])
  }

  function Capacities(chunks: seq<Chunk>): nat {
    if chunks == [] then 0 else chunks[0].buffer.Length + Capacities(chunks[1..])
  }

  /** The shared data of a pool. */
  class SharedData {
    /** The list of chunks, the head first. */
    var chunks: seq<Chunk>
    var refcount: nat
    /** Whether the destructor of the last handle has run. */
    var destroyed: bool
    /** The blocks handed out since the last `Clear`, and the chunks given back to the base allocator. */
    ghost var blocks: set<Block>
    ghost var freed: seq<Chunk>
    ghost var handles: set<MemoryPoolAllocator>

    ghost predicate ChunksOk()
      reads this, chunks
    {
      ListOk(chunks, freed)
    }

    ghost predicate BlocksOk()
      reads this, chunks
    {
      && (forall b :: b in blocks ==> b.chunk in chunks && Inside(b))
      && (forall a, b :: a in blocks && b in blocks && a != b ==> Apart(a, b))
    }

    ghost predicate Valid()
      reads this, chunks
    {
      ChunksOk() && BlocksOk()
    }

    constructor (capacity: nat)
      ensures Valid() && |chunks| == 1 && fresh(chunks[0]) && fresh(chunks[0].buffer) && chunks[0].buffer.Length == capacity
      ensures refcount == 1 && !destroyed && blocks == {} && freed == [] && handles == {}
    {
      var chunk := new Chunk(capacity);
      chunks, refcount, destroyed := [chunk], 1, false;
      blocks, freed, handles := {}, [], {};
    }

    /** `AddChunk`; false if the base allocator has no memory. */
    method AddChunk(capacity: nat, hasMemory: bool) returns (ok: bool)
      requires Valid()
      modifies this`chunks
      ensures Valid() && ok == hasMemory
      ensures if ok then |chunks| == |old(chunks)| + 1 && fresh(chunks[0]) && fresh(chunks[0].buffer)
                      && chunks[1..] == old(chunks) && chunks[0].size == 0 && chunks[0].buffer.Length == capacity
              else chunks == old(chunks)
    {
      ok := hasMemory;
      if ok {
        var chunk := new Chunk(capacity);
        chunks := [chunk] + chunks;
      }
    }

    /** The head chunk has that many bytes left. */
    ghost predicate HasRoom(bytes: nat)
      requires chunks != []
      reads this, chunks
    {
      chunks[0].size + bytes <= chunks[0].buffer.Length
    }

    /** The block's first bytes are the last ones in use, and the head chunk has room for as many more as asked for. */
    ghost predicate Extends(b: Block, bytes: nat, newBytes: nat)
      requires chunks != [] && bytes <= newBytes
      reads this, chunks
    {
      b.chunk == chunks[0] && b.offset + bytes == chunks[0].size && HasRoom(newBytes - bytes)
    }

    /**
     `Malloc`: none for a size of zero or without memory; a block at the end of
     the head chunk if it has room, and at the start of a new chunk otherwise.
     */
    method Malloc(bytes: nat, chunkCapacity: nat, hasMemory: bool) returns (r: Option<Block>)
      requires Valid()
      modifies this`chunks, this`blocks, chunks[0]
      ensures Valid()
      ensures r.Some? <==> bytes > 0 && (hasMemory || old(HasRoom(Align(bytes))))
      ensures if r.Some? && !old(HasRoom(Align(bytes))) then
                && fresh(chunks[0]) && fresh(chunks[0].buffer) && chunks[1..] == old(chunks)
                && chunks[0].buffer.Length == (if chunkCapacity > Align(bytes) then chunkCapacity else Align(bytes))
              else chunks == old(chunks)
      ensures if r.Some? then
                && r.value == Block(chunks[0], if old(HasRoom(Align(bytes))) then old(chunks[0].size) else 0, Align(bytes))
                && r.value !in old(blocks) && blocks == old(blocks) + {r.value}
              else blocks == old(blocks)
    {
      if bytes == 0 {
        return None;
      }
      var size := Align(bytes);
      if chunks[0].size + size > chunks[0].buffer.Length {
        var ok := AddChunk(if chunkCapacity > size then chunkCapacity else size, hasMemory);
        if !ok {
          return None;
        }
      }
      var block := Cut(size);
      r := Some(block);
    }

    /** The head chunk has that much more in use. */
    method Extend(increment: nat)
      requires ListOk(chunks, freed) && increment % 8 == 0 && chunks[0].size + increment <= chunks[0].buffer.Length
      modifies chunks[0]
      ensures ListOk(chunks, freed) && chunks[0].size == old(chunks[0].size) + increment
    {
      chunks[0].size := chunks[0].size + increment;
    }

    /** The end of `Malloc`: a block is cut from the head chunk. */
    method Cut(size: nat) returns (block: Block)
      requires Valid() && size > 0 && size % 8 == 0 && chunks[0].size + size <= chunks[0].buffer.Length
      modifies this`blocks, chunks[0]
      ensures Valid() && block == Block(chunks[0], old(chunks[0].size), size)
      ensures block !in old(blocks) && blocks == old(blocks) + {block}
    {
      HeadOk();
      hide ListOk;
      block := Block(chunks[0], chunks[0].size, size);
      forall b | b in blocks
        ensures Apart(b, block)
      {
        assert Inside(b);
      }
      Extend(size);
      blocks := blocks + {block};
    }

    /**
     `Realloc`: the block stays if it is large enough, grows in place if it is the
     last one of the head chunk and there is room, and is copied otherwise. No
     byte of any block changes, and the first bytes of the result are the old ones.
     */
    method Realloc(original: Block, originalSize: nat, newSize: nat, chunkCapacity: nat, hasMemory: bool) returns (r: Option<Block>)
      requires Valid() && original in blocks && 0 < originalSize && Align(originalSize) <= original.size
      modifies this`chunks, this`blocks, chunks[0], chunks[0].buffer
      ensures Valid()
      ensures if newSize == 0 then r.None? && blocks == old(blocks)
              else if Align(newSize) <= Align(originalSize) then r == Some(original) && blocks == old(blocks)
              else if old(Extends(original, Align(originalSize), Align(newSize))) then
                r.Some? && r.value == original.(size := Align(newSize)) && blocks == old(blocks) - {original} + {r.value}
              else if hasMemory || old(HasRoom(Align(newSize))) then
                r.Some? && r.value.size == Align(newSize) && r.value !in old(blocks) && blocks == old(blocks) + {r.value}
              else r.None? && blocks == old(blocks)
      ensures r.Some? ==> r.value in blocks
      ensures r.Some? ==> r.value.offset + Least(originalSize, newSize) <= r.value.chunk.buffer.Length
                          && original.offset + originalSize <= original.chunk.buffer.Length
                          && First(r.value, Least(originalSize, newSize)) == old(First(original, Least(originalSize, newSize)))
      ensures forall b :: b in old(blocks) ==> First(b, b.size) == old(First(b, b.size))
    {
      if newSize == 0 {
        return None;
      }
      hide ListOk;
      HeadOk();
      var oldBytes, newBytes := Align(originalSize), Align(newSize);
      ghost var least := Least(originalSize, newSize);
      FirstPrefix(original, least, oldBytes);
      if oldBytes >= newBytes {
        return Some(original);
      }
      if original.chunk == chunks[0] && original.offset == chunks[0].size - oldBytes {
        var increment := newBytes - oldBytes;
        if chunks[0].size + increment <= chunks[0].buffer.Length {
          var grown := Grow(original, increment);
          return Some(grown);
        }
      }
      r := Move(original, oldBytes, newSize, chunkCapacity, hasMemory);
      if r.Some? {
        FirstPrefix(r.value, least, oldBytes);
      }
    }

    /** The end of `Realloc`: a new block with a copy of the old bytes. */
    method Move(original: Block, oldBytes: nat, newSize: nat, chunkCapacity: nat, hasMemory: bool) returns (r: Option<Block>)
      requires Valid() && original in blocks && oldBytes <= original.size && oldBytes < Align(newSize) && newSize > 0
      modifies this`chunks, this`blocks, chunks[0], chunks[0].buffer
      ensures Valid()
      ensures r.Some? <==> hasMemory || old(HasRoom(Align(newSize)))
      ensures if r.Some? then r.value.size == Align(newSize) && r.value !in old(blocks) && blocks == old(blocks) + {r.value}
              else blocks == old(blocks)
      ensures r.Some? ==> r.value.offset + oldBytes <= r.value.chunk.buffer.Length
                          && First(r.value, oldBytes) == old(First(original, oldBytes))
      ensures forall b :: b in old(blocks) ==> First(b, b.size) == old(First(b, b.size))
    {
      hide ListOk;
      r := Malloc(newSize, chunkCapacity, hasMemory);
      if r.Some? {
        CopyBytes(original, r.value, oldBytes);
      }
    }

    /** The last block of the head chunk gets `increment` bytes more. */
    method Grow(original: Block, increment: nat) returns (grown: Block)
      requires Valid() && original in blocks && original.chunk == chunks[0]
      requires original.offset + original.size == chunks[0].size && increment % 8 == 0
      requires chunks[0].size + increment <= chunks[0].buffer.Length
      modifies this`blocks, chunks[0]
      ensures Valid() && grown == Block(original.chunk, original.offset, original.size + increment)
      ensures blocks == old(blocks) - {original} + {grown}
    {
      HeadOk();
      hide ListOk;
      grown := Block(chunks[0], original.offset, original.size + increment);
      forall b | b in blocks && b != original
        ensures Apart(b, grown)
      {
        assert Apart(b, original) && Inside(b);
      }
      Extend(increment);
      blocks := blocks - {original} + {grown};
      assert forall b :: b in blocks ==> b.chunk in chunks && Inside(b);
    }

    /** The bytes of one stretch are copied to another one that does not overlap it. */
    static method MemCopy(from: array<byte>, source: nat, to: array<byte>, target: nat, count: nat)
      requires source + count <= from.Length && target + count <= to.Length
      requires from != to || source + count <= target || target + count <= source
      modifies to
      ensures to[target..target + count] == old(from[source..source + count])
      ensures forall k :: 0 <= k < to.Length && (k < target || target + count <= k) ==> to[k] == old(to[k])
    {
      ghost var bytes := from[source..source + count];
      var i := 0;
      while i < count
        invariant 0 <= i <= count && to[target..target + i] == bytes[..i]
        invariant forall k :: 0 <= k < to.Length && (k < target || target + i <= k) ==> to[k] == old(to[k])
      {
        assert from[source + i] == bytes[i];
        to[target + i] := from[source + i];
        assert to[target..target + i + 1] == to[target..target + i] + [bytes[i]];
        i := i + 1;
      }
    }

    /** The copy of `Realloc`. */
    method CopyBytes(source: Block, target: Block, count: nat)
      requires Valid() && source in blocks && target in blocks && source != target
      requires count <= source.size && count <= target.size
      modifies target.chunk.buffer
      ensures First(target, count) == old(First(source, count))
      ensures forall b :: b in blocks && b != target ==> First(b, b.size) == old(First(b, b.size))
    {
      SameBuffers();
      hide ListOk;
      assert Apart(source, target);
      ghost var was := target.chunk.buffer[..];
      MemCopy(source.chunk.buffer, source.offset, target.chunk.buffer, target.offset, count);
      forall b | b in blocks && b != target
        ensures First(b, b.size) == old(First(b, b.size))
      {
        assert Apart(b, target);
      }
    }

    lemma HeadOk()
      requires Valid()
      ensures chunks != [] && chunks[0].size % 8 == 0
    {
    }

    /** Blocks share a buffer only if they share a chunk. */
    lemma SameBuffers()
      requires Valid()
      ensures forall a, b :: a in blocks && b in blocks && a.chunk.buffer == b.chunk.buffer ==> a.chunk == b.chunk
    {
    }

    /** The loop of `Clear`. */
    method FreeChunks()
      requires ListOk(chunks, freed)
      modifies this`chunks, this`freed
      ensures ListOk(chunks, freed) && chunks == [old(chunks)[|old(chunks)| - 1]]
      ensures freed == old(freed) + old(chunks)[..|old(chunks)| - 1]
    {
      ghost var all := chunks;
      ghost var gone := 0;
      assert chunks != [];
      hide ListOk;
      while |chunks| > 1
        invariant 0 <= gone < |all| && chunks == all[gone..] && freed == old(freed) + all[..gone]
        invariant ListOk(chunks, freed)
      {
        HeadFreed(chunks, freed);
        assert all[..gone + 1] == all[..gone] + [all[gone]];
        freed := freed + [chunks[0]];
        chunks := chunks[1..];
        gone := gone + 1;
      }
    }

    /** `Clear`: every chunk but the first one made is given back. */
    method Clear()
      requires Valid()
      modifies this`chunks, this`blocks, this`freed, chunks
      ensures Valid() && chunks == [old(chunks)[|old(chunks)| - 1]] && chunks[0].size == 0 && blocks == {}
      ensures freed == old(freed) + old(chunks)[..|old(chunks)| - 1]
    {
      blocks := {};
      FreeChunks();
      chunks[0].size := 0;
    }

    /** `Size` and `Capacity`. */
    method Measure() returns (size: nat, capacity: nat)
      requires Valid()
      ensures size == Sizes(chunks) && capacity == Capacities(chunks) && size <= capacity
    {
      size, capacity := 0, 0;
      var i := 0;
      assert chunks[0..] == chunks;
      while i < |chunks|
        invariant 0 <= i <= |chunks|
        invariant size + Sizes(chunks[i..]) == Sizes(chunks) && capacity + Capacities(chunks[i..]) == Capacities(chunks)
        invariant size <= capacity
      {
        assert chunks[i..][1..] == chunks[i + 1..];
        size := size + chunks[i].size;
        capacity := capacity + chunks[i].buffer.Length;
        i := i + 1;
      }
    }

    /** The reference count is the number of handles, and each of them refers here. */
    ghost predicate Counted()
      reads this, handles
    {
      refcount == |handles| && forall h :: h in handles ==> h.shared == this
    }
  }

  /** A handle to a pool; one without a pool has been moved from or destroyed. */
  class MemoryPoolAllocator {
    var chunkCapacity: nat
    var shared: SharedData?

    ghost predicate Valid()
      reads this, shared
      reads if shared != null then shared.handles else {}
      reads if shared != null then shared.chunks else []
    {
      shared != null && shared.Valid() && shared.Counted() && this in shared.handles && !shared.destroyed
    }

    constructor (chunkCapacity: nat, firstCapacity: nat)
      ensures Valid() && fresh(shared) && shared.handles == {this} && shared.blocks == {}
    {
      this.chunkCapacity := chunkCapacity;
      shared := new SharedData(firstCapacity);
      new;
      shared.handles := {this};
    }

    /** The copy constructor. */
    constructor Copy(rhs: MemoryPoolAllocator)
      requires rhs.Valid()
      modifies rhs.shared`refcount, rhs.shared`handles
      ensures Valid() && shared == rhs.shared == old(rhs.shared) && rhs.Valid()
      ensures shared.refcount == old(rhs.shared.refcount) + 1 && shared.handles == old(rhs.shared.handles) + {this}
      ensures shared.blocks == old(rhs.shared.blocks) && shared.chunks == old(rhs.shared.chunks)
    {
      chunkCapacity, shared := rhs.chunkCapacity, rhs.shared;
      new;
      shared.refcount := shared.refcount + 1;
      shared.handles := shared.handles + {this};
    }

    /** `Malloc` on the shared pool; no handle notices but by the new block. */
    method Malloc(bytes: nat, hasMemory: bool) returns (r: Option<Block>)
      requires Valid()
      modifies shared`chunks, shared`blocks, shared.chunks
      ensures Valid()
      ensures r.Some? <==> bytes > 0 && (hasMemory || old(shared.HasRoom(Align(bytes))))
      ensures if r.Some? then r.value.size == Align(bytes) && r.value !in old(shared.blocks) && shared.blocks == old(shared.blocks) + {r.value}
              else shared.blocks == old(shared.blocks)
      ensures forall c :: c in shared.chunks ==> c in old(shared.chunks) || fresh(c)
    {
      shared.HeadOk();
      hide ListOk, SharedData.BlocksOk;
      r := shared.Malloc(bytes, chunkCapacity, hasMemory);
    }

    /**
     The destructor: the last handle clears the pool and gives it back, every
     other one only leaves it.
     */
    method Destroy()
      requires Valid()
      modifies this`shared, shared, shared.chunks
      ensures shared == null && Left(old(shared), this)
    {
      var s := shared;
      s.handles := s.handles - {this};
      shared := null;
      if s.refcount > 1 {
        s.refcount := s.refcount - 1;
      } else {
        s.refcount := 0;
        s.Clear();
        s.destroyed := true;
      }
    }

    /** Assignment: this handle leaves its pool, if it was not the same one, and joins the other. */
    method Assign(rhs: MemoryPoolAllocator)
      requires Valid() && rhs.Valid()
      requires shared != rhs.shared ==> forall c :: c in shared.chunks ==> c !in rhs.shared.chunks
      modifies this, shared, shared.chunks, rhs.shared
      ensures shared == old(rhs.shared) && chunkCapacity == old(rhs.chunkCapacity)
      ensures Valid() && rhs.Valid() && Kept(shared)
      ensures if old(shared) == old(rhs.shared) then shared.handles == old(shared.handles)
              else shared.handles == old(rhs.shared.handles) + {this} && Left(old(shared), this)
    {
      hide ListOk;
      var target, capacity := rhs.shared, rhs.chunkCapacity;
      if target == shared {
        target.refcount := target.refcount + 1;
        target.refcount := target.refcount - 1;
      } else {
        Switch(target);
      }
      chunkCapacity, shared := capacity, target;
    }

    /** The part of assignment where the pools differ: a reference more on the other one, and the destructor. */
    method Switch(target: SharedData)
      requires Valid() && target != shared && target.Valid() && target.Counted() && this !in target.handles
      requires forall c :: c in shared.chunks ==> c !in target.chunks
      modifies this`shared, shared, shared.chunks, target`refcount, target`handles
      ensures shared == null && Left(old(shared), this) && target.Valid() && Kept(target)
      ensures target.refcount == old(target.refcount) + 1 && target.handles == old(target.handles) + {this}
    {
      hide ListOk;
      target.refcount := target.refcount + 1;
      target.handles := target.handles + {this};
      assert target.Valid();
      ghost var kept := set c | c in target.chunks;
      assert kept !! set c | c in shared.chunks;
      label Joined:
      Destroy();
      assert unchanged@Joined(target) && unchanged@Joined(kept);
      assert forall c :: c in target.chunks ==> c in kept;
    }
  }

  /** The pool has the blocks and chunks that it had. */
  twostate predicate Kept(s: SharedData)
    reads s, s.chunks
  {
    s.blocks == old(s.blocks) && s.chunks == old(s.chunks) && s.freed == old(s.freed) && forall c :: c in s.chunks ==> c.size == old(c.size)
  }

  /**
   The handle has left the pool, which keeps its blocks for the handles that
   remain. Without any, it has been cleared and given back.
   */
  twostate predicate Left(s: SharedData, handle: MemoryPoolAllocator)
    reads s, s.chunks, s.handles
  {
    && s.Valid() && s.Counted()
    && s.handles == old(s.handles) - {handle} && s.destroyed == (s.handles == {})
    && if s.handles != {} then Kept(s)
       else |old(s.chunks)| > 0 && s.blocks == {} && s.chunks == [old(s.chunks)[|old(s.chunks)| - 1]]
            && s.freed == old(s.freed) + old(s.chunks)[..|old(s.chunks)| - 1]
  }

  twostate lemma StaysValid(h: MemoryPoolAllocator)
    requires old(h.Valid()) && unchanged(h) && unchanged(h.shared)
    requires forall c :: c in h.shared.chunks ==> unchanged(c)
    requires forall g :: g in h.shared.handles ==> unchanged(g)
    ensures h.Valid()
  {
    assert h.shared.chunks == old(h.shared.chunks) && h.shared.blocks == old(h.shared.blocks);
    assert forall c :: c in h.shared.chunks ==> c.size == old(c.size);
  }

  /** The handle is copied, and then assigned the pool of another one: the copy takes its place in the pool it leaves. */
  method HandOver(a: MemoryPoolAllocator, b: MemoryPoolAllocator) returns (copy: MemoryPoolAllocator)
    requires a.Valid() && b.Valid() && a.shared != b.shared
    requires forall c :: c in a.shared.chunks ==> c !in b.shared.chunks
    modifies a, a.shared, a.shared.chunks, b.shared
    ensures a.Valid() && b.Valid() && copy.Valid() && fresh(copy) && copy.shared == old(a.shared) && a.shared == b.shared == old(b.shared)
    ensures b.shared.handles == old(b.shared.handles) + {a} && copy.shared.handles == old(a.shared.handles) - {a} + {copy}
    ensures Kept(copy.shared) && Kept(b.shared)
  {
    hide ListOk, SharedData.BlocksOk, SharedData.ChunksOk;
    copy := new MemoryPoolAllocator.Copy(a);
    StaysValid(b);
    a.Assign(b);
    assert copy in copy.shared.handles;
  }

  /**
   A block outlives the handle that asked for it. Handle `a` gets a block and
   hands its pool over to a copy: the block stays, for the copy and the other
   handles of the pool. When the copy goes too, the pool is given back exactly if
   no handle is left, and the other pool has what it had.
   */
  method Outlive(a: MemoryPoolAllocator, b: MemoryPoolAllocator, bytes: nat, hasMemory: bool) returns (block: Option<Block>)
    requires a.Valid() && b.Valid() && a.shared != b.shared
    requires forall c :: c in a.shared.chunks ==> c !in b.shared.chunks
    modifies a, a.shared, a.shared.chunks, b.shared
    ensures a.Valid() && b.Valid() && a.shared == b.shared == old(b.shared)
    ensures b.shared.handles == old(b.shared.handles) + {a} && b.shared.blocks == old(b.shared.blocks)
    ensures var s := old(a.shared);
            && s.Valid() && s.Counted() && s.handles == old(a.shared.handles) - {a} && s.destroyed == (s.handles == {})
            && s.blocks == (if s.handles == {} then {} else old(a.shared.blocks) + if block.Some? then {block.value} else {})
  {
    hide ListOk, SharedData.BlocksOk, SharedData.ChunksOk;
    block := a.Malloc(bytes, hasMemory);
    StaysValid(b);
    forall i | 0 <= i < |a.shared.chunks|
      ensures fresh(a.shared.chunks[i]) || a.shared.chunks[i] in old(a.shared.chunks)
    {
      assert a.shared.chunks[i] in a.shared.chunks;
    }
    label Handed:
    var copy := HandOver(a, b);
    label Left:
    ghost var pool := copy.shared;
    copy.Destroy();
    StaysValid@Left(b);
    assert pool.handles == old(pool.handles) - {a};
  }
}
