/** The bump allocator over the shared segment, as one process sees it. */
module SharedAlloc {
  import opened MachineWords
  import opened Wrappers

  type size_t = x: int | 0 <= x < UINT64

  /** ZEND_MM_ALIGNED_SIZE: the addition wraps. */
  function AlignedSize(size: size_t): size_t {
    (size + 7) % UINT64 / 8 * 8
  }

  /** The block holds the request unless the request is within seven bytes of 2^64. */
  lemma AlignedHolds(size: size_t)
    ensures AlignedSize(size) % 8 == 0
    ensures size <= AlignedSize(size) <==> size <= 0xFFFF_FFFF_FFFF_FFF8
    ensures size <= 0xFFFF_FFFF_FFFF_FFF8 ==> AlignedSize(size) < size + 8
    ensures size > 0xFFFF_FFFF_FFFF_FFF8 ==> AlignedSize(size) == 0
  {
    var x := size + 7;
    assert x % UINT64 == if size <= UINT64 - 8 then x else x - UINT64;
    Down8(x % UINT64);
  }

  lemma Down8(x: nat)
    ensures x / 8 * 8 <= x < x / 8 * 8 + 8 && (x / 8 * 8) % 8 == 0 && (x < 8 ==> x / 8 == 0)
  {
  }

  /** The mapping at p; pos is the next free offset. */
  datatype Segment = Segment(p: nat, size: nat, pos: nat, end: nat)

  /** A block handed out since the last reset. */
  datatype Chunk = Chunk(at: nat, len: nat)

  /** The blocks lie end to end from p on and cover pos bytes. */
  ghost predicate Tiled(b: seq<Chunk>, p: nat, pos: nat) {
    if b == [] then pos == 0
    else
      var last := b[|b| - 1];
      last.at >= p && last.len % 8 == 0 && last.at + last.len == p + pos && Tiled(b[..|b| - 1], p, last.at - p)
  }

  function Bytes(b: seq<Chunk>): nat {
    if b == [] then 0 else Bytes(b[..|b| - 1]) + b[|b| - 1].len
  }

  lemma {:induction false} TiledBytes(b: seq<Chunk>, p: nat, pos: nat)
    requires Tiled(b, p, pos)
    ensures Bytes(b) == pos && pos % 8 == 0
    decreases b
  {
    if b != [] { TiledBytes(b[..|b| - 1], p, b[|b| - 1].at - p); }
  }

  lemma {:induction false} TiledWithin(b: seq<Chunk>, p: nat, pos: nat, i: nat)
    requires Tiled(b, p, pos) && i < |b|
    ensures p <= b[i].at && b[i].at + b[i].len <= p + pos && (b[i].at - p) % 8 == 0 && b[i].len % 8 == 0
    decreases b
  {
    var n := |b| - 1;
    if i < n {
      TiledWithin(b[..n], p, b[n].at - p, i);
    } else {
      TiledBytes(b[..n], p, b[n].at - p);
    }
  }

  lemma {:induction false} TiledDisjoint(b: seq<Chunk>, p: nat, pos: nat, i: nat, j: nat)
    requires Tiled(b, p, pos) && i < j < |b|
    ensures b[i].at + b[i].len <= b[j].at
    decreases b
  {
    var n := |b| - 1;
    if j < n {
      TiledDisjoint(b[..n], p, b[n].at - p, i, j);
    } else {
      TiledWithin(b[..n], p, b[n].at - p, i);
    }
  }

  /** A block starts where the ones before it end. */
  lemma {:induction false} TiledStart(b: seq<Chunk>, p: nat, pos: nat, i: nat)
    requires Tiled(b, p, pos) && i < |b|
    ensures b[i].at == p + Bytes(b[..i])
    decreases b
  {
    var n := |b| - 1;
    if i < n {
      TiledStart(b[..n], p, b[n].at - p, i);
      assert b[..n][..i] == b[..i];
    } else {
      TiledBytes(b[..n], p, b[n].at - p);
    }
  }

  class Allocator {
    var segment: Option<Segment>
    ghost var blocks: seq<Chunk>

    ghost predicate Valid()
      reads this
    {
      match segment
      case None => blocks == []
      case Some(s) => 0 < s.p && s.p % 8 == 0 && 0 < s.size && s.p + s.size <= UINT64 && s.end == s.size
                      && s.pos <= s.size && Tiled(blocks, s.p, s.pos)
    }

    constructor ()
      ensures Valid() && segment.None?
    {
      segment, blocks := None, [];
    }

    /** opkit_shared_alloc_startup: mapped is where mmap put the segment, or nowhere. */
    method Startup(requested: size_t, mapped: Option<nat>) returns (success: bool)
      requires Valid() && segment.None?
      requires mapped.Some? ==> 0 < mapped.value && mapped.value % 8 == 0 && mapped.value + requested <= UINT64
      modifies this
      ensures Valid() && (success <==> requested == 0 || mapped.Some?)
      ensures segment == if requested != 0 && mapped.Some?
                then Some(Segment(mapped.value, requested, 0, requested)) else None
      ensures blocks == []
    {
      if requested == 0 {
        return true;
      }
      if mapped.None? {
        return false;
      }
      segment := Some(Segment(mapped.value, requested, 0, requested));
      success := true;
    }

    /** opkit_shared_alloc; 0 stands for NULL. */
    method Alloc(size: size_t) returns (r: nat)
      requires Valid()
      modifies this
      ensures Valid()
      ensures r == 0 <==> old(segment.None? || AlignedSize(size) > segment.value.size - segment.value.pos)
      ensures r == 0 ==> segment == old(segment) && blocks == old(blocks)
      ensures r != 0 ==> (InShm(r) <==> AlignedSize(size) > 0 || old(segment.value.pos < segment.value.size))
      ensures r != 0 ==> r == old(segment.value.p + segment.value.pos)
                         && segment == Some(old(segment.value).(pos := old(segment.value.pos) + AlignedSize(size)))
                         && blocks == old(blocks) + [Chunk(r, AlignedSize(size))]
    {
      var blockSize := AlignedSize(size);
      if segment.None? {
        return 0;
      }
      var s := segment.value;
      if blockSize > s.end - s.pos {
        return 0;
      }
      r := s.p + s.pos;
      AlignedHolds(size);
      assert (blocks + [Chunk(r, blockSize)])[..|blocks|] == blocks;
      segment := Some(s.(pos := s.pos + blockSize));
      blocks := blocks + [Chunk(r, blockSize)];
    }

    /** opkit_shared_alloc_get_free_memory */
    function FreeMemory(): (free: nat)
      requires Valid()
      reads this
      ensures segment.Some? ==> free + Bytes(blocks) == segment.value.size
    {
      match segment
      case None => 0
      case Some(s) =>
        TiledBytes(blocks, s.p, s.pos);
        s.end - s.pos
    }

    /** opkit_accel_in_shm */
    predicate InShm(ptr: nat)
      reads this
    {
      segment.Some? && segment.value.p <= ptr < segment.value.p + segment.value.size
    }

    /** opkit_shm_reset */
    method Reset() returns (success: bool)
      requires Valid()
      modifies this
      ensures Valid() && (success <==> old(segment.Some?)) && blocks == []
      ensures segment == if old(segment.Some?) then Some(old(segment.value).(pos := 0)) else None
    {
      if segment.None? {
        return false;
      }
      segment, blocks := Some(segment.value.(pos := 0)), [];
      success := true;
    }

    /** After any run of allocations and resets the outstanding blocks are aligned, disjoint and inside. */
    lemma BlocksAreSafe(i: nat, j: nat)
      requires Valid() && i < |blocks| && j < |blocks| && i != j
      ensures blocks[i].at % 8 == 0
      ensures blocks[i].at + blocks[i].len <= blocks[j].at || blocks[j].at + blocks[j].len <= blocks[i].at
      ensures blocks[i].at + blocks[i].len <= segment.value.p + segment.value.size
    {
      var s := segment.value;
      TiledWithin(blocks, s.p, s.pos, i);
      if i < j {
        TiledDisjoint(blocks, s.p, s.pos, i, j);
      } else {
        TiledDisjoint(blocks, s.p, s.pos, j, i);
      }
    }

    /** Every address of an outstanding block is recognized, and none outside the mapping is. */
    lemma InShmWithin(i: nat, a: nat)
      requires Valid() && segment.Some?
      ensures i < |blocks| && blocks[i].at <= a < blocks[i].at + blocks[i].len ==> InShm(a)
      ensures a < segment.value.p || a >= segment.value.p + segment.value.size ==> !InShm(a)
    {
      if i < |blocks| { TiledWithin(blocks, segment.value.p, segment.value.pos, i); }
    }

    /** A block is recognized by opkit_accel_in_shm unless those before it had filled the segment; then it is empty. */
    lemma InShmExactly(i: nat)
      requires Valid() && i < |blocks|
      ensures InShm(blocks[i].at) <==> Bytes(blocks[..i]) < segment.value.size
      ensures !InShm(blocks[i].at) ==> blocks[i].len == 0 && segment.value.pos == segment.value.size
    {
      var s := segment.value;
      TiledWithin(blocks, s.p, s.pos, i);
      TiledStart(blocks, s.p, s.pos, i);
    }
  }

  /** A request within seven bytes of 2^64 is granted as an empty block. */
  method HugeRequest(shm: Allocator, size: size_t) returns (r: nat)
    requires shm.Valid() && shm.segment.Some? && size >= 0xFFFF_FFFF_FFFF_FFF9
    modifies shm
    ensures r != 0 && shm.segment == old(shm.segment)
  {
    AlignedHolds(size);
    r := shm.Alloc(size);
  }

  /** opkit_shared_alloc(0) on a full segment hands out its end, which opkit_accel_in_shm takes for foreign memory. */
  method EmptyBlockIsForeign(shm: Allocator) returns (r: nat)
    requires shm.Valid() && shm.segment.Some? && shm.segment.value.pos == shm.segment.value.size
    modifies shm
    ensures r != 0 && !shm.InShm(r) && shm.segment == old(shm.segment)
  {
    r := shm.Alloc(0);
  }
}
