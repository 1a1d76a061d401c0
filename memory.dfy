/**
 The header-tagged allocator of Core/Core.cpp (lines 179-288): appMalloc, appRealloc and
 appFree, and the statistics GTotalAllocationSize and GTotalAllocationCount.

 Memory is modelled abstractly. A block is found by the address of its payload (the pointer
 the allocator hands out) and holds its header and its payload bytes. The system allocator
 is an input: each appMalloc is given the address malloc returned (None for a null pointer),
 and the addresses passed to free are recorded, in order. A fatal error (appError, or a
 failed assert) is an Err outcome that carries the state the allocator had reached.
 */
module Memory {
  import opened Wrappers

  newtype byte = x: int | 0 <= x < 256

  const BlockMagic: byte := 0xAE
  /** sizeof(CBlockHeader): three bytes, one of padding, and an int. */
  const HeaderSize: int := 8
  /** appMalloc's upper limit, 256<<20. */
  const MaxAlloc: int := 256 * 0x10_0000
  /** The alignment appMalloc gets when none is given. Core.h (which declares it) is not part
      of this model; 8 is assumed. */
  const DefaultAlignment: int := 8

  datatype Header = Header(magic: byte, offset: byte, align: byte, blockSize: int)

  datatype Block = Block(hdr: Header, payload: seq<byte>)

  /** The blocks by payload address, the two statistics, and the addresses given to free. */
  datatype Heap = Heap(blocks: map<nat, Block>, totalSize: int, totalCount: int, released: seq<int>)

  datatype AllocError =
    | SizeOutOfRange  // appError("Trying to allocate %d bytes")
    | BadAlignment    // the alignment assert of appMalloc
    | OutOfMemory     // appError("Failed to allocate %d bytes")
    | NullPointer     // the assert(ptr) of appFree
    | Corrupted       // the magic assert of appRealloc and appFree

  datatype Outcome<T> = Outcome(heap: Heap, result: Result<T, AllocError>)

  function Min(a: int, b: int): int { if a <= b then a else b }

  /** Storing an int into a byte keeps its low eight bits. */
  function Byte(x: int): byte { (x % 256) as byte }

  /** appMalloc's assert: a power of two in (1, 256], checked as alignment & (alignment-1). */
  predicate AlignmentOk(a: int)
  {
    1 < a <= 256 && ((a as bv16) & ((a - 1) as bv16)) == 0
  }

  lemma AlignmentLow(a: int)
    requires 1 < a <= 16
    ensures AlignmentOk(a) <==> a in {2, 4, 8, 16}
  {
  }

  lemma AlignmentMid(a: int)
    requires 16 < a <= 64
    ensures AlignmentOk(a) <==> a in {32, 64}
  {
  }

  lemma AlignmentHigh(a: int)
    requires 64 < a <= 128
    ensures AlignmentOk(a) <==> a == 128
  {
  }

  lemma AlignmentUpper(a: int)
    requires 128 < a <= 192
    ensures !AlignmentOk(a)
  {
  }

  lemma AlignmentNearTop(a: int)
    requires 192 < a <= 224
    ensures !AlignmentOk(a)
  {
  }

  lemma AlignmentTop(a: int)
    requires 224 < a < 256
    ensures !AlignmentOk(a)
  {
  }

  /** The bit test accepts exactly the powers of two from 2 to 256. */
  lemma AlignmentOkIsPowerOfTwo(a: int)
    ensures AlignmentOk(a) <==> a in {2, 4, 8, 16, 32, 64, 128, 256}
  {
    if 1 < a <= 16 {
      AlignmentLow(a);
    } else if 16 < a <= 64 {
      AlignmentMid(a);
    } else if 64 < a <= 128 {
      AlignmentHigh(a);
    } else if 128 < a <= 192 {
      AlignmentUpper(a);
    } else if 192 < a <= 224 {
      AlignmentNearTop(a);
    } else if 224 < a < 256 {
      AlignmentTop(a);
    } else if a == 256 {
      assert AlignmentOk(256);
    }
  }

  lemma {:induction false} MulAtLeast(a: int, j: int)
    requires a > 0 && j > 0
    ensures a * j >= a
  {
    if j > 1 {
      MulAtLeast(a, j - 1);
      assert a * j == a * (j - 1) + a;
    }
  }

  lemma MulMod(a: int, k: int)
    requires a > 0
    ensures (a * k) % a == 0
  {
    var r := (a * k) % a;
    var d := (a * k) / a;
    assert a * k == a * d + r;
    assert a * (k - d) == r;
    if k - d > 0 {
      MulAtLeast(a, k - d);
    } else if k - d < 0 {
      MulAtLeast(a, d - k);
    }
  }

  lemma AlignedUp(x: int, a: int)
    requires a > 0
    ensures var r := x + (a - x % a) % a; r % a == 0 && x <= r < x + a
  {
    var q, m := x / a, x % a;
    assert x == a * q + m;
    if m == 0 {
      MulMod(a, 1);
    } else {
      assert (a - m) % a == a - m;
      assert x + (a - m) == a * (q + 1);
      MulMod(a, q + 1);
    }
  }

  /** Align(p, a): the first multiple of a at or after p. */
  function AlignUp(x: int, a: int): (r: int)
    requires a > 0
    ensures r % a == 0 && x <= r < x + a
  {
    AlignedUp(x, a);
    x + (a - x % a) % a
  }

  function Zeros(n: nat): (z: seq<byte>)
    ensures |z| == n && forall i :: 0 <= i < n ==> z[i] == 0
  {
    seq(n, _ => 0)
  }

  /** The payload address appMalloc derives from the raw block at raw: past the header,
      aligned up. */
  function PayloadAt(raw: nat, alignment: int): (ptr: nat)
    requires alignment > 0
    ensures raw + HeaderSize <= ptr < raw + HeaderSize + alignment && ptr % alignment == 0
  {
    AlignUp(raw + HeaderSize, alignment)
  }

  /** The header appMalloc writes: the distance back to the raw block, less one, and the
      alignment less one, each stored in a byte. */
  function NewHeader(raw: nat, ptr: nat, size: int, alignment: int): Header
  {
    var offset := Byte(ptr - raw);
    Header(BlockMagic, Byte(offset as int - 1), Byte(alignment - 1), size)
  }

  /** The raw block a payload address and its header lead back to. */
  function BlockStart(ptr: nat, hdr: Header): int
  {
    ptr - (hdr.offset as int + 1)
  }

  /** hdr->magic-- */
  function Invalidated(b: Block): Block
  {
    b.(hdr := b.hdr.(magic := Byte(b.hdr.magic as int - 1)))
  }

  predicate IsLive(h: Heap, p: nat)
  {
    p in h.blocks && h.blocks[p].hdr.magic == BlockMagic
  }

  /** Every payload is as long as its header says. */
  predicate WellFormed(h: Heap)
  {
    forall p :: p in h.blocks ==> 0 <= h.blocks[p].hdr.blockSize == |h.blocks[p].payload|
  }

  /** appMalloc(size, alignment), the system malloc having returned raw. */
  function MallocStep(h: Heap, size: int, alignment: int, raw: Option<nat>): (r: Outcome<nat>)
    ensures r.result.Ok? ==> r.result.value in r.heap.blocks
  {
    if size < 0 || size >= MaxAlloc then Outcome(h, Err(SizeOutOfRange))
    else if !AlignmentOk(alignment) then Outcome(h, Err(BadAlignment))
    else if raw.None? then Outcome(h, Err(OutOfMemory))
    else
      var ptr := PayloadAt(raw.value, alignment);
      var blk := Block(NewHeader(raw.value, ptr, size, alignment), Zeros(size));
      Outcome(h.(blocks := h.blocks[ptr := blk],
                 totalSize := h.totalSize + size,
                 totalCount := h.totalCount + 1), Ok(ptr))
  }

  /** appFree(ptr). */
  function FreeStep(h: Heap, ptr: nat): (r: Outcome<()>)
    ensures r.result.Ok? <==> ptr != 0 && IsLive(h, ptr)
    ensures r.result.Err? ==> r.heap == h
    ensures r.result.Ok? ==> r.heap.blocks.Keys == h.blocks.Keys && !IsLive(r.heap, ptr)
  {
    if ptr == 0 then Outcome(h, Err(NullPointer))
    else if !IsLive(h, ptr) then Outcome(h, Err(Corrupted))
    else
      var blk := h.blocks[ptr];
      Outcome(Heap(h.blocks[ptr := Invalidated(blk)],
                   h.totalSize - blk.hdr.blockSize,
                   h.totalCount - 1,
                   h.released + [BlockStart(ptr, blk.hdr)]), Ok(()))
  }

  /** memcpy(dst, src, n) into a payload, n clipped to both lengths. */
  function CopyPrefix(dst: seq<byte>, src: seq<byte>, n: int): (r: seq<byte>)
    ensures |r| == |dst|
  {
    var k := if n < 0 then 0 else Min(n, Min(|src|, |dst|));
    src[..k] + dst[k..]
  }

  /** appRealloc on a live, non-null ptr up to its statistics line: the old header is
      invalidated, a block with the old alignment is allocated, the common prefix copied and
      the old raw block released. */
  function Moved(h: Heap, ptr: nat, newSize: int, raw: Option<nat>): (r: Outcome<nat>)
    requires ptr in h.blocks
    ensures r.result.Ok? ==> r.result.value in r.heap.blocks
  {
    var prev := h.blocks[ptr];
    var h1 := h.(blocks := h.blocks[ptr := Invalidated(prev)]);
    var m := MallocStep(h1, newSize, prev.hdr.align as int + 1, raw);
    if m.result.Err? then m
    else
      var q := m.result.value;
      var nb := m.heap.blocks[q];
      var moved := nb.(payload := CopyPrefix(nb.payload, prev.payload, Min(newSize, prev.hdr.blockSize)));
      Outcome(m.heap.(blocks := m.heap.blocks[q := moved],
                      released := m.heap.released + [BlockStart(ptr, prev.hdr)]), Ok(q))
  }

  /** appRealloc(ptr, newSize) as written: GTotalAllocationSize += newSize - oldSize after the
      inner appMalloc has already counted the new block. */
  function ReallocStep(h: Heap, ptr: nat, newSize: int, raw: Option<nat>): (r: Outcome<nat>)
    ensures r.result.Ok? ==> r.result.value in r.heap.blocks
    ensures ptr != 0 && !IsLive(h, ptr) ==> r == Outcome(h, Err(Corrupted))
  {
    if ptr == 0 then MallocStep(h, newSize, DefaultAlignment, raw)
    else if !IsLive(h, ptr) then Outcome(h, Err(Corrupted))
    else
      var m := Moved(h, ptr, newSize, raw);
      if m.result.Err? then m
      else Outcome(m.heap.(totalSize := m.heap.totalSize + newSize - h.blocks[ptr].hdr.blockSize), m.result)
  }

  /** appRealloc with the statistics the allocator otherwise keeps: the inner appMalloc has
      counted the new block, so the old one is uncounted, as appFree would. */
  function ReallocCorrected(h: Heap, ptr: nat, newSize: int, raw: Option<nat>): (r: Outcome<nat>)
    ensures r.result.Ok? ==> r.result.value in r.heap.blocks
    ensures ptr != 0 && !IsLive(h, ptr) ==> r == Outcome(h, Err(Corrupted))
  {
    if ptr == 0 then MallocStep(h, newSize, DefaultAlignment, raw)
    else if !IsLive(h, ptr) then Outcome(h, Err(Corrupted))
    else
      var m := Moved(h, ptr, newSize, raw);
      if m.result.Err? then m
      else Outcome(m.heap.(totalSize := m.heap.totalSize - h.blocks[ptr].hdr.blockSize,
                           totalCount := m.heap.totalCount - 1), m.result)
  }

  // ---------------------------------------------------------------------------------------
  // The allocator's state

  /** The global statistics and the blocks they describe. */
  class Allocator {
    var blocks: map<nat, Block>
    var totalSize: int
    var totalCount: int
    var released: seq<int>

    function State(): Heap
      reads this
    {
      Heap(blocks, totalSize, totalCount, released)
    }

    ghost predicate Valid()
      reads this
    {
      WellFormed(State())
    }

    constructor ()
      ensures Valid() && State() == Heap(map[], 0, 0, [])
    {
      blocks := map[];
      totalSize := 0;
      totalCount := 0;
      released := [];
    }

    /** appMalloc: allocates size zeroed bytes aligned to alignment inside the raw block
        the system malloc returned. */
    method Malloc(size: int, alignment: int, raw: Option<nat>) returns (r: Result<nat, AllocError>)
      requires Valid()
      modifies this
      ensures Valid()
      ensures Outcome(State(), r) == MallocStep(old(State()), size, alignment, raw)
    {
      if size < 0 || size >= MaxAlloc {
        return Err(SizeOutOfRange);
      }
      if !AlignmentOk(alignment) {
        return Err(BadAlignment);
      }
      if raw.None? {
        return Err(OutOfMemory);
      }
      var block := raw.value;
      var ptr := PayloadAt(block, alignment);
      var offset := Byte(ptr - block);
      var hdr := Header(BlockMagic, Byte(offset as int - 1), Byte(alignment - 1), size);
      blocks := blocks[ptr := Block(hdr, Zeros(size))];
      totalSize := totalSize + size;
      totalCount := totalCount + 1;
      return Ok(ptr);
    }

    /** appFree: checks and invalidates the header, uncounts the block, releases the raw
        block. */
    method Free(ptr: nat) returns (r: Result<(), AllocError>)
      requires Valid()
      modifies this
      ensures Valid()
      ensures Outcome(State(), r) == FreeStep(old(State()), ptr)
    {
      if ptr == 0 {
        return Err(NullPointer);
      }
      if ptr !in blocks || blocks[ptr].hdr.magic != BlockMagic {
        return Err(Corrupted);
      }
      var hdr := blocks[ptr].hdr;
      var block := BlockStart(ptr, hdr);
      blocks := blocks[ptr := Invalidated(blocks[ptr])];
      totalSize := totalSize - hdr.blockSize;
      totalCount := totalCount - 1;
      released := released + [block];
      return Ok(());
    }

    /** appRealloc: moves a block into a new one of newSize bytes with the same alignment.
        The statistics are updated as ReallocCorrected says: the old block is uncounted
        rather than counted a second time. */
    method Realloc(ptr: nat, newSize: int, raw: Option<nat>) returns (r: Result<nat, AllocError>)
      requires Valid()
      modifies this
      ensures Valid()
      ensures Outcome(State(), r) == ReallocCorrected(old(State()), ptr, newSize, raw)
    {
      if ptr == 0 {
        r := Malloc(newSize, DefaultAlignment, raw);
        return;
      }
      if ptr !in blocks || blocks[ptr].hdr.magic != BlockMagic {
        return Err(Corrupted);
      }
      ghost var h0 := State();
      var prev := blocks[ptr];
      var block := BlockStart(ptr, prev.hdr);
      blocks := blocks[ptr := Invalidated(prev)];
      var alignment := prev.hdr.align as int + 1;
      var oldSize := prev.hdr.blockSize;
      r := Malloc(newSize, alignment, raw);
      if r.Err? {
        return;
      }
      var q := r.value;
      var nb := blocks[q];
      blocks := blocks[q := nb.(payload := CopyPrefix(nb.payload, prev.payload, Min(newSize, oldSize)))];
      released := released + [block];
      assert ValidMoved: Outcome(State(), r) == Moved(h0, ptr, newSize, raw);
      totalSize := totalSize - oldSize;
      totalCount := totalCount - 1;
      MovedKeepsWellFormed(h0, ptr, newSize, raw);
    }
  }

  // ---------------------------------------------------------------------------------------
  // appMalloc

  /** appMalloc fails for a size outside [0, 256 MiB), then for an alignment that is not a
      power of two in (1, 256], then when the system malloc fails; a failure changes nothing. */
  lemma MallocFailures(h: Heap, size: int, alignment: int, raw: Option<nat>)
    ensures var r := MallocStep(h, size, alignment, raw);
      && (r.result == Err(SizeOutOfRange) <==> size < 0 || size >= MaxAlloc)
      && (r.result == Err(BadAlignment) <==>
            0 <= size < MaxAlloc && alignment !in {2, 4, 8, 16, 32, 64, 128, 256})
      && (r.result == Err(OutOfMemory) <==>
            0 <= size < MaxAlloc && AlignmentOk(alignment) && raw.None?)
      && (r.result.Err? ==> r.heap == h)
  {
    AlignmentOkIsPowerOfTwo(alignment);
  }

  /** A successful appMalloc returns an address aligned as asked inside the raw block, after
      room for the header; it records the header fields, zero-fills the payload, counts size
      bytes and one block, and touches no other block. */
  lemma MallocPlacesBlock(h: Heap, size: int, alignment: int, raw: nat)
    requires 0 <= size < MaxAlloc && AlignmentOk(alignment)
    ensures var r := MallocStep(h, size, alignment, Some(raw));
      && r.result.Ok?
      && var ptr := r.result.value;
      && ptr % alignment == 0
      && raw + HeaderSize <= ptr && ptr + size <= raw + size + HeaderSize + (alignment - 1)
      && var b := r.heap.blocks[ptr];
      && b.hdr.magic == 0xAE
      && b.hdr.offset as int == (ptr - raw - 1) % 256
      && b.hdr.align as int + 1 == alignment
      && b.hdr.blockSize == size
      && b.payload == Zeros(size)
      && r.heap.totalSize == h.totalSize + size
      && r.heap.totalCount == h.totalCount + 1
      && r.heap.released == h.released
      && (forall p :: p != ptr ==> (p in r.heap.blocks <==> p in h.blocks))
      && (forall p :: p != ptr && p in h.blocks ==> r.heap.blocks[p] == h.blocks[p])
  {
    var ptr := PayloadAt(raw, alignment);
    HeaderFields(raw, ptr, size, alignment);
    var blk := Block(NewHeader(raw, ptr, size, alignment), Zeros(size));
    assert MallocStep(h, size, alignment, Some(raw)) ==
      Outcome(h.(blocks := h.blocks[ptr := blk], totalSize := h.totalSize + size,
                 totalCount := h.totalCount + 1), Ok(ptr));
  }

  /** The header appMalloc writes holds the magic, the distance back to the raw block less
      one (modulo the byte), the alignment less one and the size. */
  lemma HeaderFields(raw: nat, ptr: nat, size: int, alignment: int)
    requires 1 < alignment <= 256
    ensures var hd := NewHeader(raw, ptr, size, alignment);
      && hd.magic == 0xAE
      && hd.offset as int == (ptr - raw - 1) % 256
      && hd.align as int + 1 == alignment
      && hd.blockSize == size
  {
    var d := ptr - raw;
    var e := Byte(d) as int;
    assert e == d % 256;
    assert (e - 1) % 256 == (d - 1) % 256;
  }

  /** The padding from a raw block that is 8-aligned, as the system malloc's are, never
      exceeds 256, so the offset byte holds it exactly. */
  lemma PaddingFits(raw: nat, alignment: int)
    requires AlignmentOk(alignment) && raw % 8 == 0
    ensures PayloadAt(raw, alignment) - raw <= 256
  {
    AlignmentOkIsPowerOfTwo(alignment);
    PaddingFitsFor(raw, alignment);
  }

  lemma PaddingFitsFor(raw: nat, a: int)
    requires a in {2, 4, 8, 16, 32, 64, 128, 256} && raw % 8 == 0
    ensures PayloadAt(raw, a) - raw <= 256
  {
    var ptr := PayloadAt(raw, a);
    if a >= 16 {
      EightDividesAlignment(ptr, a);
      SpanOfEights(ptr - raw - HeaderSize, ptr, raw);
    }
  }

  lemma SpanOfEights(d: int, x: int, y: int)
    requires x % 8 == 0 && y % 8 == 0 && d == x - y - 8 && 0 <= d < 256
    ensures d <= 248
  {
  }

  lemma EightDividesAlignment(x: int, a: int)
    requires a in {16, 32, 64, 128, 256} && x % a == 0
    ensures x % 8 == 0
  {
    MulMod(8, (a / 8) * (x / a));
    assert x == 8 * ((a / 8) * (x / a));
  }

  /** When the distance from the raw block to the payload fits the offset byte, appFree gives
      the system free exactly the raw block appMalloc was given. */
  lemma FreeReleasesRawBlock(h: Heap, size: int, alignment: int, raw: nat)
    requires 0 <= size < MaxAlloc && AlignmentOk(alignment)
    requires PayloadAt(raw, alignment) - raw <= 256
    ensures var m := MallocStep(h, size, alignment, Some(raw));
      && m.result.Ok?
      && var f := FreeStep(m.heap, m.result.value);
      && f.result.Ok? && f.heap.released == h.released + [raw]
  {
    OffsetRoundTrip(PayloadAt(raw, alignment) - raw);
  }

  /** A distance in [1, 256] survives being stored, less one, in a byte. */
  lemma OffsetRoundTrip(d: int)
    requires 1 <= d <= 256
    ensures Byte(Byte(d) as int - 1) as int + 1 == d
  {
    if d < 256 {
      assert Byte(d) as int == d;
    } else {
      assert Byte(d) == 0;
    }
  }

  /** Without that, the byte wraps: a 256-aligned block from the raw address 249 lies 263
      bytes in, and appFree would release address 505 instead of 249. */
  lemma OffsetByteWraps()
    ensures var m := MallocStep(Heap(map[], 0, 0, []), 0, 256, Some(249));
      && m.result == Ok(512)
      && FreeStep(m.heap, 512).heap.released == [505]
  {
    WrappedMalloc();
    assert FreeStep(WrappedBlock, 512).heap.released == [512 - 7];
  }

  /** The heap after appMalloc(0, 256) from the raw block 249: the offset byte holds 6. */
  const WrappedBlock: Heap := Heap(map[512 := Block(Header(0xAE, 6, 255, 0), [])], 0, 1, [])

  lemma WrappedMalloc()
    ensures MallocStep(Heap(map[], 0, 0, []), 0, 256, Some(249)) == Outcome(WrappedBlock, Ok(512))
  {
    assert PayloadAt(249, 256) == 512;
    assert AlignmentOk(256);
    assert NewHeader(249, 512, 0, 256) == Header(0xAE, 6, 255, 0);
  }

  // ---------------------------------------------------------------------------------------
  // appFree

  /** appFree refuses a null pointer and a pointer whose header is not live; otherwise it
      decrements the magic, uncounts the recorded size and one block, and releases the raw
      block the header leads back to. */
  lemma FreeUncounts(h: Heap, ptr: nat)
    ensures var f := FreeStep(h, ptr);
      && (f.result == Err(NullPointer) <==> ptr == 0)
      && (f.result == Err(Corrupted) <==> ptr != 0 && !IsLive(h, ptr))
      && (f.result.Err? ==> f.heap == h)
      && (f.result.Ok? ==>
            && f.heap.blocks[ptr].hdr.magic == 0xAD
            && f.heap.blocks[ptr].payload == h.blocks[ptr].payload
            && f.heap.totalSize == h.totalSize - h.blocks[ptr].hdr.blockSize
            && f.heap.totalCount == h.totalCount - 1
            && f.heap.released == h.released + [ptr - (h.blocks[ptr].hdr.offset as int + 1)])
  {
  }

  /** Freeing a pointer a second time, or reallocating it after freeing it, fails the magic
      check. */
  lemma DoubleFreeDetected(h: Heap, ptr: nat, size2: int, raw2: Option<nat>)
    requires FreeStep(h, ptr).result.Ok?
    ensures FreeStep(FreeStep(h, ptr).heap, ptr).result == Err(Corrupted)
    ensures ReallocStep(FreeStep(h, ptr).heap, ptr, size2, raw2).result == Err(Corrupted)
  {
    assert FreeStep(h, ptr).heap.blocks[ptr].hdr.magic == 0xAD;
  }

  // ---------------------------------------------------------------------------------------
  // appRealloc

  /** appRealloc of a null pointer is appMalloc with the default alignment. */
  lemma ReallocNullIsMalloc(h: Heap, newSize: int, raw: Option<nat>)
    ensures ReallocStep(h, 0, newSize, raw) == MallocStep(h, newSize, DefaultAlignment, raw)
  {
  }

  /** A successful appRealloc keeps the alignment, returns a block of newSize bytes holding
      the old payload's first min(newSize, oldSize) bytes and zeros after them, invalidates
      the old header and releases the old raw block. */
  lemma ReallocMovesPayload(h: Heap, ptr: nat, newSize: int, raw: Option<nat>)
    requires WellFormed(h) && ptr != 0 && IsLive(h, ptr)
    requires ReallocStep(h, ptr, newSize, raw).result.Ok?
    ensures var r := ReallocStep(h, ptr, newSize, raw);
      var q := r.result.value;
      var prev := h.blocks[ptr];
      var n := Min(newSize, prev.hdr.blockSize);
      && q % (prev.hdr.align as int + 1) == 0
      && r.heap.blocks[q].hdr.align == prev.hdr.align
      && r.heap.blocks[q].hdr.blockSize == newSize
      && |r.heap.blocks[q].payload| == newSize
      && r.heap.blocks[q].payload[..n] == prev.payload[..n]
      && (forall i :: n <= i < newSize ==> r.heap.blocks[q].payload[i] == 0)
      && (q != ptr ==> !IsLive(r.heap, ptr))
      && r.heap.released == h.released + [BlockStart(ptr, prev.hdr)]
  {
    var prev := h.blocks[ptr];
    var h1 := h.(blocks := h.blocks[ptr := Invalidated(prev)]);
    var a := prev.hdr.align as int + 1;
    MallocPlacesBlock(h1, newSize, a, raw.value);
  }

  /** The statistics as written: the inner appMalloc counts newSize bytes and a block, and
      appRealloc then adds newSize - oldSize, so the size grows by 2*newSize - oldSize and
      the count by one. */
  lemma ReallocCounters(h: Heap, ptr: nat, newSize: int, raw: Option<nat>)
    requires ptr != 0 && IsLive(h, ptr)
    requires ReallocStep(h, ptr, newSize, raw).result.Ok?
    ensures var r := ReallocStep(h, ptr, newSize, raw);
      && r.heap.totalSize == h.totalSize + 2 * newSize - h.blocks[ptr].hdr.blockSize
      && r.heap.totalCount == h.totalCount + 1
  {
    var prev := h.blocks[ptr];
    var h1 := h.(blocks := h.blocks[ptr := Invalidated(prev)]);
    MallocPlacesBlock(h1, newSize, prev.hdr.align as int + 1, raw.value);
  }

  /** When the inner appMalloc fails, the old header has already been invalidated: the old
      block is neither live nor released, and the statistics still count it. */
  lemma ReallocFailureStrandsBlock(h: Heap, ptr: nat, newSize: int)
    requires ptr != 0 && IsLive(h, ptr)
    ensures var r := ReallocStep(h, ptr, newSize, None);
      && r.result.Err?
      && !IsLive(r.heap, ptr)
      && r.heap.totalSize == h.totalSize && r.heap.totalCount == h.totalCount
      && r.heap.released == h.released
  {
    var prev := h.blocks[ptr];
    var h1 := h.(blocks := h.blocks[ptr := Invalidated(prev)]);
    MallocFailures(h1, newSize, prev.hdr.align as int + 1, None);
  }

  /** A pointer appRealloc has moved cannot be freed or reallocated any more. */
  lemma FreeAfterReallocDetected(h: Heap, ptr: nat, newSize: int, raw: Option<nat>, size2: int, raw2: Option<nat>)
    requires WellFormed(h) && ptr != 0 && IsLive(h, ptr)
    requires ReallocStep(h, ptr, newSize, raw).result.Ok?
    requires ReallocStep(h, ptr, newSize, raw).result.value != ptr
    ensures FreeStep(ReallocStep(h, ptr, newSize, raw).heap, ptr).result == Err(Corrupted)
    ensures ReallocStep(ReallocStep(h, ptr, newSize, raw).heap, ptr, size2, raw2).result == Err(Corrupted)
  {
    ReallocMovesPayload(h, ptr, newSize, raw);
  }

  // ---------------------------------------------------------------------------------------
  // Every step keeps payloads as long as their headers say

  lemma MallocKeepsWellFormed(h: Heap, size: int, alignment: int, raw: Option<nat>)
    requires WellFormed(h)
    ensures WellFormed(MallocStep(h, size, alignment, raw).heap)
  {
  }

  lemma MovedKeepsWellFormed(h: Heap, ptr: nat, newSize: int, raw: Option<nat>)
    requires WellFormed(h) && ptr in h.blocks
    ensures WellFormed(Moved(h, ptr, newSize, raw).heap)
  {
    var prev := h.blocks[ptr];
    var h1 := h.(blocks := h.blocks[ptr := Invalidated(prev)]);
    MallocKeepsWellFormed(h1, newSize, prev.hdr.align as int + 1, raw);
  }

  // ---------------------------------------------------------------------------------------
  // The statistics against the live blocks

  /** The blocks whose header is live. */
  function Live(h: Heap): set<nat>
  {
    set p | p in h.blocks && h.blocks[p].hdr.magic == BlockMagic
  }

  /** The recorded sizes of the blocks at the addresses s. */
  ghost function SizeSum(bl: map<nat, Block>, s: set<nat>): int
    requires s <= bl.Keys
    decreases s
  {
    if s == {} then 0
    else
      var x :| x in s;
      bl[x].hdr.blockSize + SizeSum(bl, s - {x})
  }

  lemma {:induction false} SizeSumRemove(bl: map<nat, Block>, s: set<nat>, y: nat)
    requires s <= bl.Keys && y in s
    ensures SizeSum(bl, s) == bl[y].hdr.blockSize + SizeSum(bl, s - {y})
    decreases s
  {
    var x :| x in s && SizeSum(bl, s) == bl[x].hdr.blockSize + SizeSum(bl, s - {x});
    if x != y {
      SizeSumRemove(bl, s - {x}, y);
      SizeSumRemove(bl, s - {y}, x);
      assert s - {x} - {y} == s - {y} - {x};
    }
  }

  lemma {:induction false} SizeSumFrame(bl1: map<nat, Block>, bl2: map<nat, Block>, s: set<nat>)
    requires s <= bl1.Keys && s <= bl2.Keys
    requires forall p :: p in s ==> bl1[p].hdr.blockSize == bl2[p].hdr.blockSize
    ensures SizeSum(bl1, s) == SizeSum(bl2, s)
    decreases s
  {
    if s != {} {
      var x :| x in s;
      SizeSumRemove(bl1, s, x);
      SizeSumRemove(bl2, s, x);
      SizeSumFrame(bl1, bl2, s - {x});
    }
  }

  /** The statistics describe the live blocks: their total size and their number. */
  ghost predicate Consistent(h: Heap)
  {
    h.totalSize == SizeSum(h.blocks, Live(h)) && h.totalCount == |Live(h)|
  }

  lemma LiveAdded(h: Heap, h2: Heap, q: nat)
    requires IsLive(h2, q)
    requires forall p :: p != q ==> (p in h2.blocks <==> p in h.blocks)
    requires forall p :: p != q && p in h.blocks ==> h2.blocks[p].hdr == h.blocks[p].hdr
    ensures Live(h2) == Live(h) + {q}
  {
  }

  lemma LiveDropped(h: Heap, h2: Heap, q: nat)
    requires !IsLive(h2, q)
    requires forall p :: p != q ==> (p in h2.blocks <==> p in h.blocks)
    requires forall p :: p != q && p in h.blocks ==> h2.blocks[p].hdr == h.blocks[p].hdr
    ensures Live(h2) == Live(h) - {q}
  {
  }

  /** Adding a live block at a fresh address adds its size and one to the sums. */
  lemma AddLive(h: Heap, h2: Heap, q: nat)
    requires q !in Live(h) && IsLive(h2, q)
    requires forall p :: p != q ==> (p in h2.blocks <==> p in h.blocks)
    requires forall p :: p != q && p in h.blocks ==> h2.blocks[p].hdr == h.blocks[p].hdr
    ensures Live(h2) == Live(h) + {q}
    ensures SizeSum(h2.blocks, Live(h2)) == SizeSum(h.blocks, Live(h)) + h2.blocks[q].hdr.blockSize
    ensures |Live(h2)| == |Live(h)| + 1
  {
    LiveAdded(h, h2, q);
    SizeSumRemove(h2.blocks, Live(h2), q);
    assert Live(h2) - {q} == Live(h);
    SizeSumFrame(h2.blocks, h.blocks, Live(h));
  }

  /** Invalidating a live block removes its size and one from the sums. */
  lemma DropLive(h: Heap, h2: Heap, q: nat)
    requires IsLive(h, q) && !IsLive(h2, q)
    requires forall p :: p != q ==> (p in h2.blocks <==> p in h.blocks)
    requires forall p :: p != q && p in h.blocks ==> h2.blocks[p].hdr == h.blocks[p].hdr
    ensures Live(h2) == Live(h) - {q}
    ensures SizeSum(h2.blocks, Live(h2)) == SizeSum(h.blocks, Live(h)) - h.blocks[q].hdr.blockSize
    ensures |Live(h2)| == |Live(h)| - 1
  {
    LiveDropped(h, h2, q);
    SizeSumRemove(h.blocks, Live(h), q);
    SizeSumFrame(h2.blocks, h.blocks, Live(h2));
  }

  /** Rewriting payloads leaves the live set and the sums alone. */
  lemma SameHeaders(h: Heap, h2: Heap)
    requires h2.blocks.Keys == h.blocks.Keys
    requires forall p :: p in h.blocks ==> h2.blocks[p].hdr == h.blocks[p].hdr
    ensures Live(h2) == Live(h)
    ensures SizeSum(h2.blocks, Live(h2)) == SizeSum(h.blocks, Live(h))
  {
    assert Live(h2) == Live(h);
    SizeSumFrame(h2.blocks, h.blocks, Live(h));
  }

  /** appMalloc keeps the statistics right when the system malloc hands out an address no
      live block has. */
  lemma MallocKeepsConsistent(h: Heap, size: int, alignment: int, raw: Option<nat>)
    requires Consistent(h)
    requires var r := MallocStep(h, size, alignment, raw); r.result.Ok? ==> r.result.value !in Live(h)
    ensures Consistent(MallocStep(h, size, alignment, raw).heap)
  {
    var r := MallocStep(h, size, alignment, raw);
    if r.result.Ok? {
      AddLive(h, r.heap, r.result.value);
    }
  }

  /** appFree keeps the statistics right. */
  lemma FreeKeepsConsistent(h: Heap, ptr: nat)
    requires Consistent(h)
    ensures Consistent(FreeStep(h, ptr).heap)
  {
    var f := FreeStep(h, ptr);
    if f.result.Ok? {
      DropLive(h, f.heap, ptr);
    }
  }

  /** What appRealloc's move does to the blocks: the old header is invalidated, a live block
      of newSize bytes appears at the new address, no other header changes, and the
      statistics so far count the new block (the old one still counted). */
  lemma MovedShape(h: Heap, ptr: nat, newSize: int, raw: Option<nat>)
    requires IsLive(h, ptr)
    requires var mv := Moved(h, ptr, newSize, raw); mv.result.Ok? && mv.result.value != ptr
    ensures var mv := Moved(h, ptr, newSize, raw);
      var q := mv.result.value;
      && mv.heap.blocks.Keys == h.blocks.Keys + {q}
      && ptr in mv.heap.blocks && !IsLive(mv.heap, ptr)
      && mv.heap.blocks[ptr].hdr.blockSize == h.blocks[ptr].hdr.blockSize
      && IsLive(mv.heap, q) && mv.heap.blocks[q].hdr.blockSize == newSize
      && (forall p :: p in h.blocks && p != q && p != ptr ==> mv.heap.blocks[p].hdr == h.blocks[p].hdr)
      && mv.heap.totalSize == h.totalSize + newSize
      && mv.heap.totalCount == h.totalCount + 1
  {
    var prev := h.blocks[ptr];
    var h1 := h.(blocks := h.blocks[ptr := Invalidated(prev)]);
    var a := prev.hdr.align as int + 1;
    var m := MallocStep(h1, newSize, a, raw);
    MallocFailures(h1, newSize, a, raw);
    MallocPlacesBlock(h1, newSize, a, raw.value);
    var q := m.result.value;
    var mv := Moved(h, ptr, newSize, raw);
    assert mv.heap.blocks == m.heap.blocks[q := mv.heap.blocks[q]];
    assert mv.heap.blocks[q].hdr == m.heap.blocks[q].hdr;
    RelocatedShape(h, m.heap, mv.heap, ptr, q, newSize);
  }

  /** The block map after the move, from the facts about the inner appMalloc. */
  lemma RelocatedShape(h: Heap, m: Heap, mv: Heap, ptr: nat, q: nat, newSize: int)
    requires IsLive(h, ptr) && q != ptr
    requires q in m.blocks && m.blocks[q].hdr.magic == 0xAE && m.blocks[q].hdr.blockSize == newSize
    requires forall p :: p != q ==> (p in m.blocks <==> p in h.blocks)
    requires forall p :: p != q && p != ptr && p in h.blocks ==> m.blocks[p] == h.blocks[p]
    requires ptr in m.blocks && m.blocks[ptr] == Invalidated(h.blocks[ptr])
    requires q in mv.blocks && mv.blocks == m.blocks[q := mv.blocks[q]] && mv.blocks[q].hdr == m.blocks[q].hdr
    requires mv.totalSize == h.totalSize + newSize && mv.totalCount == h.totalCount + 1
    ensures mv.blocks.Keys == h.blocks.Keys + {q}
    ensures ptr in mv.blocks && !IsLive(mv, ptr)
    ensures mv.blocks[ptr].hdr.blockSize == h.blocks[ptr].hdr.blockSize
    ensures IsLive(mv, q) && mv.blocks[q].hdr.blockSize == newSize
    ensures forall p :: p in h.blocks && p != q && p != ptr ==> mv.blocks[p].hdr == h.blocks[p].hdr
    ensures mv.totalSize == h.totalSize + newSize
    ensures mv.totalCount == h.totalCount + 1
  {
    assert Invalidated(h.blocks[ptr]).hdr.magic == 0xAD;
  }

  /** Replacing a live block at ptr by a live block at a fresh address q. */
  lemma ReplaceLive(h: Heap, h2: Heap, ptr: nat, q: nat)
    requires IsLive(h, ptr) && q !in Live(h)
    requires h2.blocks.Keys == h.blocks.Keys + {q}
    requires !IsLive(h2, ptr) && IsLive(h2, q)
    requires h2.blocks[ptr].hdr.blockSize == h.blocks[ptr].hdr.blockSize
    requires forall p :: p in h.blocks && p != q && p != ptr ==> h2.blocks[p].hdr == h.blocks[p].hdr
    ensures Live(h2) == Live(h) - {ptr} + {q}
    ensures SizeSum(h2.blocks, Live(h2)) ==
      SizeSum(h.blocks, Live(h)) - h.blocks[ptr].hdr.blockSize + h2.blocks[q].hdr.blockSize
    ensures |Live(h2)| == |Live(h)|
  {
    var h1 := h.(blocks := h.blocks[ptr := h2.blocks[ptr]]);
    DropLive(h, h1, ptr);
    AddLive(h1, h2, q);
  }

  /** Moving a live block to a fresh address: the old block leaves the live set and the new
      one joins it, while the statistics so far count both. */
  lemma MovedSums(h: Heap, ptr: nat, newSize: int, raw: Option<nat>)
    requires IsLive(h, ptr)
    requires var mv := Moved(h, ptr, newSize, raw); mv.result.Ok? && mv.result.value !in Live(h)
    ensures var mv := Moved(h, ptr, newSize, raw);
      && Live(mv.heap) == Live(h) - {ptr} + {mv.result.value}
      && SizeSum(mv.heap.blocks, Live(mv.heap)) == SizeSum(h.blocks, Live(h)) - h.blocks[ptr].hdr.blockSize + newSize
      && |Live(mv.heap)| == |Live(h)|
      && mv.heap.totalSize == h.totalSize + newSize
      && mv.heap.totalCount == h.totalCount + 1
  {
    var mv := Moved(h, ptr, newSize, raw);
    MovedShape(h, ptr, newSize, raw);
    ReplaceLive(h, mv.heap, ptr, mv.result.value);
  }

  /** With the statistics corrected, a successful appRealloc keeps them right, as appFree
      followed by appMalloc would. (A failed one has invalidated the old header and still
      counts it; that outcome is fatal.) */
  lemma ReallocCorrectedKeepsConsistent(h: Heap, ptr: nat, newSize: int, raw: Option<nat>)
    requires Consistent(h)
    requires var r := ReallocCorrected(h, ptr, newSize, raw); r.result.Ok? && r.result.value !in Live(h)
    ensures Consistent(ReallocCorrected(h, ptr, newSize, raw).heap)
  {
    if ptr == 0 {
      MallocKeepsConsistent(h, newSize, DefaultAlignment, raw);
    } else {
      var mv := Moved(h, ptr, newSize, raw);
      MovedSums(h, ptr, newSize, raw);
      var r := ReallocCorrected(h, ptr, newSize, raw);
      assert r.heap.blocks == mv.heap.blocks;
      assert Live(r.heap) == Live(mv.heap);
    }
  }

  /** The correction touches the statistics only: the blocks, the released addresses and the
      result are those of appRealloc as written. */
  lemma ReallocCorrectedSameBlocks(h: Heap, ptr: nat, newSize: int, raw: Option<nat>)
    ensures var r := ReallocCorrected(h, ptr, newSize, raw);
      var w := ReallocStep(h, ptr, newSize, raw);
      && r.result == w.result && r.heap.blocks == w.heap.blocks && r.heap.released == w.heap.released
      && (r.result.Ok? && ptr != 0 ==>
            && r.heap.totalSize == w.heap.totalSize - newSize
            && r.heap.totalCount == w.heap.totalCount - 1)
  {
  }

  /** As written, a successful appRealloc of a live block leaves one block and newSize bytes
      counted that no live block accounts for. */
  lemma ReallocOvercounts(h: Heap, ptr: nat, newSize: int, raw: Option<nat>)
    requires Consistent(h) && ptr != 0 && IsLive(h, ptr)
    requires var r := ReallocStep(h, ptr, newSize, raw); r.result.Ok? && r.result.value !in Live(h)
    ensures var r := ReallocStep(h, ptr, newSize, raw);
      && r.heap.totalCount == |Live(r.heap)| + 1
      && r.heap.totalSize == SizeSum(r.heap.blocks, Live(r.heap)) + newSize
  {
    MovedSums(h, ptr, newSize, raw);
  }

  /** The heap after appMalloc(10) from the raw block 1000. */
  const OneBlock: Heap := Heap(map[1008 := Block(Header(0xAE, 7, 7, 10), Zeros(10))], 10, 1, [])

  lemma FirstMalloc()
    ensures MallocStep(Heap(map[], 0, 0, []), 10, 8, Some(1000)) == Outcome(OneBlock, Ok(1008))
    ensures Consistent(OneBlock) && Live(OneBlock) == {1008}
  {
    assert AlignmentOk(8);
    assert PayloadAt(1000, 8) == 1008;
    var h0 := Heap(map[], 0, 0, []);
    assert Live(h0) == {};
    AddLive(h0, OneBlock, 1008);
  }

  /** For instance appMalloc(10) and then appRealloc to 20 bytes: one block of 20 bytes is
      live, but two blocks and 40 bytes are counted. */
  lemma ReallocBreaksStatistics()
    ensures var m := MallocStep(Heap(map[], 0, 0, []), 10, 8, Some(1000));
      var r := ReallocStep(m.heap, 1008, 20, Some(2000));
      && m.result == Ok(1008) && Consistent(m.heap)
      && r.result == Ok(2008)
      && Live(r.heap) == {2008} && SizeSum(r.heap.blocks, Live(r.heap)) == 20
      && r.heap.totalSize == 40 && r.heap.totalCount == 2
  {
    FirstMalloc();
    SecondRealloc();
  }

  /** appRealloc(1008, 20) on OneBlock, from the raw block 2000. */
  lemma SecondRealloc()
    ensures var r := ReallocStep(OneBlock, 1008, 20, Some(2000));
      && r.result == Ok(2008)
      && Live(r.heap) == {2008} && SizeSum(r.heap.blocks, Live(r.heap)) == 20
      && r.heap.totalSize == 40 && r.heap.totalCount == 2
  {
    FirstMalloc();
    assert AlignmentOk(8);
    assert PayloadAt(2000, 8) == 2008;
    assert Moved(OneBlock, 1008, 20, Some(2000)).result == Ok(2008);
    ReallocOvercounts(OneBlock, 1008, 20, Some(2000));
  }
}
