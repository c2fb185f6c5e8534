/**
 * A hive cell: one mapped region of `capacity` bytes handed out front to back
 * by a bump allocator. Blocks are offsets into the region; `used` is the
 * fill level. The model follows the DEBUG build, which also keeps the
 * allocation count, the largest block, the peak fill level and the page size.
 */
module Cells {
  import opened Words
  import opened HiveMath
  import opened Wrappers

  /** The least alignment a block gets. */
  const MIN_ALIGN: Size := 16

  /** The half-open range [start, start + length). */
  datatype Range = Range(start: nat, length: nat) {
    function End(): nat { start + length }
  }

  predicate Disjoint(a: Range, b: Range)
  {
    a.End() <= b.start || b.End() <= a.start
  }

  function Max(x: Size, y: Size): Size
  {
    if x < y then y else x
  }

  lemma MinAlignPow2()
    ensures IsPow2(MIN_ALIGN)
  {
    assert IsPow2(2) by { assert IsPow2(1); }
    assert IsPow2(8) by { assert IsPow2(4); }
  }

  /** The alignment a block really gets: the requested one raised to 16. */
  function EffectiveAlign(align: Size): (r: Size)
    ensures r >= align && r >= MIN_ALIGN
    ensures r == align || r == MIN_ALIGN
  {
    if align < MIN_ALIGN then MIN_ALIGN else align
  }

  lemma EffectiveAlignPow2(align: Size)
    requires align < MIN_ALIGN || IsPow2(align)
    ensures IsPow2(EffectiveAlign(align)) && EffectiveAlign(align) >= MIN_ALIGN
    ensures EffectiveAlign(align) <= WORD_MODULUS / 2
  {
    MinAlignPow2();
    Pow2InWord(EffectiveAlign(align));
  }

  // ---------------------------------------------------------------------------
  // The bump step

  /** A successful bump: the block's offset and the new fill level. */
  datatype Carved = Carved(start: Size, end: Size)

  /**
   * Whether a block of `size` bytes may be placed at offset `s`: aligned,
   * not below the fill level, and inside the cell.
   */
  predicate CanPlace(used: nat, capacity: nat, size: nat, align: nat, s: nat)
    requires align > 0
  {
    s % align == 0 && used <= s && s + size <= capacity
  }

  /**
   * The bump step of `hive_cell_align_alloc`: round the fill level up to the
   * effective alignment and place the block there if it fits. The end offset
   * is compared without wrap-around (see CarveAsWritten for the C as written).
   */
  function Carve(used: Size, capacity: Size, size: Size, align: Size): (r: Option<Carved>)
    requires used <= capacity <= WORD_MODULUS / 2
    requires align < MIN_ALIGN || IsPow2(align)
    ensures r.Some? ==> CanPlace(used, capacity, size, EffectiveAlign(align), r.value.start)
    ensures r.Some? ==> r.value.end == r.value.start + size
    ensures r.Some? ==> r.value.start < used + EffectiveAlign(align)
  {
    var a := EffectiveAlign(align);
    EffectiveAlignPow2(align);
    var start := AlignUp(used, a);
    if start + size > capacity then None else Some(Carved(start, start + size))
  }

  /** The block goes at the least offset where it can be placed. */
  lemma CarveLeast(used: Size, capacity: Size, size: Size, align: Size, s: nat)
    requires used <= capacity <= WORD_MODULUS / 2
    requires align < MIN_ALIGN || IsPow2(align)
    requires EffectiveAlign(align) > 0
    requires CanPlace(used, capacity, size, EffectiveAlign(align), s)
    ensures Carve(used, capacity, size, align).Some?
    ensures Carve(used, capacity, size, align).value.start <= s
  {
    EffectiveAlignPow2(align);
    AlignUpLeast(used, EffectiveAlign(align), s);
  }

  /** The bump fails exactly when the block can be placed nowhere. */
  lemma CarveFails(used: Size, capacity: Size, size: Size, align: Size)
    requires used <= capacity <= WORD_MODULUS / 2
    requires align < MIN_ALIGN || IsPow2(align)
    requires EffectiveAlign(align) > 0
    ensures Carve(used, capacity, size, align).None? <==>
      forall s: nat :: !CanPlace(used, capacity, size, EffectiveAlign(align), s)
  {
    if Carve(used, capacity, size, align).None? {
      forall s: nat ensures !CanPlace(used, capacity, size, EffectiveAlign(align), s) {
        if CanPlace(used, capacity, size, EffectiveAlign(align), s) {
          CarveLeast(used, capacity, size, align, s);
        }
      }
    }
  }

  /**
   * `hive_cell_align_alloc` as written: the end offset `start + size` is a
   * size_t sum, so it wraps for sizes close to SIZE_MAX.
   */
  function CarveAsWritten(used: Size, capacity: Size, size: Size, align: Size): (r: Option<Carved>)
    requires used <= capacity <= WORD_MODULUS / 2
    requires align < MIN_ALIGN || IsPow2(align)
    ensures r.Some? ==> r.value.end <= capacity
  {
    var a := EffectiveAlign(align);
    var start := AlignUp(used, a);
    var end := Add(start, size);
    if end > capacity then None else Some(Carved(start, end))
  }

  /** Without wrap-around the code as written and the bump step agree. */
  lemma CarveAsWrittenAgrees(used: Size, capacity: Size, size: Size, align: Size)
    requires used <= capacity <= WORD_MODULUS / 2
    requires align < MIN_ALIGN || IsPow2(align)
    requires AlignUp(used, EffectiveAlign(align)) + size < WORD_MODULUS
    ensures CarveAsWritten(used, capacity, size, align) == Carve(used, capacity, size, align)
  {
  }

  /**
   * With 16 bytes used in a 4096-byte cell, asking for SIZE_MAX - 15 bytes
   * succeeds as written: the block starts at 16, the end offset wraps to 0,
   * and the fill level goes back to 0 although the block is larger than the
   * cell. The bump step refuses the same request.
   */
  lemma CarveAsWrittenWraps()
    ensures CarveAsWritten(16, 4096, SIZE_MAX - 15, 16) == Some(Carved(16, 0))
    ensures Carve(16, 4096, SIZE_MAX - 15, 16) == None
  {
    MinAlignPow2();
    AlignUpAligned(16, 16);
  }

  // ---------------------------------------------------------------------------
  // The cell

  class Cell {
    var name: string
    var base: Size
    var capacity: Size
    var used: Size
    var totalAllocs: Size
    var largestAlloc: Size
    var peak: Size
    var pageSize: Size
    /** The blocks handed out since the last reset, in order. */
    ghost var allocs: seq<Range>
    /** The regions given back with a decommit advice (MADV_DONTNEED), in order. */
    ghost var decommits: seq<Range>

    ghost predicate Valid()
      reads this
    {
      && name != ""
      && IsPow2(capacity) && capacity <= WORD_MODULUS / 2
      && used <= peak <= capacity
      && (forall k :: 0 <= k < |allocs| ==>
            0 < allocs[k].length <= largestAlloc && allocs[k].End() <= used)
      && (forall j, k :: 0 <= j < k < |allocs| ==> allocs[j].End() <= allocs[k].start)
    }

    /** A freshly mapped cell; its counters start at zero, as calloc leaves them. */
    constructor (name: string, base: Size, capacity: Size, pageSize: Size)
      requires name != "" && IsPow2(capacity)
      ensures Valid()
      ensures this.name == name && this.base == base && this.capacity == capacity
      ensures this.pageSize == pageSize
      ensures used == 0 && totalAllocs == 0 && largestAlloc == 0 && peak == 0
      ensures allocs == [] && decommits == []
    {
      this.name := name;
      this.base := base;
      this.capacity := capacity;
      this.pageSize := pageSize;
      used := 0;
      totalAllocs := 0;
      largestAlloc := 0;
      peak := 0;
      allocs := [];
      decommits := [];
      Pow2InWord(capacity);
    }

    /**
     * Record a block of `size` bytes at offset `start`, at or past the fill
     * level, and update the DEBUG counters as a successful allocation does.
     */
    method Commit(start: Size, size: Size)
      requires Valid()
      requires 0 < size && used <= start && start + size <= capacity
      modifies this
      ensures Valid()
      ensures used == start + size
      ensures allocs == old(allocs) + [Range(start, size)]
      ensures totalAllocs == Add(old(totalAllocs), 1)
      ensures largestAlloc == Max(old(largestAlloc), size)
      ensures peak == Max(old(peak), used)
      ensures name == old(name) && base == old(base) && capacity == old(capacity)
      ensures pageSize == old(pageSize) && decommits == old(decommits)
    {
      used := start + size;
      allocs := allocs + [Range(start, size)];
      totalAllocs := Add(totalAllocs, 1);
      if size > largestAlloc {
        largestAlloc := size;
      }
      if used > peak {
        peak := used;
      }
    }
  }

  // ---------------------------------------------------------------------------
  // The allocator's entry points, which accept a null cell as the C does

  /**
   * `hive_cell_align_alloc`: the offset of a block of `size` bytes aligned to
   * max(align, 16), or None for a null cell, a zero size or a block that does
   * not fit.
   */
  method AlignAlloc(cell: Cell?, size: Size, align: Size) returns (r: Option<Size>)
    requires cell != null ==> cell.Valid()
    requires align < MIN_ALIGN || IsPow2(align)
    modifies cell
    ensures cell != null ==> cell.Valid()
    ensures cell == null || size == 0 ==> r == None
    ensures cell != null && (size == 0 || r == None) ==> unchanged(cell)
    ensures cell != null && size != 0 ==>
      var c := Carve(old(cell.used), old(cell.capacity), size, align);
      && r == (if c.Some? then Some(c.value.start) else None)
      && (c.Some? ==>
            && cell.used == c.value.end
            && cell.totalAllocs == Add(old(cell.totalAllocs), 1)
            && cell.largestAlloc == Max(old(cell.largestAlloc), size)
            && cell.peak == Max(old(cell.peak), cell.used)
            && cell.allocs == old(cell.allocs) + [Range(c.value.start, size)]
            && cell.name == old(cell.name) && cell.base == old(cell.base)
            && cell.capacity == old(cell.capacity) && cell.pageSize == old(cell.pageSize)
            && cell.decommits == old(cell.decommits))
    ensures r.Some? ==> cell != null && r.value + size <= cell.capacity
    ensures r.Some? ==> forall k :: 0 <= k < |old(cell.allocs)| ==>
      Disjoint(old(cell.allocs)[k], Range(r.value, size))
  {
    if cell == null || size == 0 {
      return None;
    }
    var a := EffectiveAlign(align);
    EffectiveAlignPow2(align);
    var start := AlignUp(cell.used, a);
    if start > cell.capacity || size > cell.capacity - start {
      return None;
    }
    cell.Commit(start, size);
    r := Some(start);
  }

  /** `hive_cell_alloc`: an allocation with the default alignment of 16. */
  method Alloc(cell: Cell?, size: Size) returns (r: Option<Size>)
    requires cell != null ==> cell.Valid()
    modifies cell
    ensures cell != null ==> cell.Valid()
    ensures cell == null || size == 0 ==> r == None
    ensures cell != null && (size == 0 || r == None) ==> unchanged(cell)
    ensures cell != null && size != 0 ==>
      var c := Carve(old(cell.used), old(cell.capacity), size, MIN_ALIGN);
      && r == (if c.Some? then Some(c.value.start) else None)
      && (c.Some? ==>
            && cell.used == c.value.end
            && cell.totalAllocs == Add(old(cell.totalAllocs), 1)
            && cell.largestAlloc == Max(old(cell.largestAlloc), size)
            && cell.peak == Max(old(cell.peak), cell.used)
            && cell.allocs == old(cell.allocs) + [Range(c.value.start, size)]
            && cell.name == old(cell.name) && cell.base == old(cell.base)
            && cell.capacity == old(cell.capacity) && cell.pageSize == old(cell.pageSize)
            && cell.decommits == old(cell.decommits))
    ensures r.Some? ==> r.value % MIN_ALIGN == 0 && r.value + size <= cell.capacity
    ensures r.Some? ==> forall k :: 0 <= k < |old(cell.allocs)| ==>
      Disjoint(old(cell.allocs)[k], Range(r.value, size))
  {
    r := AlignAlloc(cell, size, MIN_ALIGN);
  }

  /** `hive_cell_soft_reset`: forget every block; nothing else changes. */
  method SoftReset(cell: Cell?)
    requires cell != null ==> cell.Valid()
    modifies cell
    ensures cell != null ==> cell.Valid()
    ensures cell != null ==>
      && cell.used == 0 && cell.allocs == []
      && cell.name == old(cell.name) && cell.base == old(cell.base)
      && cell.capacity == old(cell.capacity) && cell.pageSize == old(cell.pageSize)
      && cell.totalAllocs == old(cell.totalAllocs)
      && cell.largestAlloc == old(cell.largestAlloc) && cell.peak == old(cell.peak)
      && cell.decommits == old(cell.decommits)
  {
    if cell == null {
      return;
    }
    cell.used := 0;
    cell.allocs := [];
  }

  /**
   * `hive_cell_reset`: forget every block, hand the used pages back with one
   * decommit advice for [base, base + used) and clear the allocation count.
   * A cell with nothing used is left alone.
   */
  method Reset(cell: Cell?)
    requires cell != null ==> cell.Valid()
    modifies cell
    ensures cell != null ==> cell.Valid()
    ensures cell != null && old(cell.used) == 0 ==> unchanged(cell)
    ensures cell != null && old(cell.used) != 0 ==>
      && cell.used == 0 && cell.allocs == [] && cell.totalAllocs == 0
      && cell.decommits == old(cell.decommits) + [Range(cell.base, old(cell.used))]
      && cell.name == old(cell.name) && cell.base == old(cell.base)
      && cell.capacity == old(cell.capacity) && cell.pageSize == old(cell.pageSize)
      && cell.largestAlloc == old(cell.largestAlloc) && cell.peak == old(cell.peak)
  {
    if cell == null || cell.used == 0 {
      return;
    }
    cell.decommits := cell.decommits + [Range(cell.base, cell.used)];
    cell.used := 0;
    cell.allocs := [];
    cell.totalAllocs := 0;
  }

  // ---------------------------------------------------------------------------
  // Getters; each answers 0 (or None) for a null cell

  function GetBase(cell: Cell?): (b: Size)
    reads cell
    ensures cell == null ==> b == 0
  {
    if cell == null then 0 else cell.base
  }

  function GetName(cell: Cell?): (n: Option<string>)
    reads cell
    requires cell != null ==> cell.Valid()
    ensures n.None? <==> cell == null
    ensures n.Some? ==> n.value != ""
  {
    if cell == null then None else Some(cell.name)
  }

  function GetCapacity(cell: Cell?): (c: Size)
    reads cell
    requires cell != null ==> cell.Valid()
    ensures c == 0 <==> cell == null
    ensures c != 0 ==> IsPow2(c) && c <= WORD_MODULUS / 2
  {
    if cell == null then 0 else cell.capacity
  }

  function GetPeak(cell: Cell?): (p: Size)
    reads cell
    requires cell != null ==> cell.Valid()
    ensures p <= GetCapacity(cell)
  {
    if cell == null then 0 else cell.peak
  }

  function GetUsed(cell: Cell?): (u: Size)
    reads cell
    requires cell != null ==> cell.Valid()
    ensures u <= GetPeak(cell) <= GetCapacity(cell)
    ensures cell != null ==> forall k :: 0 <= k < |cell.allocs| ==> cell.allocs[k].End() <= u
  {
    if cell == null then 0 else cell.used
  }

  function GetAllocCount(cell: Cell?): (n: Size)
    reads cell
    ensures cell == null ==> n == 0
  {
    if cell == null then 0 else cell.totalAllocs
  }
}
