/**
 * The allocator's global context: the lifecycle state, the system page size,
 * the address cursor from which each cell takes its mapping hint, and the
 * registry. Each atomic update of the C (compare-and-set, fetch-and-add) is
 * one step of a method here. Calls into the OS and the internal heap are
 * parameters: whether the cell record could be allocated (`callocOk`), what
 * the mapping returned (`mapped`), whether the registry could grow
 * (`reallocOk`); the mapping, unmapping and advice calls are kept in a ghost
 * log.
 */
module Hives {
  import opened Words
  import opened HiveMath
  import opened Wrappers
  import opened Cells
  import opened Registries

  datatype State = Off | Running | ShuttingDown

  /** Where the cursor starts: the first mapping hint. */
  const HIVE_ADDR_HINT: Size := 0x7000_0000_0000
  /** The huge page size (2 MiB), the alignment of large cells. */
  const HIVE_PAGE_SIZE_HUGE: Size := 0x20_0000
  const DEFAULT_NAME: string := "hive_cell"

  /** A call into the OS, as the ghost log records it. */
  datatype OsCall =
    | Mmap(hint: Size, length: Size, result: Option<Size>)
    | HugePageAdvice(addr: Size, length: Size)
    | Munmap(addr: Size, length: Size)

  // ---------------------------------------------------------------------------
  // Sizing a cell

  /** The name a cell gets: the one given, unless it is missing or empty. */
  function CellName(name: Option<string>): (r: string)
    ensures r != ""
    ensures name.Some? && name.value != "" ==> r == name.value
    ensures name.None? || name.value == "" ==> r == DEFAULT_NAME
  {
    if name.None? || name.value == "" then DEFAULT_NAME else name.value
  }

  /** 2 MiB is 2^21. */
  lemma HugePagePow2()
    ensures HIVE_PAGE_SIZE_HUGE == Pow2(21) && IsPow2(HIVE_PAGE_SIZE_HUGE)
  {
    Pow2Of16();
    assert Pow2(5) == 32;
    Pow2Add(16, 5);
    IsPow2Pow2(21);
  }

  /** The alignment of a cell whose rounded size is `rounded`. */
  function Alignment(rounded: Size, pageSize: Size): (r: Size)
    ensures r == 0 <==> rounded < HIVE_PAGE_SIZE_HUGE && pageSize == 0
  {
    if rounded >= HIVE_PAGE_SIZE_HUGE then HIVE_PAGE_SIZE_HUGE else pageSize
  }

  /** With a power-of-two page size (or none), the alignment is 0 or a power of two. */
  lemma AlignmentPow2(rounded: Size, pageSize: Size)
    requires pageSize == 0 || IsPow2(pageSize)
    ensures Alignment(rounded, pageSize) == 0 || IsPow2(Alignment(rounded, pageSize))
  {
    HugePagePow2();
  }

  /** The capacity `hive_cell_create` maps for a request. */
  function CellCapacity(request: Size, pageSize: Size): Size
  {
    var rounded := NextPow2(request);
    AlignUp(rounded, Alignment(rounded, pageSize))
  }

  /**
   * The capacity of a cell. It is 0, which no mapping accepts, exactly when
   * the request is past 2^63 (the next power of two wraps to 0) or when no
   * page size is known yet and the request rounds below 2 MiB. Otherwise it
   * is the larger of the rounded request and the alignment: a power of two,
   * at least the request, and a multiple of the alignment.
   */
  lemma CellCapacitySpec(request: Size, pageSize: Size)
    requires request > 0
    requires pageSize == 0 || IsPow2(pageSize)
    ensures CellCapacity(request, pageSize) == 0 <==>
      request > WORD_MODULUS / 2 || (pageSize == 0 && NextPow2(request) < HIVE_PAGE_SIZE_HUGE)
    ensures CellCapacity(request, pageSize) != 0 ==>
      var c, align := CellCapacity(request, pageSize), Alignment(NextPow2(request), pageSize);
      && IsPow2(c) && request <= c && c % align == 0
      && c == Max(NextPow2(request), align)
  {
    var rounded := NextPow2(request);
    var align := Alignment(rounded, pageSize);
    NextPow2Spec(request);
    HugePagePow2();
    if request > WORD_MODULUS / 2 {
      if pageSize == 0 {
        AlignUpZeroAlign(0);
      } else {
        AlignUpAligned(0, pageSize);
      }
    } else if align == 0 {
      AlignUpZeroAlign(rounded);
    } else {
      AlignUpPow2(rounded, align);
      Pow2InWord(rounded);
      Pow2InWord(align);
    }
  }

  lemma CellCapacityPow2(request: Size, pageSize: Size)
    requires request > 0
    requires pageSize == 0 || IsPow2(pageSize)
    ensures CellCapacity(request, pageSize) != 0 ==> IsPow2(CellCapacity(request, pageSize))
  {
    CellCapacitySpec(request, pageSize);
  }

  // ---------------------------------------------------------------------------
  // The context

  class Hive {
    var state: State
    var cursor: Size
    var pageSize: Size
    const registry: Registry
    /** The address ranges [hint, hint + capacity) taken from the cursor, in order. */
    ghost var reserved: seq<Range>
    /** Whether the cursor has ever wrapped past 2^64. */
    ghost var cursorWrapped: bool
    /** The cells created and not yet destroyed. */
    ghost var live: set<Cell>
    ghost var osLog: seq<OsCall>

    /** Unless the cursor has wrapped, the reserved ranges lie in order below it. */
    ghost predicate CursorValid()
      reads this`cursor, this`reserved, this`cursorWrapped
    {
      !cursorWrapped ==>
        && (forall k :: 0 <= k < |reserved| ==> reserved[k].End() <= cursor)
        && (forall j, k :: 0 <= j < k < |reserved| ==> reserved[j].End() <= reserved[k].start)
    }

    /** The registry holds live cells, each once. */
    ghost predicate RegistryValid()
      reads this`live, registry, registry.cells
    {
      && registry.Valid()
      && Distinct(registry.Contents())
      && (forall c :: c in registry.Contents() ==> c in live)
    }

    ghost predicate Valid()
      reads this, registry, registry.cells
    {
      && (pageSize == 0 || IsPow2(pageSize))
      && CursorValid()
      && RegistryValid()
    }

    /** The zero-initialised globals, before `hive_init`. */
    constructor ()
      ensures Valid()
      ensures state == Off && cursor == 0 && pageSize == 0
      ensures registry.Contents() == [] && reserved == [] && live == {} && osLog == []
      ensures !cursorWrapped && registry.capacity == 0
      ensures fresh(registry) && fresh(registry.cells)
    {
      state := Off;
      cursor := 0;
      pageSize := 0;
      registry := new Registry();
      reserved := [];
      cursorWrapped := false;
      live := {};
      osLog := [];
    }

    /**
     * `hive_init`: from Off only, move to Running, take the system page size
     * and seed the cursor if nothing has moved it yet.
     */
    method Init(sysPageSize: Size) returns (ok: bool)
      requires Valid()
      requires IsPow2(sysPageSize)
      modifies this`state, this`pageSize, this`cursor
      ensures Valid()
      ensures ok <==> old(state) == Off
      ensures ok ==> state == Running && pageSize == sysPageSize
      ensures ok ==> cursor == if old(cursor) == 0 then HIVE_ADDR_HINT else old(cursor)
      ensures !ok ==> state == old(state) && pageSize == old(pageSize) && cursor == old(cursor)
      ensures old(state) != Off ==> state != Off
    {
      if state != Off {
        return false;
      }
      state := Running;
      pageSize := sysPageSize;
      if cursor == 0 {
        cursor := HIVE_ADDR_HINT;
      }
      return true;
    }

    /** `hive_shutdown`: Running becomes ShuttingDown; any other state stays. */
    method Shutdown()
      requires Valid()
      modifies this`state
      ensures Valid()
      ensures state == if old(state) == Running then ShuttingDown else old(state)
      ensures old(state) != Off ==> state != Off
    {
      if state == Running {
        state := ShuttingDown;
      }
    }

    /**
     * `hive_cell_create`. A zero request creates nothing. Otherwise the
     * capacity is computed, the cursor advances by it whatever happens next,
     * the record is allocated, and the region is mapped at the old cursor as
     * a hint (a zero length is refused by the OS). A mapped cell gets huge
     * page advice when it is 2 MiB aligned and is registered.
     */
    method CreateCell(name: Option<string>, request: Size, callocOk: bool,
                      mapped: Option<Size>, reallocOk: bool) returns (cell: Cell?)
      requires Valid()
      modifies this`cursor, this`reserved, this`cursorWrapped, this`live, this`osLog
      modifies registry, registry.cells
      ensures Valid()
      ensures request == 0 ==>
        && cell == null && cursor == old(cursor) && reserved == old(reserved)
        && live == old(live) && osLog == old(osLog)
        && registry.Contents() == old(registry.Contents())
        && unchanged(this) && unchanged(registry) && unchanged(registry.cells)
      ensures registry.cells == old(registry.cells) || fresh(registry.cells)
      ensures cell != null ==> fresh(cell)
      ensures request != 0 ==>
        Mapped(CellName(name), CellCapacity(request, pageSize), Alignment(NextPow2(request), pageSize),
               callocOk, mapped, reallocOk, cell, old(cursor), old(cursorWrapped), old(reserved),
               old(live), old(osLog), old(registry.count), old(registry.capacity),
               old(registry.Contents()))
      ensures request != 0 && !cursorWrapped ==>
        forall k :: 0 <= k < |old(reserved)| ==> Disjoint(old(reserved)[k], reserved[|reserved| - 1])
    {
      cell := null;
      if request != 0 {
        var align := Alignment(NextPow2(request), pageSize);
        var capacity := CellCapacity(request, pageSize);
        CellCapacityPow2(request, pageSize);
        cell := MapCell(CellName(name), capacity, align, callocOk, mapped, reallocOk);
      }
    }

    /**
     * What `hive_cell_create` leaves behind for a nonzero request whose
     * capacity and alignment have been computed: the cursor has advanced by
     * the capacity, the region was requested from the OS at the old cursor,
     * and a cell exists exactly when the record was allocated, the capacity
     * is nonzero and the OS mapped it; that cell is live, empty, registered
     * when the registry could store it, and advised onto huge pages when it
     * is 2 MiB aligned.
     */
    ghost predicate Mapped(cellName: string, capacity: Size, align: Size, callocOk: bool,
                           mapped: Option<Size>, reallocOk: bool, cell: Cell?,
                           cursor0: Size, wrapped0: bool, reserved0: seq<Range>, live0: set<Cell>,
                           osLog0: seq<OsCall>, count0: Size, slots0: Size, contents0: seq<Cell?>)
      requires registry.Valid()
      reads this, registry, registry.cells, cell
    {
      && cursor == Add(cursor0, capacity)
      && cursorWrapped == (wrapped0 || cursor0 + capacity >= WORD_MODULUS)
      && reserved == reserved0 + [Range(cursor0, capacity)]
      && (cell != null <==> callocOk && capacity != 0 && mapped.Some?)
      && osLog == osLog0
           + (if callocOk then [Mmap(cursor0, capacity, if capacity == 0 then None else mapped)] else [])
           + (if cell != null && align == HIVE_PAGE_SIZE_HUGE then [HugePageAdvice(mapped.value, capacity)] else [])
      && (cell != null ==>
            && cell.Valid() && live == live0 + {cell}
            && cell.name == cellName && cell.base == mapped.value
            && cell.capacity == capacity && cell.pageSize == align
            && cell.used == 0 && cell.allocs == []
            && cell.totalAllocs == 0 && cell.largestAlloc == 0 && cell.peak == 0
            && cell.decommits == [])
      && (cell == null ==> live == live0)
      && registry.Contents() ==
           (if cell != null && RegisterStores(count0, slots0, reallocOk)
            then contents0 + [cell]
            else contents0)
      && registry.capacity ==
           (if cell != null && count0 >= slots0 && RegisterStores(count0, slots0, reallocOk)
            then GrownCapacity(slots0)
            else slots0)
    }

    /**
     * The part of `hive_cell_create` after the capacity is known: reserve
     * the address range, allocate the record, map the region and attach it.
     */
    method MapCell(cellName: string, capacity: Size, align: Size, callocOk: bool,
                   mapped: Option<Size>, reallocOk: bool) returns (cell: Cell?)
      requires Valid() && cellName != ""
      requires capacity == 0 || IsPow2(capacity)
      modifies this`cursor, this`reserved, this`cursorWrapped, this`live, this`osLog
      modifies registry, registry.cells
      ensures Valid()
      ensures registry.cells == old(registry.cells) || fresh(registry.cells)
      ensures cell != null ==> fresh(cell)
      ensures Mapped(cellName, capacity, align, callocOk, mapped, reallocOk, cell, old(cursor),
                     old(cursorWrapped), old(reserved), old(live), old(osLog), old(registry.count),
                     old(registry.capacity), old(registry.Contents()))
      ensures !cursorWrapped ==>
        forall k :: 0 <= k < |old(reserved)| ==> Disjoint(old(reserved)[k], reserved[|reserved| - 1])
    {
      cell := null;
      var hint := Reserve(capacity);
      if callocOk {
        var result := if capacity == 0 then None else mapped;
        osLog := osLog + [Mmap(hint, capacity, result)];
        if result.Some? {
          cell := Attach(cellName, result.value, capacity, align, reallocOk);
        }
      }
    }

    /**
     * The `atomic_fetch_add` on the cursor: the old cursor is the hint, and
     * [hint, hint + capacity) is reserved.
     */
    method Reserve(capacity: Size) returns (hint: Size)
      requires CursorValid()
      modifies this`cursor, this`reserved, this`cursorWrapped
      ensures CursorValid()
      ensures hint == old(cursor) && cursor == Add(old(cursor), capacity)
      ensures reserved == old(reserved) + [Range(hint, capacity)]
      ensures cursorWrapped == (old(cursorWrapped) || hint + capacity >= WORD_MODULUS)
      ensures !cursorWrapped ==>
        forall k :: 0 <= k < |old(reserved)| ==> Disjoint(old(reserved)[k], Range(hint, capacity))
    {
      hint := cursor;
      cursor := Add(cursor, capacity);
      reserved := reserved + [Range(hint, capacity)];
      cursorWrapped := cursorWrapped || hint + capacity >= WORD_MODULUS;
    }

    /**
     * Fill in a cell record for a mapped region, advise huge pages when the
     * region is 2 MiB aligned, register the cell and count it as live.
     */
    method Attach(name: string, base: Size, capacity: Size, align: Size, reallocOk: bool)
      returns (cell: Cell)
      requires RegistryValid()
      requires name != "" && IsPow2(capacity)
      modifies this`live, this`osLog, registry, registry.cells
      ensures fresh(cell) && cell.Valid()
      ensures registry.cells == old(registry.cells) || fresh(registry.cells)
      ensures cell.name == name && cell.base == base && cell.capacity == capacity
      ensures cell.pageSize == align && cell.used == 0 && cell.allocs == []
      ensures cell.totalAllocs == 0 && cell.largestAlloc == 0 && cell.peak == 0 && cell.decommits == []
      ensures RegistryValid()
      ensures live == old(live) + {cell}
      ensures osLog == old(osLog) + (if align == HIVE_PAGE_SIZE_HUGE then [HugePageAdvice(base, capacity)] else [])
      ensures registry.Contents() ==
        (if RegisterStores(old(registry.count), old(registry.capacity), reallocOk)
         then old(registry.Contents()) + [cell]
         else old(registry.Contents()))
      ensures registry.capacity ==
        (if old(registry.count) >= old(registry.capacity)
            && RegisterStores(old(registry.count), old(registry.capacity), reallocOk)
         then GrownCapacity(old(registry.capacity))
         else old(registry.capacity))
    {
      cell := new Cell(name, base, capacity, align);
      if align == HIVE_PAGE_SIZE_HUGE {
        osLog := osLog + [HugePageAdvice(cell.base, cell.capacity)];
      }
      ghost var before := registry.Contents();
      assert cell !in before;
      registry.Register(cell, reallocOk);
      live := live + {cell};
      if RegisterStores(old(registry.count), old(registry.capacity), reallocOk) {
        DistinctAppend(before, cell);
      }
    }

    /**
     * `hive_cell_destroy`: unregister the cell, unmap its region if it has
     * one, and clear its base; the record is then released.
     */
    method DestroyCell(cell: Cell?)
      requires Valid()
      requires cell != null ==> cell in live
      modifies this`live, this`osLog, registry, registry.cells, cell
      ensures Valid()
      ensures registry.capacity == old(registry.capacity) && registry.cells == old(registry.cells)
      ensures cell == null ==>
        live == old(live) && osLog == old(osLog) && registry.Contents() == old(registry.Contents())
      ensures cell != null ==>
        && live == old(live) - {cell}
        && cell.base == 0
        && cell !in registry.Contents()
        && registry.Contents() ==
             (if cell in old(registry.Contents())
              then SwapRemove(old(registry.Contents()), IndexOf(old(registry.Contents()), cell))
              else old(registry.Contents()))
        && osLog == old(osLog) + (if old(cell.base) != 0 then [Munmap(old(cell.base), old(cell.capacity))] else [])
    {
      if cell == null {
        return;
      }
      ghost var before := registry.Contents();
      registry.Unregister(cell);
      if cell in before {
        SwapRemoveDistinct(before, IndexOf(before, cell));
      }
      if cell.base != 0 {
        osLog := osLog + [Munmap(cell.base, cell.capacity)];
        cell.base := 0;
      }
      live := live - {cell};
    }
  }
}
