/**
 * The registry of cells: a growable array of cell pointers with a count and a
 * capacity. Registering appends, growing the array first when it is full;
 * unregistering finds the cell and moves the last entry into its slot.
 */
module Registries {
  import opened Words
  import opened Cells

  /** The capacity the array gets the first time it grows. */
  const INITIAL_CAPACITY: Size := 256

  // ---------------------------------------------------------------------------
  // Sequences of entries

  predicate Distinct<T(==)>(s: seq<T>)
  {
    forall i, j :: 0 <= i < j < |s| ==> s[i] != s[j]
  }

  lemma DistinctAppend<T>(s: seq<T>, x: T)
    requires Distinct(s) && x !in s
    ensures Distinct(s + [x])
  {
  }

  /** The first position of x in s. */
  function IndexOf<T(==)>(s: seq<T>, x: T): (k: nat)
    requires x in s
    ensures k < |s| && s[k] == x && x !in s[..k]
  {
    if s[0] == x then 0 else 1 + IndexOf(s[1..], x)
  }

  /** s without its entry k, the last entry having been moved into slot k. */
  function SwapRemove<T>(s: seq<T>, k: nat): (r: seq<T>)
    requires k < |s|
    ensures |r| == |s| - 1
    ensures forall i :: 0 <= i < |r| && i != k ==> r[i] == s[i]
    ensures k < |r| ==> r[k] == s[|s| - 1]
  {
    s[k := s[|s| - 1]][..|s| - 1]
  }

  /** Removing by swap takes out exactly one occurrence of the removed entry. */
  lemma SwapRemoveMultiset<T>(s: seq<T>, k: nat)
    requires k < |s|
    ensures multiset(SwapRemove(s, k)) == multiset(s) - multiset{s[k]}
  {
    var n := |s| - 1;
    var t := s[k := s[n]];
    assert multiset(t) == multiset(s) - multiset{s[k]} + multiset{s[n]};
    var r := SwapRemove(s, k);
    assert t == r + [s[n]];
    assert multiset(r) == multiset(t) - multiset{s[n]};
  }

  /**
   * Removing by swap keeps the entries distinct, takes the removed one out
   * and brings in nothing that was not there.
   */
  lemma SwapRemoveDistinct<T>(s: seq<T>, k: nat)
    requires k < |s| && Distinct(s)
    ensures Distinct(SwapRemove(s, k))
    ensures s[k] !in SwapRemove(s, k)
    ensures forall x :: x in SwapRemove(s, k) ==> x in s
  {
    var r := SwapRemove(s, k);
    forall i, j | 0 <= i < j < |r|
      ensures r[i] != r[j]
    {
      var i' := if i == k then |s| - 1 else i;
      var j' := if j == k then |s| - 1 else j;
      assert r[i] == s[i'] && r[j] == s[j'] && i' != j';
    }
    forall i | 0 <= i < |r|
      ensures r[i] != s[k]
    {
      var i' := if i == k then |s| - 1 else i;
      assert r[i] == s[i'] && i' != k;
    }
    forall x | x in r
      ensures x in s
    {
      var i :| 0 <= i < |r| && r[i] == x;
      var i' := if i == k then |s| - 1 else i;
      assert x == s[i'];
    }
  }

  /**
   * Unregistering the cell that was registered last, and is registered once,
   * gives back the registry as it was before.
   */
  lemma SwapRemoveUndoesAppend<T>(s: seq<T>, x: T)
    requires x !in s
    ensures IndexOf(s + [x], x) == |s|
    ensures SwapRemove(s + [x], |s|) == s
  {
    assert (s + [x])[..|s|] == s;
  }

  // ---------------------------------------------------------------------------
  // Growth

  /**
   * The capacity after growth: 256 from empty, otherwise doubled as a size_t.
   * The growth check `new_cap <= capacity` fires exactly when doubling
   * overflows, i.e. from a capacity of 2^63 on; otherwise growth at least
   * doubles the capacity.
   */
  function GrownCapacity(capacity: Size): (r: Size)
    ensures r <= capacity <==> capacity >= WORD_MODULUS / 2
    ensures capacity < WORD_MODULUS / 2 ==> r >= 2 * capacity
  {
    if capacity == 0 then INITIAL_CAPACITY else Add(capacity, capacity)
  }

  /** Whether registering into a registry with this count and capacity stores the cell. */
  predicate RegisterStores(count: Size, capacity: Size, reallocOk: bool): (b: bool)
    ensures b <==> count < capacity || (capacity < WORD_MODULUS / 2 && reallocOk)
  {
    count < capacity || (GrownCapacity(capacity) > capacity && reallocOk)
  }

  // ---------------------------------------------------------------------------
  // The registry

  class Registry {
    var cells: array<Cell?>
    var count: Size
    var capacity: Size

    ghost predicate Valid()
      reads this, cells
    {
      && cells.Length == capacity
      && count <= capacity
      && forall i :: 0 <= i < count ==> cells[i] != null
    }

    /** The registered cells, in slot order. */
    ghost function Contents(): seq<Cell?>
      reads this, cells
      requires Valid()
    {
      cells[..count]
    }

    /** The zero-initialised registry: no array, no entries. */
    constructor ()
      ensures Valid() && Contents() == [] && capacity == 0
      ensures fresh(cells)
    {
      cells := new Cell?[0];
      count := 0;
      capacity := 0;
    }

    /**
     * `register_cell`: append a cell, growing the array when it is full. When
     * growth overflows or the reallocation fails (`reallocOk` false) the
     * registry is left as it was and the cell is not tracked.
     */
    method Register(cell: Cell?, reallocOk: bool)
      requires Valid()
      modifies this, cells
      ensures Valid()
      ensures cell != null && RegisterStores(old(count), old(capacity), reallocOk) ==>
        Contents() == old(Contents()) + [cell]
      ensures cell == null || !RegisterStores(old(count), old(capacity), reallocOk) ==>
        Contents() == old(Contents()) && capacity == old(capacity)
      ensures capacity ==
        if cell != null && old(count) >= old(capacity) && RegisterStores(old(count), old(capacity), reallocOk)
        then GrownCapacity(old(capacity))
        else old(capacity)
      ensures capacity == old(capacity) ==> cells == old(cells)
      ensures capacity != old(capacity) ==> fresh(cells)
    {
      if cell == null {
        return;
      }
      if count >= capacity {
        var grown := GrownCapacity(capacity);
        if grown <= capacity {
          return;
        }
        if !reallocOk {
          return;
        }
        var larger := new Cell?[grown];
        forall i | 0 <= i < count {
          larger[i] := cells[i];
        }
        cells := larger;
        capacity := grown;
      }
      cells[count] := cell;
      count := count + 1;
    }

    /**
     * `unregister_cell`: remove the first slot holding the cell by moving the
     * last entry into it; a cell that is not registered changes nothing.
     */
    method Unregister(cell: Cell?)
      requires Valid()
      modifies this`count, cells
      ensures Valid()
      ensures cells == old(cells) && capacity == old(capacity)
      ensures Contents() == if cell in old(Contents())
        then SwapRemove(old(Contents()), IndexOf(old(Contents()), cell))
        else old(Contents())
    {
      if cell == null {
        return;
      }
      var i: Size := 0;
      while i < count
        invariant i <= count == old(count)
        invariant cells[..] == old(cells[..])
        invariant cell !in cells[..i]
      {
        if cells[i] == cell {
          ghost var s := cells[..count];
          assert s[..i] == cells[..i];
          cells[i] := cells[count - 1];
          count := count - 1;
          assert IndexOf(s, cell) == i;
          assert cells[..count] == SwapRemove(s, i);
          return;
        }
        assert cells[..i + 1] == cells[..i] + [cells[i]];
        i := i + 1;
      }
      assert cells[..count] == cells[..i];
    }
  }
}
