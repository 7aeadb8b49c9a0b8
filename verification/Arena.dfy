/** The compiler's bump arena (src/arena.c:24-92): a list of mapped blocks, each with a
    pointer that only moves up. */
module Arena {
  import opened Common

  const Top: int := 0x8000_0000_0000_0000
  const DefaultBlockSize: int := 1024 * 1024

  /** A block's memory and its allocation pointer. */
  datatype Cell = Cell(base: int, size: int, ptr: int)

  /** Bytes [start, end) handed out. */
  datatype Region = Region(start: int, end: int)

  /** size rounded up to 16 in 64 bits. */
  function Round(size: int): int
    requires 0 <= size
  {
    (size + 15) % Modulus / 16 * 16
  }

  lemma RoundCovers(size: int)
    requires 0 <= size < Modulus
    ensures Round(size) % 16 == 0
    ensures size <= Round(size) <==> size <= Modulus - 16
    ensures size <= Modulus - 16 ==> Round(size) < size + 16
  {
  }

  /** The end of size bytes at p, as the pointer comparison computes it. */
  function EndOf(p: int, size: int): int {
    (p + size) % Modulus
  }

  /** The source's test that size bytes fit behind the block's pointer. */
  predicate HasRoom(c: Cell, size: int) {
    EndOf(c.ptr, size) <= EndOf(c.base, c.size)
  }

  ghost predicate CellOk(c: Cell) {
    0 <= c.base <= c.ptr <= c.base + c.size < Top && (c.ptr - c.base) % 16 == 0
  }

  /** The test is right exactly when the sum does not wrap around. */
  lemma RoomIsExact(c: Cell, size: int)
    requires CellOk(c) && 0 <= size < Modulus
    ensures (HasRoom(c, size) <==> c.ptr + size <= c.base + c.size) <==> c.ptr + size < Modulus
  {
    if c.ptr + size >= Modulus { HugeWraps(c, size); }
  }

  /** Where it does, a request no block can hold passes the test. */
  lemma HugeWraps(c: Cell, size: int)
    requires CellOk(c) && Modulus - c.ptr <= size < Modulus
    ensures HasRoom(c, size) && c.ptr + size > c.base + c.size
  {
    assert EndOf(c.ptr, size) == c.ptr + size - Modulus;
  }

  /** No block's pointer wraps around when size bytes are added to it. */
  ghost predicate NoWrap(cells: seq<Cell>, size: int) {
    forall i :: 0 <= i < |cells| ==> cells[i].ptr + size < Modulus
  }

  /** If one does, no block has room, whichever of them passes the test. */
  lemma WrapMeansFull(cells: seq<Cell>, regions: seq<Region>, size: int, i: nat)
    requires WellFormed(cells, regions) && 0 <= size < Modulus && !NoWrap(cells, size) && i < |cells|
    ensures cells[i].ptr + size > cells[i].base + cells[i].size
  {
    var k :| 0 <= k < |cells| && cells[k].ptr + size >= Modulus;
    assert CellOk(cells[k]) && CellOk(cells[i]);
  }

  ghost predicate Apart(a: Cell, b: Cell) {
    a.base + a.size <= b.base || b.base + b.size <= a.base
  }

  ghost predicate Holds(c: Cell, r: Region) {
    c.base <= r.start <= r.end <= c.ptr && (r.start - c.base) % 16 == 0
  }

  ghost predicate Disjoint(a: Region, b: Region) {
    a.end <= b.start || b.end <= a.start
  }

  /** Blocks lie apart; every region lies in one block below its pointer, on a 16-byte
      multiple from its base; no two regions overlap. */
  ghost predicate WellFormed(cells: seq<Cell>, regions: seq<Region>) {
    && (forall i :: 0 <= i < |cells| ==> CellOk(cells[i]))
    && (forall i, j :: 0 <= i < j < |cells| ==> Apart(cells[i], cells[j]))
    && (forall k :: 0 <= k < |regions| ==> Housed(cells, regions[k]))
    && (forall k, l :: 0 <= k < l < |regions| ==> Disjoint(regions[k], regions[l]))
  }

  ghost predicate Housed(cells: seq<Cell>, r: Region) {
    exists i :: 0 <= i < |cells| && Holds(cells[i], r)
  }

  /** Block i hands out size bytes. */
  function Bump(cells: seq<Cell>, i: nat, size: int): seq<Cell>
    requires i < |cells|
  {
    cells[i := cells[i].(ptr := cells[i].ptr + size)]
  }

  lemma BumpHouses(cells: seq<Cell>, i: nat, size: int, r: Region)
    requires i < |cells| && size >= 0 && Housed(cells, r)
    ensures Housed(Bump(cells, i, size), r)
  {
    var j :| 0 <= j < |cells| && Holds(cells[j], r);
    assert Holds(Bump(cells, i, size)[j], r);
  }

  lemma NewIsDisjoint(cells: seq<Cell>, i: nat, size: int, r: Region)
    requires i < |cells| && size >= 0 && Housed(cells, r)
    requires forall k :: 0 <= k < |cells| ==> CellOk(cells[k])
    requires forall k, j :: 0 <= k < j < |cells| ==> Apart(cells[k], cells[j])
    requires cells[i].ptr + size <= cells[i].base + cells[i].size
    ensures Disjoint(r, Region(cells[i].ptr, cells[i].ptr + size))
  {
    var j :| 0 <= j < |cells| && Holds(cells[j], r);
    if i < j {
      assert Apart(cells[i], cells[j]);
    } else if j < i {
      assert Apart(cells[j], cells[i]);
    }
  }

  /** What one allocation keeps: the new region is inside its block and clear of all
      earlier ones. */
  lemma BumpKeeps(cells: seq<Cell>, regions: seq<Region>, i: nat, size: int)
    requires WellFormed(cells, regions) && i < |cells| && 0 <= size && size % 16 == 0
    requires cells[i].ptr + size <= cells[i].base + cells[i].size
    ensures WellFormed(Bump(cells, i, size), regions + [Region(cells[i].ptr, cells[i].ptr + size)])
  {
    var c := cells[i];
    var cells', r := Bump(cells, i, size), Region(c.ptr, c.ptr + size);
    assert Holds(cells'[i], r);
    assert Housed(cells', r);
    forall k | 0 <= k < |regions| ensures Housed(cells', regions[k]) && Disjoint(regions[k], r) {
      BumpHouses(cells, i, size, regions[k]);
      NewIsDisjoint(cells, i, size, regions[k]);
    }
    forall a, b | 0 <= a < b < |cells'| ensures Apart(cells'[a], cells'[b]) {
      assert Apart(cells[a], cells[b]);
    }
  }

  lemma MapKeeps(cells: seq<Cell>, regions: seq<Region>, c: Cell)
    requires WellFormed(cells, regions) && CellOk(c) && c.ptr == c.base
    requires forall i :: 0 <= i < |cells| ==> Apart(c, cells[i])
    ensures WellFormed([c] + cells, regions)
  {
    forall k | 0 <= k < |regions| ensures Housed([c] + cells, regions[k]) {
      var j :| 0 <= j < |cells| && Holds(cells[j], regions[k]);
      assert ([c] + cells)[j + 1] == cells[j];
    }
  }

  class Block {
    const base: int
    const size: int
    const next: Block?
    var ptr: int

    constructor (base: int, size: int, next: Block?)
      ensures this.base == base && this.size == size && this.next == next && ptr == base
    {
      this.base, this.size, this.next, this.ptr := base, size, next, base;
    }

    function View(): Cell
      reads this
    {
      Cell(base, size, ptr)
    }
  }

  /** The block behind number i, or null. */
  ghost function After(list: seq<Block>, i: int): Block?
    requires 0 <= i < |list|
  {
    if i + 1 < |list| then list[i + 1] else null
  }

  ghost function Head(list: seq<Block>): Block? {
    if list == [] then null else list[0]
  }

  /** Each block points to the one behind it, and none occurs twice. */
  ghost predicate Chained(list: seq<Block>) {
    && (forall i {:trigger After(list, i)} :: 0 <= i < |list| ==> list[i].next == After(list, i))
    && (forall i, j :: 0 <= i < j < |list| ==> list[i] != list[j])
  }

  lemma ChainedMore(list: seq<Block>, b: Block)
    requires Chained(list) && b !in list && b.next == Head(list)
    ensures Chained([b] + list)
  {
    var more := [b] + list;
    forall i | 0 <= i < |more| ensures more[i].next == After(more, i) {
      if i > 0 { assert list[i - 1].next == After(list, i - 1); }
    }
  }

  ghost function CellsOf(list: seq<Block>): (s: seq<Cell>)
    reads list
    ensures |s| == |list| && forall i :: 0 <= i < |list| ==> s[i] == list[i].View()
  {
    seq(|list|, i requires 0 <= i < |list| reads list => list[i].View())
  }

  class Pool {
    var blocks: Block?
    var current: Block?
    var defaultSize: int
    ghost var list: seq<Block>
    ghost var regions: seq<Region>

    /** The list field spells out the linked blocks. */
    ghost predicate Linked()
      reads this
    {
      blocks == Head(list) && Chained(list) && (current != null ==> current in list)
    }

    ghost function Cells(): (s: seq<Cell>)
      reads this`list, list
      ensures |s| == |list| && forall i :: 0 <= i < |list| ==> s[i] == list[i].View()
    {
      CellsOf(list)
    }

    ghost predicate Valid()
      reads this, list
    {
      Linked() && 0 < defaultSize && WellFormed(Cells(), regions)
    }

    /** arena_init. */
    constructor (size: nat)
      ensures Valid() && list == [] && regions == []
    {
      defaultSize := if size == 0 then DefaultBlockSize else size;
      blocks, current := null, null;
      list, regions := [], [];
    }

    /** The first block of the list with room, if any. */
    method FindBlock(size: int) returns (b: Block?, ghost i: nat)
      requires Valid()
      ensures b == null ==> forall k :: 0 <= k < |list| ==> !HasRoom(list[k].View(), size)
      ensures b != null ==> i < |list| && b == list[i] && HasRoom(b.View(), size)
    {
      b, i := blocks, 0;
      while b != null
        invariant i <= |list| && b == (if i < |list| then list[i] else null)
        invariant forall k :: 0 <= k < i ==> !HasRoom(list[k].View(), size)
        decreases |list| - i
      {
        if HasRoom(b.View(), size) { return; }
        assert list[i].next == After(list, i);
        b, i := b.next, i + 1;
      }
    }

    /** arena_new_block, the mapping at base supplied by the system: it does not overlap
        what is mapped already. */
    method NewBlock(minSize: int, base: int) returns (b: Block)
      requires Valid() && 0 <= minSize && MapsAt(Cells(), base, minSize, defaultSize)
      modifies this`blocks, this`list
      ensures fresh(b) && list == [b] + old(list) && blocks == b && Linked()
      ensures Cells() == [b.View()] + old(Cells()) && WellFormed(Cells(), regions)
      ensures b.base == base == b.ptr && IsBlockSize(b.size, minSize, defaultSize)
    {
      var size := if minSize > defaultSize then minSize else defaultSize;
      MapKeeps(Cells(), regions, Cell(base, size, base));
      b := new Block(base, size, blocks);
      ChainedMore(list, b);
      list := [b] + list;
      blocks := b;
      assert Cells() == [b.View()] + old(Cells());
    }

    /** Leaves a block that passes the room test current, number i in the list; a new one
        only when no block does. */
    method Choose(size: int, base: int) returns (ghost i: nat)
      requires Valid() && 0 <= size < Modulus
      requires NoneHasRoom(Cells(), size) ==> MapsAt(Cells(), base, size, defaultSize)
      modifies this`blocks, this`list, this`current
      ensures Valid() && i < |list| && current == list[i] && HasRoom(current.View(), size)
      ensures list == old(list) || (exists b :: fresh(b) && list == [b] + old(list))
      ensures forall b :: b in list ==> fresh(b) || b in old(list)
      ensures list != old(list) ==> NoneHasRoom(old(Cells()), size) && i == 0 && current.ptr + size < Modulus
      ensures list != old(list) ==> current.ptr == base && IsBlockSize(current.size, size, defaultSize)
      ensures list == old(list) ==> Cells() == old(Cells())
    {
      if current != null && HasRoom(current.View(), size) {
        i :| 0 <= i < |list| && list[i] == current;
        return;
      }
      var b, k := FindBlock(size);
      i := k;
      if b == null {
        assert NoneHasRoom(Cells(), size);
        b := NewBlock(size, base);
        i := 0;
        assert Cells()[0] == b.View();
        RoomIsExact(b.View(), size);
      }
      current := b;
    }

    /** arena_alloc, for any size. Unless adding it to a block's pointer wraps around, the
        new region is housed and apart from all others, and a block is mapped only when no
        existing one has room; if it does, the region handed out is in no block. */
    method Alloc(request: int, base: int) returns (p: int)
      requires Valid() && 0 <= request < Modulus
      requires NoneHasRoom(Cells(), Round(request)) ==> MapsAt(Cells(), base, Round(request), defaultSize)
      modifies this, list
      ensures request <= Round(request) <==> request <= Modulus - 16
      ensures old(NoWrap(Cells(), Round(request))) ==>
                Valid() && regions == old(regions) + [Region(p, p + Round(request))]
      ensures list == old(list) || (exists b :: fresh(b) && list == [b] + old(list))
      ensures list != old(list) ==> NoneHasRoom(old(Cells()), Round(request))
      ensures old(NoWrap(Cells(), Round(request))) ==> current != null && current.ptr == p + Round(request)
      ensures list != old(list) ==> p == base
      ensures !old(NoWrap(Cells(), Round(request))) ==>
                exists c :: c in old(Cells()) && p == c.ptr && p + Round(request) > c.base + c.size
    {
      RoundCovers(request);
      var size := Round(request);
      ghost var cells, before := Cells(), list;
      var i := Choose(size, base);
      if !NoWrap(cells, size) { Overrun(cells, before, size, i); }
      p := Take(size, i);
    }

    /** A request that wraps around somewhere gets memory past the end of its block. */
    lemma Overrun(cells: seq<Cell>, before: seq<Block>, size: int, i: nat)
      requires Valid() && i < |list| && current == list[i] && 0 <= size < Modulus
      requires WellFormed(cells, regions) && !NoWrap(cells, size)
      requires list != before ==> NoneHasRoom(cells, size)
      requires list == before ==> Cells() == cells
      ensures list == before
      ensures exists c :: c in cells && current.ptr == c.ptr && current.ptr + size > c.base + c.size
    {
      WrapPasses(cells, regions, size);
      WrapMeansFull(cells, regions, size, i);
      assert cells[i] in cells;
    }

    /** size bytes from the current block, number i in the list. */
    method Take(size: int, ghost i: nat) returns (p: int)
      requires Valid() && i < |list| && current == list[i] && 0 <= size < Modulus && size % 16 == 0
      requires HasRoom(current.View(), size)
      modifies this`regions, current
      ensures p == old(current.ptr) && current == old(current)
      ensures p + size < Modulus ==> current.ptr == p + size
      ensures old(current.ptr) + size < Modulus ==> Valid() && regions == old(regions) + [Region(p, p + size)]
    {
      ghost var cells := Cells();
      p := current.ptr;
      if p + size < Modulus {
        RoomIsExact(cells[i], size);
        BumpKeeps(cells, regions, i, size);
      }
      current.ptr := EndOf(p, size);
      regions := regions + [Region(p, p + size)];
      assert p + size < Modulus ==> Cells() == Bump(cells, i, size);
    }
  }

  /** A block has the default size, or what was asked for if that is more. */
  predicate IsBlockSize(size: int, minSize: int, defaultSize: int) {
    size >= minSize && size >= defaultSize && (size == minSize || size == defaultSize)
  }

  ghost predicate NoneHasRoom(cells: seq<Cell>, size: int) {
    forall k :: 0 <= k < |cells| ==> !HasRoom(cells[k], size)
  }

  lemma WrapPasses(cells: seq<Cell>, regions: seq<Region>, size: int)
    requires WellFormed(cells, regions) && 0 <= size < Modulus && !NoWrap(cells, size)
    ensures !NoneHasRoom(cells, size)
  {
    var k :| 0 <= k < |cells| && cells[k].ptr + size >= Modulus;
    HugeWraps(cells[k], size);
  }

  /** What mapping a new block may rely on: the memory is below the top and apart from
      every mapped block. */
  ghost predicate MapsAt(cells: seq<Cell>, base: int, minSize: int, defaultSize: int) {
    var size := if minSize > defaultSize then minSize else defaultSize;
    && 0 <= base && base + size < Top
    && forall i :: 0 <= i < |cells| ==> Apart(Cell(base, size, base), cells[i])
  }
}
