/** The first-fit allocator of Kernel/MemoryManager.c, on the machine's memory.  The headers live in
    the arena itself: mem[a] stands for the 64-bit word at byte address a. */
module ListAllocator {
  import opened Arithmetic
  import opened HeapCells
  import opened HeapLaws
  import opened BlockLists

  const ADDRESS_LIMIT := 0x8000_0000_0000   // the lower half of the x86-64 address space

  class Allocator {
    const mem: array<nat>
    var freeMem: nat
    var allocMem: nat
    var inUse: nat
    var free: nat
    var total: nat
    ghost var lo: nat
    ghost var span: nat
    ghost var cells: seq<Cell>
    ghost var taken: seq<Block>   // the blocks of the alloc list, last taken first
    ghost var moved: int          // the bytes moved from `free` to `inUse` so far

    ghost function State(): Heap
      reads this
    {
      Heap(lo, cells, moved)
    }

    ghost predicate Valid()
      reads this, mem
    {
      && 0 < lo && lo + Span(cells) <= mem.Length <= ADDRESS_LIMIT
      && Good(State())
      && Span(cells) == span && CountersOk()
      && Linked(mem[..], freeMem, Blocks(cells, lo, false))
      && Linked(mem[..], allocMem, taken) && Apart(taken)
      && SameBlocks(taken, Blocks(cells, lo, true))
    }

    ghost predicate CountersOk()
      reads this`inUse, this`free, this`total, this`moved, this`span
    {
      && inUse == Wrap(HEADER + moved)
      && free == Wrap(span - HEADER - 16 - moved)
      && total == Wrap(span - 16)
    }

    /** Takes `after` for the arena that the two lists describe. */
    ghost method Adopt(after: Heap)
      requires after.lo == lo && after.moved == moved && Span(after.cells) == span && Good(after)
      requires 0 < lo && lo + span <= mem.Length <= ADDRESS_LIMIT && CountersOk()
      requires Linked(mem[..], freeMem, Blocks(after.cells, lo, false))
      requires Linked(mem[..], allocMem, taken) && Apart(taken) && SameBlocks(taken, Blocks(after.cells, lo, true))
      modifies this`cells
      ensures Valid() && State() == after
    {
      cells := after.cells;
    }

    /** Moves `d` bytes from the free to the allocated counter, in 64-bit arithmetic. */
    method Account(d: int)
      requires CountersOk()
      modifies this`inUse, this`free, this`moved
      ensures CountersOk() && moved == old(moved) + d
    {
      WrapStep(HEADER + moved, d);
      WrapStep(span - HEADER - 16 - moved, -d);
      inUse := Wrap(inUse + d);
      free := Wrap(free - d);
      moved := moved + d;
    }

    method GetInfoMem() returns (inUseBytes: nat, freeBytes: nat, totalBytes: nat)
      requires Valid()
      ensures inUseBytes == Allocated(State()) && freeBytes == Unallocated(State()) && totalBytes == Total(State())
    {
      return inUse, free, total;
    }

    constructor (memory: array<nat>)
      ensures mem == memory && allocMem == 0
    {
      mem, freeMem, allocMem, inUse, free, total := memory, 0, 0, 0, 0, 0;
    }

    /** Answers 1 to a bad region.  The first block starts after the two list heads, and its size is
        taken from the whole region, so it ends 16 bytes past it. */
    method Initialize(initialAddress: nat, size: nat) returns (status: nat)
      requires allocMem == 0 && mem.Length <= ADDRESS_LIMIT
      requires initialAddress + 16 + size <= mem.Length
      modifies this, mem
      ensures status == if size < HEADER + WORD || size % WORD != 0 || initialAddress % WORD != 0 then 1 else 0
      ensures status == 0 ==> Valid() && State() == Initial(initialAddress + 16, size)
    {
      if size < HEADER + WORD || size % WORD != 0 || initialAddress % WORD != 0 { return 1; }
      var first := initialAddress + 16;
      mem[first] := size - HEADER;
      mem[first + NEXT] := 0;
      freeMem := first;
      inUse := HEADER;
      free := Wrap(size - HEADER - 16);
      total := Wrap(size - 16);
      FirstCell(first, size);
      lo, span, taken, moved := first, size, [], 0;
      assert Entry(mem[..], [Block(first, size - HEADER)], 0);
      Adopt(Initial(first, size));
      return 0;
    }

    /** The walk of malloc down the free list. */
    method FindFit(n: nat, ghost fl: seq<Block>) returns (current: nat, previous: nat, ghost j: nat)
      requires Linked(mem[..], freeMem, fl)
      ensures j <= |fl| && current == AddrAt(fl, j) && previous == (if j == 0 then 0 else AddrAt(fl, j - 1))
      ensures (current == 0) == (j == |fl|)
      ensures forall k :: 0 <= k < j ==> fl[k].size < n
      ensures j < |fl| ==> fl[j].size >= n
    {
      j := 0;
      current, previous := freeMem, 0;
      assert j < |fl| ==> Entry(mem[..], fl, j);
      while current != 0 && mem[current] < n
        invariant j <= |fl| && current == AddrAt(fl, j) && previous == (if j == 0 then 0 else AddrAt(fl, j - 1))
        invariant j < |fl| ==> Entry(mem[..], fl, j)
        invariant forall k :: 0 <= k < j ==> fl[k].size < n
        decreases |fl| - j
      {
        previous := current;
        current := mem[current + NEXT];
        j := j + 1;
        assert j < |fl| ==> Entry(mem[..], fl, j);
      }
    }

    /** Cuts block `j` of the free list after `n` bytes of payload, if what remains makes a block. */
    method SplitBlock(current: nat, n: nat, ghost fl: seq<Block>, ghost j: nat) returns (split: bool)
      requires Linked(mem[..], freeMem, fl) && Apart(fl) && mem.Length <= ADDRESS_LIMIT
      requires j < |fl| && current == fl[j].addr && n <= fl[j].size
      modifies mem
      ensures split == (fl[j].size >= n + MIN_BLOCK)
      ensures Within(old(mem[..]), mem[..], fl[j])
      ensures Linked(mem[..], freeMem, CutAt(fl, j, n))
    {
      assert Entry(mem[..], fl, j);
      split := mem[current] >= (n + MIN_BLOCK) % MODULUS;
      if split {
        var newBlock := current + HEADER + n;
        mem[newBlock] := mem[current] - n - HEADER;
        mem[newBlock + NEXT] := mem[current + NEXT];
        mem[current] := n;
        mem[current + NEXT] := newBlock;
        assert mem[..] == CutWrites(old(mem[..]), fl[j], n);
        Cut(old(mem[..]), freeMem, fl, j, n);
        CutWithin(old(mem[..]), fl[j], n);
      }
    }

    /** Moves block `j` from the free list to the front of the alloc list. */
    method TakeBlock(current: nat, previous: nat, ghost fl: seq<Block>, ghost j: nat)
      requires Linked(mem[..], freeMem, fl) && Apart(fl) && Linked(mem[..], allocMem, taken)
      requires ClearAll(taken, fl)
      requires j < |fl| && current == fl[j].addr && previous == (if j == 0 then 0 else AddrAt(fl, j - 1))
      requires Apart(taken)
      modifies mem, this`freeMem, this`allocMem, this`taken
      ensures current < mem.Length && mem[current] == fl[j].size
      ensures Linked(mem[..], freeMem, fl[..j] + fl[j + 1..])
      ensures taken == [fl[j]] + old(taken) && Linked(mem[..], allocMem, taken)
      ensures HeadersOnly(old(mem[..]), mem[..], fl[j], fl[if j == 0 then j else j - 1])
    {
      ghost var m0, rest := mem[..], fl[..j] + fl[j + 1..];
      assert Entry(m0, fl, j);
      assert j > 0 ==> Entry(m0, fl, j - 1) && Clear(fl[j], fl[j - 1]);
      if previous != 0 {
        mem[previous + NEXT] := mem[current + NEXT];
      } else {
        freeMem := mem[current + NEXT];
      }
      ghost var m1 := mem[..];
      Unlink(m0, m1, old(freeMem), freeMem, fl, j);
      assert Linked(m1, allocMem, taken) by {
        if j > 0 { WithinFrame(m0, m1, allocMem, taken, fl[j - 1]); }
      }
      mem[current + NEXT] := allocMem;
      allocMem := current;
      assert forall i :: 0 <= i < |taken| ==> Clear(taken[i], fl[j]);
      Insert(m1, mem[..], old(allocMem), current, taken, 0, fl[j]);
      WithinFrame(m1, mem[..], freeMem, rest, fl[j]);
      assert taken[..0] + [fl[j]] + taken[0..] == [fl[j]] + taken;
      taken := [fl[j]] + taken;
    }

    /** malloc on the two lists: splits and takes the first block of the free list that fits `n`. */
    method TakeFirst(n: nat, ghost fl: seq<Block>) returns (ptr: nat, ghost j: nat)
      requires mem.Length <= ADDRESS_LIMIT
      requires Linked(mem[..], freeMem, fl) && Apart(fl)
      requires Linked(mem[..], allocMem, taken) && Apart(taken) && ClearAll(taken, fl) && CountersOk()
      modifies mem, this`freeMem, this`allocMem, this`inUse, this`free, this`moved, this`taken
      ensures j <= |fl| && (forall k :: 0 <= k < j ==> fl[k].size < n) && (j < |fl| ==> fl[j].size >= n)
      ensures j == |fl| ==> ptr == 0 && unchanged(this, mem)
      ensures j < |fl| ==>
                && ptr == fl[j].addr + HEADER
                && Linked(mem[..], freeMem, FreeAfterTake(fl, j, n))
                && taken == [Block(fl[j].addr, Got(fl[j].size, n))] + old(taken)
                && Linked(mem[..], allocMem, taken)
                && CountersOk()
                && moved == old(moved) + (if fl[j].size >= n + MIN_BLOCK then HEADER + n else fl[j].size)
                && WithinTwo(old(mem[..]), mem[..], fl[j], fl[if j == 0 then j else j - 1])
    {
      var current, previous;
      current, previous, j := FindFit(n, fl);
      if current == 0 { return 0, j; }
      ghost var cut := CutAt(fl, j, n);
      CutApart(fl, j, n);
      CutClear(fl, taken, j, n);
      CutTaken(fl, j, n);
      var split := SplitBlock(current, n, fl, j);
      assert Linked(mem[..], allocMem, taken) by {
        assert fl[j] in fl;
        WithinFrame(old(mem[..]), mem[..], allocMem, taken, fl[j]);
      }
      ghost var m1, other := mem[..], if j == 0 then j else j - 1;
      TakeBlock(current, previous, cut, j);
      WithinThenHeaders(old(mem[..]), m1, mem[..], fl[j], fl[other], cut[j], cut[other]);
      if split { Account(HEADER); }
      Account(mem[current]);
      return current + HEADER, j;
    }

    method Malloc(size: nat) returns (ptr: nat)
      requires Valid() && size < MODULUS
      modifies this, mem
      ensures Valid()
      ensures State() == HeapLaws.Malloc(old(State()), size)
      ensures ptr == Pointer(old(State()), size)
      ensures Spares(old(mem[..]), mem[..], lo, lo + Span(cells), old(Blocks(cells, lo, true)))
    {
      if size == 0 { return 0; }
      var n := Rounded(size);
      ghost var h, was := State(), taken;
      ghost var j;
      RowClear(cells, lo, taken);
      ptr, j := TakeFirst(n, Blocks(cells, lo, false));
      FirstFitOnList(h.cells, lo, n, j);
      if ptr == 0 { return 0; }
      ghost var after := MallocOutcome(h, was, size, j);
      Adopt(after);
      FreeBlocksSpare(old(mem[..]), mem[..], h.cells, lo, j, if j == 0 then j else j - 1);
    }

    /** The walk of free along the alloc list. */
    method FindTaken(block: nat) returns (current: nat, previous: nat, ghost k: nat)
      requires Linked(mem[..], allocMem, taken)
      ensures k <= |taken| && current == AddrAt(taken, k) && previous == (if k == 0 then 0 else AddrAt(taken, k - 1))
      ensures (current == 0) == (k == |taken|)
      ensures forall i :: 0 <= i < k ==> taken[i].addr != block
      ensures k < |taken| ==> taken[k].addr == block
    {
      k := 0;
      current, previous := allocMem, 0;
      assert k < |taken| ==> Entry(mem[..], taken, k);
      while current != 0 && current != block
        invariant k <= |taken| && current == AddrAt(taken, k)
        invariant previous == (if k == 0 then 0 else AddrAt(taken, k - 1))
        invariant k < |taken| ==> Entry(mem[..], taken, k)
        invariant forall i :: 0 <= i < k ==> taken[i].addr != block
        decreases |taken| - k
      {
        previous := current;
        current := mem[current + NEXT];
        k := k + 1;
        assert k < |taken| ==> Entry(mem[..], taken, k);
      }
    }

    /** Takes block `k` out of the alloc list. */
    method Untake(current: nat, previous: nat, ghost k: nat, ghost fl: seq<Block>)
      requires Linked(mem[..], freeMem, fl) && Linked(mem[..], allocMem, taken) && Apart(taken) && ClearAll(taken, fl)
      requires k < |taken| && current == taken[k].addr && previous == (if k == 0 then 0 else AddrAt(taken, k - 1))
      modifies mem, this`allocMem, this`taken
      ensures taken == old(taken)[..k] + old(taken)[k + 1..]
      ensures Linked(mem[..], allocMem, taken) && Linked(mem[..], freeMem, fl)
      ensures current < mem.Length && mem[current] == old(taken)[k].size
      ensures var other := old(taken)[if k == 0 then k else k - 1]; HeadersOnly(old(mem[..]), mem[..], other, other)
    {
      assert Entry(mem[..], taken, k);
      assert k > 0 ==> Entry(mem[..], taken, k - 1) && Clear(taken[k], taken[k - 1]);
      if previous != 0 {
        mem[previous + NEXT] := mem[current + NEXT];
      } else {
        allocMem := mem[current + NEXT];
      }
      Unlink(old(mem[..]), mem[..], old(allocMem), allocMem, taken, k);
      if k > 0 {
        assert taken[k - 1] in taken && forall i :: 0 <= i < |fl| ==> fl[i] in fl;
        WithinFrame(old(mem[..]), mem[..], freeMem, fl, taken[k - 1]);
      }
      taken := taken[..k] + taken[k + 1..];
    }

    /** The walk of free along the free list to where `block` belongs. */
    method FindPlace(block: nat, ghost fl: seq<Block>) returns (previous: nat, ghost j: nat)
      requires Linked(mem[..], freeMem, fl) && Increasing(fl)
      ensures PlaceOf(fl, block, j)
      ensures previous == (if j == 0 then 0 else AddrAt(fl, j - 1)) && (previous == 0) == (j == 0)
    {
      var current := freeMem;
      previous, j := 0, 0;
      assert j < |fl| ==> Entry(mem[..], fl, j);
      while current != 0 && current < block
        invariant j <= |fl| && current == AddrAt(fl, j) && previous == (if j == 0 then 0 else AddrAt(fl, j - 1))
        invariant j < |fl| ==> Entry(mem[..], fl, j)
        invariant (previous == 0) == (j == 0)
        invariant forall i :: 0 <= i < j ==> fl[i].addr < block
        decreases |fl| - j
      {
        previous := current;
        current := mem[current + NEXT];
        j := j + 1;
        assert j < |fl| ==> Entry(mem[..], fl, j);
      }
    }

    /** Links block `b` into the free list before its block `j`. */
    method LinkFree(block: nat, previous: nat, ghost b: Block, ghost fl: seq<Block>, ghost j: nat)
      requires Linked(mem[..], freeMem, fl) && Apart(fl)
      requires Linked(mem[..], allocMem, taken) && ClearAll(taken, fl) && ClearAll(taken, [b]) && ClearAll([b], fl)
      requires block == b.addr && 0 < block && b.End() <= mem.Length && mem[block] == b.size
      requires j <= |fl| && previous == (if j == 0 then 0 else AddrAt(fl, j - 1)) && (previous == 0) == (j == 0)
      modifies mem, this`freeMem
      ensures Linked(mem[..], freeMem, fl[..j] + [b] + fl[j..]) && Linked(mem[..], allocMem, taken)
      ensures HeadersOnly(old(mem[..]), mem[..], b, if j == 0 then b else fl[j - 1])
      ensures mem[block] == b.size
    {
      ghost var m0 := mem[..];
      if j > 0 {
        assert Entry(m0, fl, j - 1) && fl[j - 1] in fl && Clear(b, fl[j - 1]);
      }
      if previous != 0 {
        mem[block + NEXT] := mem[previous + NEXT];
        mem[previous + NEXT] := block;
      } else {
        mem[block + NEXT] := freeMem;
        freeMem := block;
      }
      Insert(m0, mem[..], old(freeMem), freeMem, fl, j, b);
      assert Linked(mem[..], allocMem, taken) by {
        var m1 := m0[block + NEXT := mem[block + NEXT]];
        WithinFrame(m0, m1, allocMem, taken, b);
        if j > 0 {
          WithinFrame(m1, mem[..], allocMem, taken, fl[j - 1]);
        }
      }
    }

    /** Joins block `i` of the free list with the next one, which it touches. */
    method Absorb(current: nat, ghost bs: seq<Block>, ghost i: nat, ghost hi: nat)
      requires Lists(mem[..], freeMem, bs, allocMem, taken, lo, hi)
      requires i + 1 < |bs| && current == bs[i].addr && bs[i].End() == bs[i + 1].addr
      requires Entry(mem[..], bs, i) && Entry(mem[..], bs, i + 1)
      modifies mem
      ensures Lists(mem[..], freeMem, Merged(bs, i), allocMem, taken, lo, hi) && Entry(mem[..], Merged(bs, i), i)
      ensures Spares(old(mem[..]), mem[..], lo, hi, taken)
    {
      var next := mem[current + NEXT];
      mem[current] := mem[current] + (HEADER + mem[next]);
      mem[current + NEXT] := mem[next + NEXT];
      MergeStep(old(mem[..]), mem[..], freeMem, bs, allocMem, taken, i, lo, hi);
    }

    /** The walk that ends free: every block of the free list absorbs the blocks that touch it. */
    method MergeNeighbours(ghost fl: seq<Block>, ghost hi: nat)
      requires Lists(mem[..], freeMem, fl, allocMem, taken, lo, hi)
      modifies mem
      ensures Linked(mem[..], freeMem, CoalesceList(fl)) && Linked(mem[..], allocMem, taken)
      ensures Spares(old(mem[..]), mem[..], lo, hi, taken)
    {
      ghost var bs, i := fl, 0;
      var current := freeMem;
      assert i < |bs| ==> Entry(mem[..], bs, i);
      while current != 0 && mem[current + NEXT] != 0
        invariant i <= |bs| && current == AddrAt(bs, i)
        invariant i < |bs| ==> Entry(mem[..], bs, i)
        invariant CoalesceList(fl) == bs[..i] + CoalesceList(bs[i..])
        invariant Lists(mem[..], freeMem, bs, allocMem, taken, lo, hi)
        invariant Spares(old(mem[..]), mem[..], lo, hi, taken)
        decreases |bs| - i
      {
        ghost var m0 := mem[..];
        assert i + 1 < |bs| && Entry(m0, bs, i + 1);
        if current + HEADER + mem[current] == mem[current + NEXT] {
          Absorb(current, bs, i, hi);
          SparesTrans(old(mem[..]), m0, mem[..], lo, hi, taken);
          MergeList(bs, i);
          bs := Merged(bs, i);
        } else {
          current := mem[current + NEXT];
          SkipList(bs, i);
          i := i + 1;
        }
      }
      assert i < |bs| ==> i + 1 == |bs|;
      assert bs[..i] + bs[i..] == bs;
    }

    /** Moves block `k` of the alloc list to its place in the free list. */
    method ReturnBlock(current: nat, previous: nat, ghost k: nat, ghost fl: seq<Block>, ghost hi: nat)
        returns (ghost j: nat)
      requires Lists(mem[..], freeMem, fl, allocMem, taken, lo, hi) && Apart(taken) && InArena(taken, lo, hi)
      requires 0 < lo && hi <= mem.Length
      requires k < |taken| && current == taken[k].addr && previous == (if k == 0 then 0 else AddrAt(taken, k - 1))
      modifies mem, this`freeMem, this`allocMem, this`taken
      ensures var b := old(taken)[k];
              && PlaceOf(fl, b.addr, j)
              && taken == old(taken)[..k] + old(taken)[k + 1..]
              && Lists(mem[..], freeMem, fl[..j] + [b] + fl[j..], allocMem, taken, lo, hi)
              && current < mem.Length && mem[current] == b.size
              && Spares(old(mem[..]), mem[..], lo, hi, taken)
    {
      ghost var b, was := taken[k], taken;
      UntakenLists(taken, k, fl);
      assert b in taken;
      Untake(current, previous, k, fl);
      ghost var m1 := mem[..];
      var place;
      place, j := FindPlace(current, fl);
      LinkFree(current, place, b, fl, j);
      assert Spares(old(mem[..]), mem[..], lo, hi, taken) by {
        FreeSpares(old(mem[..]), m1, mem[..], was, k, fl, j, lo, hi);
      }
      PlacedList(fl, b, j, taken, lo, hi);
    }

    /** free on the two lists. */
    method FreeTaken(block: nat, ghost fl: seq<Block>) returns (ghost k: nat, ghost j: nat)
      requires Lists(mem[..], freeMem, fl, allocMem, taken, lo, lo + span)
      requires Apart(taken) && InArena(taken, lo, lo + span)
      requires 0 < lo && lo + span <= mem.Length && CountersOk()
      modifies mem, this`freeMem, this`allocMem, this`inUse, this`free, this`moved, this`taken
      ensures k <= |old(taken)| && forall i :: 0 <= i < k ==> old(taken)[i].addr != block
      ensures k == |old(taken)| ==> unchanged(this, mem)
      ensures k < |old(taken)| ==>
                && var b := old(taken)[k];
                && b.addr == block && PlaceOf(fl, block, j)
                && taken == old(taken)[..k] + old(taken)[k + 1..]
                && Linked(mem[..], freeMem, CoalesceList(fl[..j] + [b] + fl[j..]))
                && Linked(mem[..], allocMem, taken)
                && CountersOk() && moved == old(moved) - (b.size + HEADER)
                && Spares(old(mem[..]), mem[..], lo, lo + span, taken)
    {
      var current, previous;
      current, previous, k := FindTaken(block);
      if current == 0 { return k, 0; }
      ghost var b := taken[k];
      j := ReturnBlock(current, previous, k, fl, lo + span);
      ghost var m1 := mem[..];
      Account(-(mem[block] + HEADER));
      MergeNeighbours(fl[..j] + [b] + fl[j..], lo + span);
      SparesTrans(old(mem[..]), m1, mem[..], lo, lo + span, taken);
    }

    method Free(ptr: nat)
      requires Valid() && ptr < MODULUS
      modifies this, mem
      ensures Valid()
      ensures State() == HeapLaws.Free(old(State()), ptr)
      ensures Spares(old(mem[..]), mem[..], lo, lo + Span(cells), Blocks(cells, lo, true))
    {
      NoBlockAtNull(State());
      if ptr != 0 { FreePointer(ptr); }
    }

    /** free, of a pointer that is not NULL. */
    method FreePointer(ptr: nat)
      requires Valid() && ptr < MODULUS
      modifies this, mem
      ensures Valid()
      ensures State() == HeapLaws.Free(old(State()), ptr)
      ensures Spares(old(mem[..]), mem[..], lo, lo + Span(cells), Blocks(cells, lo, true))
    {
      var blockToFree := (ptr - HEADER) % MODULUS;
      ghost var row, was := cells, taken;
      ghost var k, j;
      RowLists(cells, lo, taken);
      k, j := FreeTaken(blockToFree, Blocks(cells, lo, false));
      if k == |was| {
        NotTaken(row, lo, was, ptr);
      } else {
        assert was[k] in was;
        PayloadAddress(row, lo, was, k, ptr);
        ghost var after := FreeOutcome(old(State()), was, k, j, ptr);
        Adopt(after);
        SparesSame(old(mem[..]), mem[..], lo, lo + Span(cells), taken, Blocks(cells, lo, true));
      }
    }
  }

  /** What malloc makes of the arena, seen from the two lists. */
  lemma MallocOutcome(h: Heap, taken: seq<Block>, size: nat, j: nat) returns (after: Heap)
    requires Good(h) && Apart(taken) && SameBlocks(taken, Blocks(h.cells, h.lo, true)) && size != 0
    requires var fl, i, n := Blocks(h.cells, h.lo, false), FirstFit(h.cells, Rounded(size)), Rounded(size);
             && i < |h.cells| && j == |Blocks(h.cells[..i], h.lo, false)| && j < |fl|
             && n <= fl[j].size && fl[j] == Block(AddrOf(h.cells, h.lo, i), h.cells[i].size)
    ensures after == HeapLaws.Malloc(h, size) && after.lo == h.lo
    ensures Good(after) && Span(after.cells) == Span(h.cells)
    ensures var fl, n := Blocks(h.cells, h.lo, false), Rounded(size);
            && after.moved == h.moved + (if fl[j].size >= n + MIN_BLOCK then HEADER + n else fl[j].size)
            && Pointer(h, size) == fl[j].addr + HEADER
            && Blocks(after.cells, h.lo, false) == FreeAfterTake(fl, j, n)
            && Apart([Block(fl[j].addr, Got(fl[j].size, n))] + taken)
            && SameBlocks([Block(fl[j].addr, Got(fl[j].size, n))] + taken, Blocks(after.cells, h.lo, true))
  {
    RoundedAligned(size);
    TakenRow(h.cells, h.lo, taken, Rounded(size), j);
    after := HeapLaws.Malloc(h, size);
  }

  /** What free makes of the arena, seen from the two lists. */
  lemma FreeOutcome(h: Heap, taken: seq<Block>, k: nat, j: nat, ptr: nat) returns (after: Heap)
    requires Good(h) && k < |taken| && Apart(taken) && SameBlocks(taken, Blocks(h.cells, h.lo, true))
    requires PlaceOf(Blocks(h.cells, h.lo, false), taken[k].addr, j) && ptr == taken[k].addr + HEADER
    ensures after == HeapLaws.Free(h, ptr) && after.lo == h.lo && after.moved == h.moved - (taken[k].size + HEADER)
    ensures Good(after) && Span(after.cells) == Span(h.cells)
    ensures var fl, rest := Blocks(h.cells, h.lo, false), taken[..k] + taken[k + 1..];
            && Blocks(after.cells, h.lo, false) == CoalesceList(fl[..j] + [taken[k]] + fl[j..])
            && Apart(rest) && SameBlocks(rest, Blocks(after.cells, h.lo, true))
  {
    var b := taken[k];
    assert b in taken;
    var i := TakenCell(h.cells, h.lo, b);
    after := HeapLaws.Free(h, ptr);
    FreedRow(h.cells, h.lo, taken, k, i, j);
    FreeKeeps(h, ptr);
    UntakenLists(taken, k, []);
  }

  lemma SparesSame(m: seq<nat>, m': seq<nat>, lo: nat, hi: nat, bs: seq<Block>, cs: seq<Block>)
    requires SameBlocks(bs, cs) && Spares(m, m', lo, hi, bs)
    ensures Spares(m, m', lo, hi, cs)
  {
    forall a | 0 <= a < |m| && m[a] != m'[a] ensures lo <= a < hi && Writable(a, cs) {
      assert Writable(a, bs);
    }
  }

  lemma PayloadAddress(cells: seq<Cell>, lo: nat, taken: seq<Block>, k: nat, ptr: nat)
    requires k < |taken| && taken[k] in Blocks(cells, lo, true) && lo + Span(cells) <= ADDRESS_LIMIT
    requires ptr < MODULUS && taken[k].addr == (ptr - HEADER) % MODULUS
    ensures taken[k].addr + HEADER == ptr
  {
    BlocksInside(cells, lo, true);
  }

  lemma NotTaken(cells: seq<Cell>, lo: nat, taken: seq<Block>, ptr: nat)
    requires SameBlocks(taken, Blocks(cells, lo, true)) && ptr < MODULUS
    requires forall i :: 0 <= i < |taken| ==> taken[i].addr != (ptr - HEADER) % MODULUS
    ensures FindLive(cells, lo, ptr) == |cells|
  {
    forall b | b in Blocks(cells, lo, true) ensures b.addr + HEADER != ptr {
      assert b in taken;
    }
    NoBlockAt(cells, lo, ptr);
  }

  lemma NoBlockAtNull(h: Heap)
    ensures HeapLaws.Free(h, 0) == h
  {
    NoBlockAt(h.cells, h.lo, 0);
  }

  /** No live block at all has its payload at an address the walk has not met. */
  lemma NoBlockAt(cells: seq<Cell>, lo: nat, ptr: nat)
    requires forall b :: b in Blocks(cells, lo, true) ==> b.addr + HEADER != ptr
    ensures FindLive(cells, lo, ptr) == |cells|
  {
    FindLiveMeaning(cells, lo, ptr);
    if FindLive(cells, lo, ptr) < |cells| {
      CellIsBlock(cells, lo, FindLive(cells, lo, ptr));
      assert false;
    }
  }

  lemma FreedRow(cells: seq<Cell>, lo: nat, taken: seq<Block>, k: nat, i: nat, j: nat)
    requires k < |taken| && Apart(taken) && SameBlocks(taken, Blocks(cells, lo, true))
    requires PlaceOf(Blocks(cells, lo, false), taken[k].addr, j)
    requires i < |cells| && cells[i].live && taken[k] == Block(AddrOf(cells, lo, i), cells[i].size)
    ensures var fl, after := Blocks(cells, lo, false), Coalesce(Replace(cells, i, [Cell(cells[i].size, false)]));
            && Blocks(after, lo, false) == CoalesceList(fl[..j] + [taken[k]] + fl[j..])
            && SameBlocks(taken[..k] + taken[k + 1..], Blocks(after, lo, true))
  {
    var row := Replace(cells, i, [Cell(cells[i].size, false)]);
    FreedFree(cells, lo, taken[k], i, j);
    FreedTaken(cells, lo, taken, k, i);
    CoalesceRefines(row, lo);
    CoalesceKeepsLive(row, lo);
  }

  /** Position `j` is where address `a` belongs in the address-ordered list. */
  ghost predicate PlaceOf(fl: seq<Block>, a: nat, j: nat) {
    j <= |fl| && (forall i :: 0 <= i < j ==> fl[i].addr < a) && (forall i :: j <= i < |fl| ==> fl[i].addr >= a)
  }

  lemma RowLists(cells: seq<Cell>, lo: nat, taken: seq<Block>)
    requires SameBlocks(taken, Blocks(cells, lo, true))
    ensures var fl := Blocks(cells, lo, false);
            && Increasing(fl) && ClearAll(taken, fl)
            && InArena(taken, lo, lo + Span(cells)) && InArena(fl, lo, lo + Span(cells))
  {
    RowClear(cells, lo, taken);
    BlocksIncreasing(cells, lo, false);
    BlocksInside(cells, lo, true);
    BlocksInside(cells, lo, false);
  }

  /** The arena as it is set up: one free cell. */
  lemma FirstCell(first: nat, size: nat)
    requires first % WORD == 0 && size % WORD == 0 && size >= HEADER
    ensures Good(Initial(first, size)) && Span(Initial(first, size).cells) == size
    ensures Blocks(Initial(first, size).cells, first, false) == [Block(first, size - HEADER)]
    ensures Blocks(Initial(first, size).cells, first, true) == []
  {
    RowCons(Cell(size - HEADER, false), [], first, false);
    RowCons(Cell(size - HEADER, false), [], first, true);
    assert [Cell(size - HEADER, false)] + [] == [Cell(size - HEADER, false)];
  }

  lemma SameStart(cells: seq<Cell>, lo: nat, b: Block, c: Block)
    requires b in Blocks(cells, lo, true) && c in Blocks(cells, lo, true) && b.addr == c.addr
    ensures b == c
  {
    var bs := Blocks(cells, lo, true);
    BlocksIncreasing(cells, lo, true);
    var i :| 0 <= i < |bs| && bs[i] == b;
    var j :| 0 <= j < |bs| && bs[j] == c;
  }

  /** Which cell a block of the alloc list is. */
  lemma TakenCell(cells: seq<Cell>, lo: nat, b: Block) returns (i: nat)
    requires b in Blocks(cells, lo, true)
    ensures i == FindLive(cells, lo, b.addr + HEADER) && i < |cells| && b == Block(AddrOf(cells, lo, i), cells[i].size)
  {
    i := FindLive(cells, lo, b.addr + HEADER);
    FindLiveMeaning(cells, lo, b.addr + HEADER);
    CellIsBlock(cells, lo, i);
    SameStart(cells, lo, b, Block(AddrOf(cells, lo, i), cells[i].size));
  }

  /** Putting a block back on the free list is freeing its cell. */
  lemma FreedFree(cells: seq<Cell>, lo: nat, b: Block, i: nat, j: nat)
    requires i < |cells| && cells[i].live && b == Block(AddrOf(cells, lo, i), cells[i].size)
    requires PlaceOf(Blocks(cells, lo, false), b.addr, j)
    ensures var fl := Blocks(cells, lo, false);
            Blocks(Replace(cells, i, [Cell(b.size, false)]), lo, false) == fl[..j] + [b] + fl[j..]
  {
    var row := Replace(cells, i, [Cell(b.size, false)]);
    var before, tail := Around(cells, lo, i, [Cell(b.size, false)], false);
    assert Blocks([Cell(b.size, false)], b.addr, false) == [b];
    BlocksIncreasing(row, lo, false);
    Sorted(before, b, tail, j);
  }

  lemma Sorted(before: seq<Block>, b: Block, tail: seq<Block>, j: nat)
    requires Increasing(before + [b] + tail)
    requires PlaceOf(before + tail, b.addr, j)
    ensures var fl := before + tail; before + [b] + tail == fl[..j] + [b] + fl[j..]
  {
    var all, fl, n := before + [b] + tail, before + tail, |before|;
    forall k | 0 <= k < |fl| ensures k < n <==> fl[k].addr < b.addr {
      assert fl[k] == all[if k < n then k else k + 1];
      assert k < n ==> all[k].End() <= all[n].addr;
    }
    assert fl[..n] == before && fl[n..] == tail;
  }

  lemma FreedTaken(cells: seq<Cell>, lo: nat, taken: seq<Block>, k: nat, i: nat)
    requires k < |taken| && Apart(taken) && SameBlocks(taken, Blocks(cells, lo, true))
    requires i < |cells| && cells[i].live && taken[k] == Block(AddrOf(cells, lo, i), cells[i].size)
    ensures SameBlocks(taken[..k] + taken[k + 1..], Blocks(Replace(cells, i, [Cell(cells[i].size, false)]), lo, true))
  {
    var b, rest := taken[k], taken[..k] + taken[k + 1..];
    var before, tail := Around(cells, lo, i, [Cell(cells[i].size, false)], true);
    assert Blocks([Cell(cells[i].size, false)], b.addr, true) == [];
    assert taken == taken[..k] + [b] + taken[k + 1..];
    BlocksIncreasing(cells, lo, true);
    var all := before + [b] + tail;
    forall q | 0 <= q < |before + tail| ensures (before + tail)[q] != b {
      assert (before + tail)[q] == all[if q < |before| then q else q + 1];
      assert if q < |before| then all[q].End() <= all[|before|].addr else all[|before|].End() <= all[q + 1].addr;
    }
    forall q | 0 <= q < |rest| ensures rest[q] != b {
      assert rest[q] == taken[if q < k then q else q + 1];
      assert Clear(taken[if q < k then q else q + 1], taken[k]);
    }
    forall c ensures c in rest <==> c in before + tail {
      assert c in taken <==> c in rest || c == b;
      assert c in all <==> c in before + tail || c == b;
    }
    assert before + [] + tail == before + tail;
  }

  lemma PlacedIncreasing(fl: seq<Block>, b: Block, j: nat)
    requires Increasing(fl) && PlaceOf(fl, b.addr, j) && ClearAll([b], fl)
    ensures Increasing(fl[..j] + [b] + fl[j..])
  {
    var more := fl[..j] + [b] + fl[j..];
    forall k | 0 <= k < |fl| ensures Clear(b, fl[k]) {
      assert b in [b] && fl[k] in fl;
    }
    forall p, q | 0 <= p < q < |more| ensures more[p].End() <= more[q].addr {
      if p == j {
        assert Clear(b, fl[q - 1]);
      } else if q == j {
        assert Clear(b, fl[p]);
      }
    }
  }

  lemma PlacedList(fl: seq<Block>, b: Block, j: nat, taken: seq<Block>, lo: nat, hi: nat)
    requires Increasing(fl) && PlaceOf(fl, b.addr, j) && InArena(fl, lo, hi) && lo <= b.addr && b.End() <= hi
    requires ClearAll(taken, fl) && ClearAll(taken, [b]) && ClearAll([b], fl)
    ensures var more := fl[..j] + [b] + fl[j..];
            Increasing(more) && InArena(more, lo, hi) && ClearAll(taken, more)
  {
    PlacedIncreasing(fl, b, j);
    var more := fl[..j] + [b] + fl[j..];
    forall c | c in more ensures c in [b] || c in fl {
    }
  }

  /** The writes of a free before the merging. */
  lemma FreeSpares(m0: seq<nat>, m1: seq<nat>, m2: seq<nat>, taken: seq<Block>, k: nat,
                   fl: seq<Block>, j: nat, lo: nat, hi: nat)
    requires k < |taken| && Apart(taken) && ClearAll(taken, fl) && j <= |fl|
    requires InArena(taken, lo, hi) && InArena(fl, lo, hi)
    requires var other := taken[if k == 0 then k else k - 1]; HeadersOnly(m0, m1, other, other)
    requires HeadersOnly(m1, m2, taken[k], if j == 0 then taken[k] else fl[j - 1])
    ensures Spares(m0, m2, lo, hi, taken[..k] + taken[k + 1..])
  {
    var rest := taken[..k] + taken[k + 1..];
    var other := taken[if k == 0 then k else k - 1];
    UntakenLists(taken, k, fl);
    assert taken[k] in taken && other in taken && taken[k] in [taken[k]];
    assert j > 0 ==> fl[j - 1] in fl;
    forall l | l in rest ensures l == other || Clear(l, other) {
      var i :| 0 <= i < |rest| && rest[i] == l;
      assert l == taken[if i < k then i else i + 1];
    }
    HeadersSpare(m0, m1, other, other, lo, hi, rest);
    HeadersSpare(m1, m2, taken[k], if j == 0 then taken[k] else fl[j - 1], lo, hi, rest);
    SparesTrans(m0, m1, m2, lo, hi, rest);
  }

  lemma UntakenLists(taken: seq<Block>, k: nat, fl: seq<Block>)
    requires k < |taken| && Apart(taken) && ClearAll(taken, fl)
    ensures var rest := taken[..k] + taken[k + 1..];
            Apart(rest) && ClearAll(rest, fl) && ClearAll(rest, [taken[k]]) && ClearAll([taken[k]], fl)
  {
    var rest := taken[..k] + taken[k + 1..];
    assert forall i :: 0 <= i < |rest| ==> rest[i] == taken[if i < k then i else i + 1];
    assert taken[k] in taken;
    forall c | c in rest ensures Clear(c, taken[k]) && c in taken {
      var i :| 0 <= i < |rest| && rest[i] == c;
      assert Clear(taken[if i < k then i else i + 1], taken[k]);
    }
  }

  ghost predicate InArena(bs: seq<Block>, lo: nat, hi: nat) {
    forall b :: b in bs ==> lo <= b.addr && b.End() <= hi
  }

  function Merged(bs: seq<Block>, i: nat): seq<Block>
    requires i + 1 < |bs|
  {
    bs[..i] + [Block(bs[i].addr, bs[i].size + HEADER + bs[i + 1].size)] + bs[i + 2..]
  }

  lemma MergeList(bs: seq<Block>, i: nat)
    requires i + 1 < |bs| && bs[i].End() == bs[i + 1].addr
    ensures bs[..i] + CoalesceList(bs[i..]) == Merged(bs, i)[..i] + CoalesceList(Merged(bs, i)[i..])
  {
    assert Merged(bs, i)[..i] == bs[..i];
    assert Merged(bs, i)[i..] == [Block(bs[i].addr, bs[i].size + HEADER + bs[i + 1].size)] + bs[i + 2..];
    assert bs[i..] == bs[i..i + 2] + bs[i + 2..];
    ListJoins(bs[i..i + 2], bs[i + 2..]);
  }

  lemma SkipList(bs: seq<Block>, i: nat)
    requires i + 1 < |bs| && bs[i].End() != bs[i + 1].addr
    ensures bs[..i] + CoalesceList(bs[i..]) == bs[..i + 1] + CoalesceList(bs[i + 1..])
  {
    assert bs[i..] == [bs[i]] + bs[i + 1..];
    ListSkips(bs[i], bs[i + 1..]);
    assert bs[..i + 1] == bs[..i] + [bs[i]];
  }

  lemma MergeShape(bs: seq<Block>, taken: seq<Block>, i: nat, lo: nat, hi: nat)
    requires i + 1 < |bs| && bs[i].End() == bs[i + 1].addr
    requires Increasing(bs) && InArena(bs, lo, hi) && ClearAll(taken, bs)
    ensures var bs' := Merged(bs, i); Increasing(bs') && InArena(bs', lo, hi) && ClearAll(taken, bs')
  {
    var bs' := Merged(bs, i);
    assert forall k :: 0 <= k < |bs'| && k != i ==> bs'[k] == bs[if k < i then k else k + 1];
    forall c | c in bs' ensures c == bs'[i] || c in bs {
      var k :| 0 <= k < |bs'| && bs'[k] == c;
    }
    assert bs[i] in bs && bs[i + 1] in bs;
    forall t | t in taken ensures Clear(t, bs'[i]) {
      assert Clear(t, bs[i]) && Clear(t, bs[i + 1]);
    }
  }

  /** Both lists in memory, the free one in address order, and clear of one another. */
  ghost predicate Lists(m: seq<nat>, free: nat, bs: seq<Block>, alloc: nat, taken: seq<Block>, lo: nat, hi: nat) {
    && Linked(m, free, bs) && Increasing(bs) && InArena(bs, lo, hi)
    && Linked(m, alloc, taken) && ClearAll(taken, bs)
  }

  lemma MergeStep(m: seq<nat>, m': seq<nat>, free: nat, bs: seq<Block>,
                  alloc: nat, taken: seq<Block>, i: nat, lo: nat, hi: nat)
    requires i + 1 < |bs| && bs[i].End() == bs[i + 1].addr && Entry(m, bs, i) && Entry(m, bs, i + 1)
    requires m' == m[bs[i].addr := bs[i].size + (HEADER + bs[i + 1].size)]
                    [bs[i].addr + NEXT := m[bs[i + 1].addr + NEXT]]
    requires Lists(m, free, bs, alloc, taken, lo, hi)
    ensures Lists(m', free, Merged(bs, i), alloc, taken, lo, hi) && Spares(m, m', lo, hi, taken)
  {
    MergeShape(bs, taken, i, lo, hi);
    HeaderWrites(m, bs[i], bs[i].size + (HEADER + bs[i + 1].size), m[bs[i + 1].addr + NEXT]);
    assert bs[i] in bs;
    assert Linked(m', alloc, taken) by { WithinFrame(m, m', alloc, taken, bs[i]); }
    assert Spares(m, m', lo, hi, taken) by { HeadersSpare(m, m', bs[i], bs[i], lo, hi, taken); }
    assert Linked(m', free, Merged(bs, i)) by { Join(m, m', free, bs, i); }
  }

  /** What is written inside free blocks leaves the payload of live blocks alone. */
  lemma FreeBlocksSpare(m: seq<nat>, m': seq<nat>, cells: seq<Cell>, lo: nat, j: nat, k: nat)
    requires var fl := Blocks(cells, lo, false); j < |fl| && k < |fl| && WithinTwo(m, m', fl[j], fl[k])
    ensures Spares(m, m', lo, lo + Span(cells), Blocks(cells, lo, true))
  {
    var fl := Blocks(cells, lo, false);
    BlocksInside(cells, lo, false);
    FreeApartFromLive(cells, lo);
    assert fl[j] in fl && fl[k] in fl;
    WithinTwoSpares(m, m', fl[j], fl[k], lo, lo + Span(cells), Blocks(cells, lo, true));
  }

  lemma RoundedAligned(size: nat)
    ensures Rounded(size) % WORD == 0
  {
    var x := size + WORD - size % WORD;
    assert x == WORD * (size / WORD + 1);
    assert x % MODULUS == x - MODULUS * (x / MODULUS);
    assert MODULUS * (x / MODULUS) == WORD * (0x2000_0000_0000_0000 * (x / MODULUS));
  }

  /** The payload of a block of `size` bytes once `n` are asked of it. */
  function Got(size: nat, n: nat): nat {
    if size >= n + MIN_BLOCK then n else size
  }

  /** The free list once block `j` has given `n` bytes. */
  function FreeAfterTake(fl: seq<Block>, j: nat, n: nat): seq<Block>
    requires j < |fl| && n <= fl[j].size
  {
    fl[..j] + (if fl[j].size >= n + MIN_BLOCK then [Halves(fl[j], n)[1]] else []) + fl[j + 1..]
  }

  /** The free list once block `j` is cut, but not yet taken. */
  function CutAt(fl: seq<Block>, j: nat, n: nat): seq<Block>
    requires j < |fl| && n <= fl[j].size
  {
    if fl[j].size >= n + MIN_BLOCK then fl[..j] + Halves(fl[j], n) + fl[j + 1..] else fl
  }

  /** Every block after the cut lies in a block from before it. */
  lemma CutOrigin(fl: seq<Block>, j: nat, n: nat, p: nat) returns (q: nat)
    requires j < |fl| && n <= fl[j].size && p < |CutAt(fl, j, n)|
    ensures q < |fl| && fl[q].addr <= CutAt(fl, j, n)[p].addr && CutAt(fl, j, n)[p].End() <= fl[q].End()
    ensures q != j ==> CutAt(fl, j, n)[p] == fl[q] && p == if q < j then q else q + |CutAt(fl, j, n)| - |fl|
    ensures q == j ==> j <= p <= j + |CutAt(fl, j, n)| - |fl|
  {
    q := if p <= j then p else p - (|CutAt(fl, j, n)| - |fl|);
  }

  lemma CutApart(fl: seq<Block>, j: nat, n: nat)
    requires j < |fl| && n <= fl[j].size && Apart(fl)
    ensures Apart(CutAt(fl, j, n))
  {
    var cut := CutAt(fl, j, n);
    forall p, p' | 0 <= p < |cut| && 0 <= p' < |cut| && p != p' ensures Clear(cut[p], cut[p']) {
      var q := CutOrigin(fl, j, n, p);
      var q' := CutOrigin(fl, j, n, p');
      if q != q' {
        assert Clear(fl[q], fl[q']);
      }
    }
  }

  lemma CutClear(fl: seq<Block>, taken: seq<Block>, j: nat, n: nat)
    requires j < |fl| && n <= fl[j].size && ClearAll(taken, fl)
    ensures ClearAll(taken, CutAt(fl, j, n))
  {
    var cut := CutAt(fl, j, n);
    forall b, c | b in taken && c in cut ensures Clear(b, c) {
      var p :| 0 <= p < |cut| && cut[p] == c;
      var q := CutOrigin(fl, j, n, p);
      assert fl[q] in fl && Clear(b, fl[q]);
    }
  }

  lemma CutTaken(fl: seq<Block>, j: nat, n: nat)
    requires j < |fl| && n <= fl[j].size
    ensures var cut := CutAt(fl, j, n);
            && j < |cut| && cut[j] == Block(fl[j].addr, Got(fl[j].size, n)) && cut[..j] == fl[..j]
            && cut[..j] + cut[j + 1..] == FreeAfterTake(fl, j, n)
  {
    if fl[j].size >= n + MIN_BLOCK {
      var halves := Halves(fl[j], n);
      Middle(fl[..j], halves, fl[j + 1..]);
      assert fl[..j] + ([halves[1]] + fl[j + 1..]) == fl[..j] + [halves[1]] + fl[j + 1..];
    } else {
      assert fl[..j] + [] + fl[j + 1..] == fl[..j] + fl[j + 1..];
    }
  }

  // ---- Facts about rows of cells that malloc needs

  lemma SplitBlocks(size: nat, n: nat, at: nat)
    requires n <= size
    ensures Blocks(Split(size, n), at, true) == [Block(at, Got(size, n))]
    ensures Blocks(Split(size, n), at, false)
         == if size >= n + MIN_BLOCK then [Halves(Block(at, size), n)[1]] else []
  {
    if size >= n + MIN_BLOCK {
      var rest := [Cell(size - n - HEADER, false)];
      RowCons(Cell(n, true), rest, at, true);
      RowCons(Cell(n, true), rest, at, false);
    }
  }

  lemma Middle<T>(before: seq<T>, mid: seq<T>, tail: seq<T>)
    requires mid != []
    ensures var row, j := before + mid + tail, |before|;
            row[j] == mid[0] && row[..j] == before && row[j + 1..] == mid[1..] + tail
  {
  }

  /** What carving `n` bytes out of the first fit, block `j` of the free list, does to that list. */
  lemma CarveFree(cells: seq<Cell>, lo: nat, n: nat, j: nat)
    requires var i := FirstFit(cells, n); i < |cells| && j == |Blocks(cells[..i], lo, false)|
    requires j < |Blocks(cells, lo, false)| && n <= Blocks(cells, lo, false)[j].size
    ensures Blocks(AfterMalloc(cells, n), lo, false) == FreeAfterTake(Blocks(cells, lo, false), j, n)
  {
    var i := FirstFit(cells, n);
    var at, size := AddrOf(cells, lo, i), cells[i].size;
    SplitSpan(size, n);
    SplitBlocks(size, n, at);
    var before, tail := Around(cells, lo, i, Split(size, n), false);
    MiddleOne(before, Block(at, size), tail);
  }

  lemma MiddleOne<T>(before: seq<T>, x: T, tail: seq<T>)
    ensures var row, j := before + [x] + tail, |before|;
            row[j] == x && row[..j] == before && row[j + 1..] == tail
  {
  }

  lemma CarveLive(cells: seq<Cell>, lo: nat, n: nat)
    requires FirstFit(cells, n) < |cells|
    ensures var i := FirstFit(cells, n);
            var b := Block(AddrOf(cells, lo, i), Got(cells[i].size, n));
            forall c :: c in Blocks(AfterMalloc(cells, n), lo, true) <==> c in Blocks(cells, lo, true) || c == b
  {
    var i := FirstFit(cells, n);
    SplitSpan(cells[i].size, n);
    SplitBlocks(cells[i].size, n, AddrOf(cells, lo, i));
    var before, tail := Around(cells, lo, i, Split(cells[i].size, n), true);
  }

  ghost predicate SameBlocks(bs: seq<Block>, cs: seq<Block>) {
    forall b :: b in bs <==> b in cs
  }

  ghost predicate ClearAll(bs: seq<Block>, cs: seq<Block>) {
    forall b, c :: b in bs && c in cs ==> Clear(b, c)
  }

  lemma RowClear(cells: seq<Cell>, lo: nat, taken: seq<Block>)
    requires SameBlocks(taken, Blocks(cells, lo, true))
    ensures Apart(Blocks(cells, lo, false)) && ClearAll(taken, Blocks(cells, lo, false))
  {
    BlocksIncreasing(cells, lo, false);
    FreeApartFromLive(cells, lo);
  }

  /** Taking block `j` off the free list is what AfterMalloc says, seen from the two lists. */
  lemma TakenRow(cells: seq<Cell>, lo: nat, taken: seq<Block>, n: nat, j: nat)
    requires Canonical(cells) && Aligned(cells) && n % WORD == 0
    requires Apart(taken) && SameBlocks(taken, Blocks(cells, lo, true))
    requires var fl, i := Blocks(cells, lo, false), FirstFit(cells, n);
             && i < |cells| && j == |Blocks(cells[..i], lo, false)| && j < |fl|
             && n <= fl[j].size && fl[j] == Block(AddrOf(cells, lo, i), cells[i].size)
    ensures var fl, after := Blocks(cells, lo, false), AfterMalloc(cells, n);
            var more := [Block(fl[j].addr, Got(fl[j].size, n))] + taken;
            && Blocks(after, lo, false) == FreeAfterTake(fl, j, n)
            && Apart(more) && SameBlocks(more, Blocks(after, lo, true))
            && Canonical(after) && Aligned(after) && after != [] && Span(after) == Span(cells)
  {
    var fl := Blocks(cells, lo, false);
    CarveFree(cells, lo, n, j);
    CarveLive(cells, lo, n);
    RowKeeps(cells, n);
    RowClear(cells, lo, taken);
    assert fl[j] in fl;
    PushApart(fl[j], Block(fl[j].addr, Got(fl[j].size, n)), taken);
  }

  /** A block inside one that is clear of a list can join the list. */
  lemma PushApart(around: Block, b: Block, taken: seq<Block>)
    requires Apart(taken) && around.addr <= b.addr && b.End() <= around.End()
    requires forall c :: c in taken ==> Clear(c, around)
    ensures Apart([b] + taken)
  {
    var more := [b] + taken;
    forall p, q | 0 <= p < |more| && 0 <= q < |more| && p != q ensures Clear(more[p], more[q]) {
      assert p > 0 ==> more[p] == taken[p - 1] && taken[p - 1] in taken;
      assert q > 0 ==> more[q] == taken[q - 1] && taken[q - 1] in taken;
      assert p > 0 && q > 0 ==> Clear(taken[p - 1], taken[q - 1]);
    }
  }

  lemma EarlierCell(cells: seq<Cell>, lo: nat, i: nat, k: nat)
    requires i < k < |cells| && !cells[i].live
    ensures var j := |Blocks(cells[..k], lo, false)|;
            j <= |Blocks(cells, lo, false)|
            && Block(AddrOf(cells, lo, i), cells[i].size) in Blocks(cells, lo, false)[..j]
  {
    var head := cells[..k];
    assert Block(AddrOf(cells, lo, i), cells[i].size) in Blocks(head, lo, false) by {
      CellIsBlock(head, lo, i);
      assert head[..i] == cells[..i];
    }
    BlocksSplitAt(cells, lo, k, false);
    assert Blocks(cells, lo, false)[..|Blocks(head, lo, false)|] == Blocks(head, lo, false);
  }

  /** The walk down the free list stops at the first cell that fits. */
  lemma FirstFitOnList(cells: seq<Cell>, lo: nat, n: nat, j: nat)
    requires var fl := Blocks(cells, lo, false);
             && j <= |fl| && (forall k :: 0 <= k < j ==> fl[k].size < n) && (j < |fl| ==> fl[j].size >= n)
    ensures var fl, i := Blocks(cells, lo, false), FirstFit(cells, n);
            if j == |fl| then i == |cells|
            else
              && i < |cells| && fl[j] == Block(AddrOf(cells, lo, i), cells[i].size)
              && |Blocks(cells[..i], lo, false)| == j
  {
    var fl, i := Blocks(cells, lo, false), FirstFit(cells, n);
    if j < |fl| {
      var k := Locate(cells, lo, false, j);
      if i < k {
        EarlierCell(cells, lo, i, k);
      }
    } else if i < |cells| {
      CellIsBlock(cells, lo, i);
    }
  }
}
