/** The buddy allocator of Kernel/MemoryManager.c: an array of block records, and one doubly linked
    list of free blocks per level threaded through it. */
module BuddyAllocator {
  import opened Arithmetic
  import opened BuddyBook
  import opened BuddyLaws

  const NIL: int := -1
  const INFO_SIZE: nat := 524432   // sizeof(BuddyInfo)

  /** A record; a pointer to a record is its index. */
  datatype Block = Block(size: nat, level: nat, next: int, prev: int)

  function At(row: seq<nat>, k: int): int {
    if 0 <= k < |row| then row[k] else NIL
  }

  /** Record `k` of a row points to its neighbours in the row. */
  ghost predicate NodeOk(bl: seq<Block>, row: seq<nat>, k: nat, l: nat)
    requires k < |row|
  {
    && row[k] < |bl| && bl[row[k]].level == l
    && bl[row[k]].next == At(row, k + 1) && bl[row[k]].prev == At(row, k - 1)
  }

  ghost predicate NoTwice(row: seq<nat>) {
    forall i, j :: 0 <= i < j < |row| ==> row[i] != row[j]
  }

  /** From `head` on, the records of `row` are a doubly linked list. */
  ghost predicate Chained(bl: seq<Block>, head: int, row: seq<nat>, l: nat) {
    head == At(row, 0) && NoTwice(row) && forall k: nat :: k < |row| ==> NodeOk(bl, row, k, l)
  }

  ghost predicate AllChained(bl: seq<Block>, heads: seq<int>, rows: seq<seq<nat>>) {
    |heads| == |rows| == TREE_HEIGHT && forall l: nat :: l < TREE_HEIGHT ==> Chained(bl, heads[l], rows[l], l)
  }

  /** Record `b` is on no list. */
  ghost predicate Loose(rows: seq<seq<nat>>, b: nat) {
    forall l: nat :: l < |rows| ==> b !in rows[l]
  }

  function Levels(bl: seq<Block>): (r: seq<nat>)
    ensures |r| == |bl| && forall i :: 0 <= i < |bl| ==> r[i] == bl[i].level
  {
    seq(|bl|, i requires 0 <= i < |bl| => bl[i].level)
  }

  function Sizes(bl: seq<Block>): (r: seq<nat>)
    ensures |r| == |bl| && forall i :: 0 <= i < |bl| ==> r[i] == bl[i].size
  {
    seq(|bl|, i requires 0 <= i < |bl| => bl[i].size)
  }

  /** What malloc answers; a fault is a use of NULL, or of a row that is not there. */
  datatype Answer = Pointer(address: nat) | Fault

  class Buddy {
    const blocks: array<Block>
    const freeRow: array<int>
    var lvl: nat
    var used: nat
    var start: nat
    var inUse: nat
    var free: nat
    var total: nat
    ghost var rows: seq<seq<nat>>
    ghost var owner: seq<nat>
    ghost var moved: int

    ghost function State(): Book
      reads this, blocks
    {
      Book(rows, owner, Levels(blocks[..]), Sizes(blocks[..]))
    }

    ghost predicate Lists()
      reads this`rows, blocks, freeRow
    {
      blocks.Length == BLOCK_LIMIT && AllChained(blocks[..], freeRow[..], rows)
    }

    ghost predicate CountersOk()
      reads this`inUse, this`free, this`total, this`moved
    {
      inUse == moved % MODULUS && free == (total - moved) % MODULUS
    }

    ghost predicate Valid()
      reads this, blocks, freeRow
    {
      && Lists() && BuddyBook.Valid(State())
      && 0 < lvl <= TREE_HEIGHT && used == |owner| == Pow2(lvl - 1)
      && CountersOk() && moved == LiveBytes(State())
    }

    constructor ()
      ensures fresh(blocks) && fresh(freeRow) && blocks.Length == BLOCK_LIMIT && freeRow.Length == TREE_HEIGHT
    {
      blocks := new Block[BLOCK_LIMIT](i => Block(0, 0, NIL, NIL));
      freeRow := new int[TREE_HEIGHT](i => NIL);
    }

    method Account(d: int)
      requires CountersOk()
      modifies this`inUse, this`free, this`moved
      ensures CountersOk() && moved == old(moved) + d
    {
      WrapAdd(moved, d);
      WrapAdd(total - moved, -d);
      inUse := (inUse + d) % MODULUS;
      free := (free - d) % MODULUS;
      moved := moved + d;
    }

    method AddBlock(b: nat)
      requires Lists() && Loose(rows, b) && b < BLOCK_LIMIT && blocks[b].level < TREE_HEIGHT && CountersOk()
      modifies blocks, freeRow, this`rows, this`inUse, this`free, this`moved
      ensures Lists() && rows == old(rows)[old(blocks[b].level) := [b] + old(rows)[old(blocks[b].level)]]
      ensures Levels(blocks[..]) == Levels(old(blocks[..]))
      ensures Sizes(blocks[..]) == Sizes(old(blocks[..]))[b := 0]
      ensures CountersOk() && moved == old(moved) - SizeOf(old(blocks[b].level))
    {
      var l := blocks[b].level;
      ghost var head := freeRow[l];
      assert Chained(blocks[..], freeRow[l], rows[l], l);
      assert rows[l] != [] ==> NodeOk(blocks[..], rows[l], 0, l) && rows[l][0] in rows[l];
      blocks[b] := blocks[b].(next := freeRow[l]);
      blocks[b] := blocks[b].(prev := NIL);
      freeRow[l] := b;
      if blocks[b].next != NIL {
        var n := blocks[b].next;
        blocks[n] := blocks[n].(prev := b);
      }
      blocks[b] := blocks[b].(size := 0);
      assert blocks[..] == AddWrites(old(blocks[..]), b, head);
      AddKeepsChains(old(blocks[..]), old(freeRow[..]), rows, l, b);
      rows := rows[l := [b] + rows[l]];
      Account(0 - SizeOf(l));
    }

    /** Takes record `b`, the k-th of its row, off its list, and marks it allocated. */
    method RemoveBlock(b: nat, ghost k: nat)
      requires Lists() && b < BLOCK_LIMIT && blocks[b].level < TREE_HEIGHT && CountersOk()
      requires k < |rows[blocks[b].level]| && rows[blocks[b].level][k] == b
      modifies blocks, freeRow, this`rows, this`inUse, this`free, this`moved
      ensures var l := old(blocks[b].level);
              && Lists() && rows == old(rows)[l := old(rows)[l][..k] + old(rows)[l][k + 1..]]
              && Loose(rows, b)
              && CountersOk() && moved == old(moved) + SizeOf(l)
              && Sizes(blocks[..]) == Sizes(old(blocks[..]))[b := SizeOf(l)]
      ensures Levels(blocks[..]) == Levels(old(blocks[..]))
    {
      ghost var l := blocks[b].level;
      assert Chained(blocks[..], freeRow[l], rows[l], l);
      RowNeighbours(blocks[..], freeRow[l], rows[l], l, k);
      if blocks[b].next != NIL {
        var n := blocks[b].next;
        blocks[n] := blocks[n].(prev := blocks[b].prev);
      }
      if blocks[b].prev != NIL {
        var p := blocks[b].prev;
        blocks[p] := blocks[p].(next := blocks[b].next);
      } else {
        freeRow[blocks[b].level] := blocks[b].next;
      }
      blocks[b] := blocks[b].(next := NIL);
      blocks[b] := blocks[b].(prev := NIL);
      blocks[b] := blocks[b].(size := SizeOf(blocks[b].level));
      assert blocks[..] == RemoveWrites(old(blocks[..]), b);
      RemoveKeepsChains(old(blocks[..]), old(freeRow[..]), rows, l, k);
      RemovedIsLoose(old(blocks[..]), old(freeRow[..]), rows, l, k);
      rows := rows[l := rows[l][..k] + rows[l][k + 1..]];
      Account(blocks[b].size);
    }

    /** The other half of the block of the next level that an aligned block `b` is a half of. */
    method GetBuddy(b: nat) returns (c: int)
      requires b < blocks.Length
      ensures b % Pow2(blocks[b].level) == 0 ==> AreBuddies(b, c, blocks[b].level)
      ensures c == OtherHalf(b, blocks[b].level)
    {
      var levelIndex := b / Pow2(blocks[b].level);
      if levelIndex % 2 != 0 {
        c := b - Pow2(blocks[b].level);
      } else {
        c := b + Pow2(blocks[b].level);
      }
      if b % Pow2(blocks[b].level) == 0 {
        OtherHalfIsBuddy(b, blocks[b].level);
      }
    }

    /** Sets the level of a record that is on no list. */
    method SetLevel(b: nat, level: nat)
      requires Lists() && Loose(rows, b) && b < BLOCK_LIMIT
      modifies blocks
      ensures Lists()
      ensures Levels(blocks[..]) == Levels(old(blocks[..]))[b := level] && Sizes(blocks[..]) == Sizes(old(blocks[..]))
    {
      blocks[b] := blocks[b].(level := level);
      assert blocks[..] == old(blocks[..])[b := old(blocks[b]).(level := level)];
      LooseWrite(old(blocks[..]), freeRow[..], rows, b, blocks[b]);
    }

    /** Takes record `b`, first of row `m`, off its list, and lowers its level and its other half's. */
    method Detach(b: nat, m: nat) returns (c: nat)
      requires Lists() && CountersOk() && 0 < m < TREE_HEIGHT && rows[m] != [] && rows[m][0] == b
      requires b + Pow2(m - 1) < BLOCK_LIMIT && blocks[b].level == m && (b / Pow2(m - 1)) % 2 == 0
      requires Loose(rows, b + Pow2(m - 1))
      modifies blocks, freeRow, this`rows, this`inUse, this`free, this`moved
      ensures c == b + Pow2(m - 1) && Lists() && CountersOk() && moved == old(moved) + SizeOf(m)
      ensures rows == old(rows)[m := old(rows)[m][..0] + old(rows)[m][1..]] && Loose(rows, b) && Loose(rows, c)
      ensures Levels(blocks[..]) == Levels(old(blocks[..]))[b := m - 1][c := m - 1]
      ensures Sizes(blocks[..]) == Sizes(old(blocks[..]))[b := SizeOf(m)]
    {
      ghost var before := rows;
      RemoveBlock(b, 0);
      SetLevel(b, m - 1);
      assert blocks[b].level == Levels(blocks[..])[b] == m - 1;
      var half := GetBuddy(b);
      c := half;
      StillLoose(before, m, c);
      SetLevel(c, m - 1);
    }

    /** The relinking of splitBlock: record `b`, first of row `m`, and its other half go to row m - 1. */
    method SplitFirst(b: nat, m: nat)
      requires Lists() && CountersOk() && 0 < m < TREE_HEIGHT && rows[m] != [] && rows[m][0] == b
      requires b + Pow2(m - 1) < BLOCK_LIMIT && blocks[b].level == m && (b / Pow2(m - 1)) % 2 == 0
      requires Loose(rows, b + Pow2(m - 1)) && SizeOf(m) == 2 * SizeOf(m - 1)
      modifies blocks, freeRow, this`rows, this`inUse, this`free, this`moved
      ensures Lists() && CountersOk() && moved == old(moved)
      ensures var c := b + Pow2(m - 1);
              && rows == old(rows)[m := old(rows)[m][1..]][m - 1 := [b, c] + old(rows)[m - 1]]
              && Levels(blocks[..]) == Levels(old(blocks[..]))[b := m - 1][c := m - 1]
              && Sizes(blocks[..]) == Sizes(old(blocks[..]))[b := SizeOf(m)][c := 0][b := 0]
    {
      ghost var before := rows;
      var c := Detach(b, m);
      AddBlock(c);
      AddBlock(b);
      SplitRows(before, m, b, c);
    }

    method SplitBlock(level: nat) returns (status: int)
      requires Valid() && level < TREE_HEIGHT
      modifies this`rows, this`owner, this`inUse, this`free, this`moved, blocks, freeRow
      ensures Valid()
      ensures status == if level == 0 || old(rows)[level] == [] then -1 else 0
      ensures status == 0 ==> HalveReady(old(State()), level) && State() == Halve(old(State()), level)
      ensures status != 0 ==> unchanged(this, blocks, freeRow)
    {
      ghost var s := State();
      assert Chained(blocks[..], freeRow[level], rows[level], level);
      if level == 0 || freeRow[level] == NIL { return -1; }
      HalveKeeps(s, level);
      SplitFacts(s, level);
      SplitFirst(freeRow[level], level);
      owner := Claim(owner, s.rows[level][0] + Pow2(level - 1), Pow2(level - 1));
      assert Sizes(blocks[..]) == Halve(s, level).size;
      assert State() == Halve(s, level);
      return 0;
    }

    /** Answers -1 to a misaligned region, one that is not a power of two of blocks, or one of a level out
        of range.  The arena starts after the book, and so ends past the region. */
    method Initialize(initialAddress: nat, size: nat) returns (status: int)
      requires blocks.Length == BLOCK_LIMIT && freeRow.Length == TREE_HEIGHT
      modifies this, blocks, freeRow
      ensures status == if initialAddress % 8 != 0 || size % BLOCK_SIZE != 0 || !IsPow2(size / BLOCK_SIZE)
                           || Log2(size / BLOCK_SIZE) == 0 || Log2(size / BLOCK_SIZE) >= TREE_HEIGHT then -1 else 0
      ensures status == 0 ==>
                && Valid() && State() == Initial(Log2(size / BLOCK_SIZE))
                && lvl == Log2(size / BLOCK_SIZE) + 1 && start == initialAddress + INFO_SIZE
                && total == (size - INFO_SIZE) % MODULUS
    {
      if initialAddress % 8 != 0 || size % BLOCK_SIZE != 0 || !IsPow2(size / BLOCK_SIZE) { return -1; }
      var level := FloorLog2(size / BLOCK_SIZE);
      if level == 0 || level >= TREE_HEIGHT { return -1; }
      LayOut(level);
      inUse, total := 0, (size - INFO_SIZE) % MODULUS;
      free, moved := total, 0;
      SmallIsItself(total);
      lvl, used, start := level + 1, Pow2(level), initialAddress + INFO_SIZE;
      InitialValid(level);
      SumOfZeros(State().size);
      return 0;
    }

    /** The whole arena as one free block. */
    method LayOut(level: nat)
      requires blocks.Length == BLOCK_LIMIT && freeRow.Length == TREE_HEIGHT && level < TREE_HEIGHT
      modifies this`rows, this`owner, blocks, freeRow
      ensures Lists() && State() == Initial(level)
    {
      Clear();
      blocks[0] := blocks[0].(level := level);
      freeRow[level] := 0;
      rows, owner := Initial(level).rows, Initial(level).owner;
      InitialChained(blocks[..], freeRow[..], level);
    }

    method Clear()
      requires blocks.Length == BLOCK_LIMIT && freeRow.Length == TREE_HEIGHT
      modifies blocks, freeRow
      ensures forall i :: 0 <= i < BLOCK_LIMIT ==> blocks[i] == Block(0, 0, NIL, NIL)
      ensures forall l :: 0 <= l < TREE_HEIGHT ==> freeRow[l] == NIL
    {
      for i := 0 to BLOCK_LIMIT
        invariant forall j :: 0 <= j < i ==> blocks[j] == Block(0, 0, NIL, NIL)
      {
        blocks[i] := Block(0, 0, NIL, NIL);
      }
      for l := 0 to TREE_HEIGHT
        invariant forall i :: 0 <= i < BLOCK_LIMIT ==> blocks[i] == Block(0, 0, NIL, NIL)
        invariant forall k :: 0 <= k < l ==> freeRow[k] == NIL
      {
        freeRow[l] := NIL;
      }
    }

    static method FloorLog2(n: nat) returns (ret: nat)
      ensures ret == Log2(n)
    {
      ret := 0;
      var x: nat := n / 2;
      while x != 0
        invariant Log2(n) == ret + if x == 0 then 0 else 1 + Log2(x)
      {
        ret := ret + 1;
        x := x / 2;
      }
    }

    /** The allocated bytes are those of the live blocks, and the two counters add up to the total. */
    method GetInfoMem() returns (inUseBytes: nat, freeBytes: nat, totalBytes: nat)
      requires Valid()
      ensures inUseBytes == LiveBytes(State()) && (inUseBytes + freeBytes) % MODULUS == totalBytes % MODULUS
    {
      LiveBytesAreUnits(State());
      AddsUp(total, moved, free);
      return inUse, free, total;
    }

    /** The pointer is 0, for NULL, or the address of the block's first unit.  A request for more than the
        arena faults: it has no row, or an empty one and only empty ones above, so the search runs past
        `lvl`, which it tests for equality, and removeBlock is given NULL. */
    method Malloc(size: nat) returns (r: Answer)
      requires Valid() && 0 < start
      modifies this`rows, this`owner, this`inUse, this`free, this`moved, blocks, freeRow
      ensures Valid() && (r.Fault? <==> size > SizeOf(lvl - 1))
      ensures r.Fault? ==> State() == old(State())
      ensures r.Pointer? ==> LevelFor(size) < TREE_HEIGHT && State() == BuddyLaws.Malloc(old(State()), size)
      ensures r.Pointer? ==>
                r.address ==
                if CanServe(old(State()), LevelFor(size)) then start + Chosen(old(State()), size) * BLOCK_SIZE else 0
    {
      var level := FloorLog2(size / BLOCK_SIZE);
      if Pow2(level) * BLOCK_SIZE < size {
        level := level + 1;
      }
      LevelFits(size, lvl);
      if level >= lvl {
        NoRowsAbove(State(), lvl);
        assert forall l: nat :: level <= l < TREE_HEIGHT ==>
                 rows[l] == [] && Chained(blocks[..], freeRow[..][l], rows[l], l);
        assert forall l :: level <= l < TREE_HEIGHT ==> freeRow[l] == NIL;
        return Fault;
      }
      var ptr := Serve(size, level);
      return Pointer(ptr);
    }

    /** malloc at its level. */
    method Serve(ghost size: nat, level: nat) returns (ptr: nat)
      requires Valid() && 0 < start && level == LevelFor(size) < lvl
      modifies this`rows, this`owner, this`inUse, this`free, this`moved, blocks, freeRow
      ensures Valid() && State() == BuddyLaws.Malloc(old(State()), size)
      ensures ptr == if CanServe(old(State()), level) then start + Chosen(old(State()), size) * BLOCK_SIZE else 0
    {
      ghost var s := State();
      var found := FindRow(level);
      RowFound(s, level, lvl);
      if found == lvl { return 0; }
      SplitDown(found, level);
      var b := TakeFirst(level);
      return start + b * BLOCK_SIZE;
    }

    /** The row malloc takes its block from: `lvl` stands for none. */
    method FindRow(level: nat) returns (minAbove: nat)
      requires Lists() && level < lvl <= TREE_HEIGHT
      ensures minAbove == FirstRow(rows, level, lvl)
    {
      assert forall l: nat :: l < TREE_HEIGHT ==> Chained(blocks[..], freeRow[..][l], rows[l], l);
      minAbove := level;
      if freeRow[level] == NIL {
        minAbove := level + 1;
        while minAbove < lvl && freeRow[minAbove] == NIL
          invariant level < minAbove <= lvl
          invariant FirstRow(rows, level, lvl) == FirstRow(rows, minAbove, lvl)
        {
          minAbove := minAbove + 1;
        }
      }
    }

    method SplitDown(from: nat, level: nat)
      requires Valid() && level <= from < TREE_HEIGHT && rows[from] != []
      modifies this`rows, this`owner, this`inUse, this`free, this`moved, blocks, freeRow
      ensures Valid() && State() == Cascade(old(State()), from, level)
    {
      var minAbove := from;
      while minAbove > level
        invariant level <= minAbove < TREE_HEIGHT && Valid() && rows[minAbove] != []
        invariant Cascade(State(), minAbove, level) == Cascade(old(State()), from, level)
      {
        var status := SplitBlock(minAbove);
        minAbove := minAbove - 1;
      }
    }

    method TakeFirst(level: nat) returns (b: nat)
      requires Valid() && level < TREE_HEIGHT && rows[level] != []
      modifies this`rows, this`inUse, this`free, this`moved, blocks, freeRow
      ensures old(rows)[level][0] == b < BLOCK_LIMIT
      ensures Valid() && State() == Pop(old(State()), level)
    {
      ghost var s := State();
      assert Chained(blocks[..], freeRow[level], rows[level], level);
      PopKeeps(s, level);
      RowBlock(s, level, 0);
      b := freeRow[level];
      assert blocks[b].level == s.level[b] && blocks[b].size == s.size[b];
      RemoveBlock(b, 0);
      assert s.rows[level][..0] + s.rows[level][1..] == s.rows[level][1..];
      assert State() == Pop(s, level);
      SumUpdate(s.size, b, SizeOf(level));
    }

    method Free(ptr: nat)
      requires Valid() && ptr < MODULUS && start < MODULUS
      modifies this`rows, this`inUse, this`free, this`moved, blocks, freeRow
      ensures Valid()
      ensures var offset := (ptr - start) % MODULUS;
              State() == if offset % BLOCK_SIZE != 0 then old(State())
                         else BuddyLaws.Free(old(State()), offset / BLOCK_SIZE)
    {
      var offset := (ptr - start) % MODULUS;
      if offset % BLOCK_SIZE != 0 { return; }
      var b := offset / BLOCK_SIZE;
      if b >= used || blocks[b].size == 0 { return; }
      ghost var s := State();
      PushKeeps(s, b);
      LiveIsLoose(s, b);
      SumUpdate(s.size, b, 0);
      assert Sized(s, b);
      AddBlock(b);
      assert State() == Push(s, b);
      MergeBuddy(b);
    }

    /** The merging step.  Its caller has just zeroed the block's size, and a size of zero is what makes
        it stop, so it never merges: what the C function does beyond this point is never reached. */
    method MergeBuddy(b: nat)
      requires Valid() && b < used && owner[b] == b && blocks[b].size == 0
      ensures unchanged(this, blocks, freeRow)
    {
      if blocks[b].level == lvl - 1 { return; }
      assert Tiled(State(), b);
      Pow2Order(blocks[b].level, lvl - 1);
      Exact(b, Pow2(blocks[b].level));
      BuddyInside(b, blocks[b].level, lvl - 1, b / Pow2(blocks[b].level));
      var c := GetBuddy(b);
      if blocks[b].level != blocks[c].level { return; }
      var size, otherSize := blocks[b].size, blocks[c].size;
      if size == 0 || otherSize == 0 { return; }
      assert false;
    }
  }

  predicate IsPow2(n: nat) {
    n != 0 && Pow2(Log2(n)) == n
  }

  ghost predicate HalveReady(s: Book, m: nat) {
    Shape(s) && 0 < m < TREE_HEIGHT && s.rows[m] != [] && s.rows[m][0] + Pow2(m - 1) < BLOCK_LIMIT
  }

  lemma LooseWrite(bl: seq<Block>, heads: seq<int>, rows: seq<seq<nat>>, b: nat, x: Block)
    requires AllChained(bl, heads, rows) && Loose(rows, b) && b < |bl|
    ensures AllChained(bl[b := x], heads, rows)
  {
    var bl' := bl[b := x];
    forall l: nat | l < TREE_HEIGHT ensures Chained(bl', heads[l], rows[l], l) {
      assert Chained(bl, heads[l], rows[l], l);
      forall k: nat | k < |rows[l]| ensures NodeOk(bl', rows[l], k, l) {
        assert NodeOk(bl, rows[l], k, l) && rows[l][k] in rows[l];
      }
    }
  }

  /** The two halves of the first block `b` of row `m`: the second has no list to be on. */
  lemma SplitFacts(s: Book, m: nat)
    requires BuddyBook.Valid(s) && HalveReady(s, m)
    ensures var b, c := s.rows[m][0], s.rows[m][0] + Pow2(m - 1);
            && b < BLOCK_LIMIT && s.level[b] == m && Loose(s.rows, c)
            && (b / Pow2(m - 1)) % 2 == 0
            && SizeOf(m) == 2 * SizeOf(m - 1) && Halve(s, m).size == s.size
  {
    RowBlock(s, m, 0);
    HalveFits(s, m);
    HalfAligned(s.rows[m][0], m);
    HalveSizes(s, m);
    var c := s.rows[m][0] + Pow2(m - 1);
    HalvedBlock(s, m, c);
    forall l: nat | l < |s.rows| ensures c !in s.rows[l] {
      assert RowOk(s, l);
    }
  }

  function AddWrites(bl: seq<Block>, b: nat, head: int): (r: seq<Block>)
    requires b < |bl| && head < |bl|
    ensures |r| == |bl|
  {
    var bl1 := bl[b := Block(0, bl[b].level, head, NIL)];
    if 0 <= head then bl1[head := bl1[head].(prev := b)] else bl1
  }

  lemma AddKeepsChains(bl: seq<Block>, heads: seq<int>, rows: seq<seq<nat>>, l: nat, b: nat)
    requires AllChained(bl, heads, rows) && Loose(rows, b) && l < TREE_HEIGHT && b < |bl| && bl[b].level == l
    ensures heads[l] < |bl|
    ensures AllChained(AddWrites(bl, b, heads[l]), heads[l := b], rows[l := [b] + rows[l]])
    ensures Levels(AddWrites(bl, b, heads[l])) == Levels(bl) && Sizes(AddWrites(bl, b, heads[l])) == Sizes(bl)[b := 0]
  {
    assert Chained(bl, heads[l], rows[l], l);
    assert rows[l] != [] ==> NodeOk(bl, rows[l], 0, l);
    var bl', row' := AddWrites(bl, b, heads[l]), [b] + rows[l];
    var heads', rows' := heads[l := b], rows[l := row'];
    forall m: nat | m < TREE_HEIGHT ensures Chained(bl', heads'[m], rows'[m], m) {
      assert Chained(bl, heads[m], rows[m], m);
      if m != l {
        forall k: nat | k < |rows[m]| ensures NodeOk(bl', rows[m], k, m) {
          assert NodeOk(bl, rows[m], k, m) && rows[m][k] in rows[m];
        }
      } else {
        forall k: nat | k < |row'| ensures NodeOk(bl', row', k, l) {
          if k > 0 {
            assert NodeOk(bl, rows[l], k - 1, l) && rows[l][k - 1] in rows[l];
          }
        }
        assert NoTwice(row');
      }
    }
  }

  lemma RowNeighbours(bl: seq<Block>, head: int, row: seq<nat>, l: nat, k: nat)
    requires Chained(bl, head, row, l) && k < |row|
    ensures NodeOk(bl, row, k, l)
    ensures k > 0 ==> NodeOk(bl, row, k - 1, l) && row[k - 1] != row[k]
    ensures k + 1 < |row| ==> NodeOk(bl, row, k + 1, l) && row[k + 1] != row[k]
    ensures 0 < k < |row| - 1 ==> row[k - 1] != row[k + 1]
  {
  }

  function RemoveWrites(bl: seq<Block>, b: nat): (r: seq<Block>)
    requires b < |bl| && bl[b].next < |bl| && bl[b].prev < |bl| && bl[b].prev != b && bl[b].next != b
    ensures |r| == |bl|
  {
    var n, p := bl[b].next, bl[b].prev;
    var bl1 := if 0 <= n then bl[n := bl[n].(prev := p)] else bl;
    var bl2 := if 0 <= p then bl1[p := bl1[p].(next := n)] else bl1;
    bl2[b := Block(SizeOf(bl[b].level), bl[b].level, NIL, NIL)]
  }

  lemma RemoveKeepsChains(bl: seq<Block>, heads: seq<int>, rows: seq<seq<nat>>, l: nat, k: nat)
    requires AllChained(bl, heads, rows) && l < TREE_HEIGHT && k < |rows[l]| && rows[l][k] < |bl|
    requires var b := rows[l][k];
             bl[b].level == l && bl[b].next < |bl| && bl[b].prev < |bl| && bl[b].prev != b && bl[b].next != b
    ensures var b := rows[l][k];
            && AllChained(RemoveWrites(bl, b), if bl[b].prev == NIL then heads[l := bl[b].next] else heads,
                          rows[l := rows[l][..k] + rows[l][k + 1..]])
            && Levels(RemoveWrites(bl, b)) == Levels(bl) && Sizes(RemoveWrites(bl, b)) == Sizes(bl)[b := SizeOf(l)]
  {
    var b, row := rows[l][k], rows[l];
    assert Chained(bl, heads[l], row, l);
    RowNeighbours(bl, heads[l], row, l, k);
    var bl', row' := RemoveWrites(bl, b), row[..k] + row[k + 1..];
    var heads', rows' := if bl[b].prev == NIL then heads[l := bl[b].next] else heads, rows[l := row'];
    forall m: nat | m < TREE_HEIGHT ensures Chained(bl', heads'[m], rows'[m], m) {
      assert Chained(bl, heads[m], rows[m], m);
      if m != l {
        forall j: nat | j < |rows[m]| ensures NodeOk(bl', rows[m], j, m) {
          assert NodeOk(bl, rows[m], j, m);
        }
      } else {
        RemovedRow(bl, heads[l], row, l, k);
      }
    }
  }

  lemma RemovedRow(bl: seq<Block>, head: int, row: seq<nat>, l: nat, k: nat)
    requires Chained(bl, head, row, l) && k < |row|
    requires row[k] < |bl| && bl[row[k]].next < |bl| && bl[row[k]].prev < |bl|
    requires bl[row[k]].prev != row[k] && bl[row[k]].next != row[k]
    ensures Chained(RemoveWrites(bl, row[k]), if bl[row[k]].prev == NIL then bl[row[k]].next else head,
                    row[..k] + row[k + 1..], l)
  {
    RowNeighbours(bl, head, row, l, k);
    var bl', row' := RemoveWrites(bl, row[k]), row[..k] + row[k + 1..];
    assert forall j :: 0 <= j < |row'| ==> row'[j] == row[if j < k then j else j + 1];
    forall j: nat | j < |row'| ensures NodeOk(bl', row', j, l) {
      RemovedNode(bl, head, row, l, k, j);
    }
  }

  lemma RemovedNode(bl: seq<Block>, head: int, row: seq<nat>, l: nat, k: nat, j: nat)
    requires Chained(bl, head, row, l) && k < |row| && j + 1 < |row|
    requires row[k] < |bl| && bl[row[k]].next < |bl| && bl[row[k]].prev < |bl|
    requires bl[row[k]].prev != row[k] && bl[row[k]].next != row[k]
    ensures NodeOk(RemoveWrites(bl, row[k]), row[..k] + row[k + 1..], j, l)
  {
    var row' := row[..k] + row[k + 1..];
    var i := if j < k then j else j + 1;
    RowNeighbours(bl, head, row, l, k);
    assert NodeOk(bl, row, i, l) && row'[j] == row[i];
    assert row[i] != row[k];
    assert k > 0 && i != k - 1 ==> row[i] != row[k - 1];
    assert k + 1 < |row| && i != k + 1 ==> row[i] != row[k + 1];
  }

  lemma RemovedIsLoose(bl: seq<Block>, heads: seq<int>, rows: seq<seq<nat>>, l: nat, k: nat)
    requires AllChained(bl, heads, rows) && l < TREE_HEIGHT && k < |rows[l]|
    ensures Loose(rows[l := rows[l][..k] + rows[l][k + 1..]], rows[l][k])
  {
    var b, row := rows[l][k], rows[l];
    assert Chained(bl, heads[l], row, l) && NodeOk(bl, row, k, l);
    var row' := row[..k] + row[k + 1..];
    var rows' := rows[l := row'];
    forall m: nat | m < |rows'| ensures b !in rows'[m] {
      assert Chained(bl, heads[m], rows[m], m);
      if m == l {
        assert forall j :: 0 <= j < |row'| ==> row'[j] == row[if j < k then j else j + 1];
      } else {
        forall j: nat | j < |rows[m]| ensures rows[m][j] != b {
          assert NodeOk(bl, rows[m], j, m);
        }
      }
    }
  }

  lemma StillLoose(rows: seq<seq<nat>>, l: nat, c: nat)
    requires l < |rows| && rows[l] != [] && Loose(rows, c)
    ensures Loose(rows[l := rows[l][..0] + rows[l][1..]], c)
  {
    var rows' := rows[l := rows[l][..0] + rows[l][1..]];
    forall m: nat | m < |rows'| ensures c !in rows'[m] {
      assert c !in rows[m];
    }
  }

  lemma SplitRows(rows: seq<seq<nat>>, m: nat, b: nat, c: nat)
    requires 0 < m < |rows| && rows[m] != []
    ensures var rows1 := rows[m := rows[m][..0] + rows[m][1..]];
            var rows2 := rows1[m - 1 := [c] + rows1[m - 1]];
            rows2[m - 1 := [b] + rows2[m - 1]] == rows[m := rows[m][1..]][m - 1 := [b, c] + rows[m - 1]]
  {
    assert rows[m][..0] + rows[m][1..] == rows[m][1..];
    assert [b] + ([c] + rows[m - 1]) == [b, c] + rows[m - 1];
  }

  lemma InitialChained(bl: seq<Block>, heads: seq<int>, level: nat)
    requires level < TREE_HEIGHT && |bl| == BLOCK_LIMIT && |heads| == TREE_HEIGHT
    requires bl[0] == Block(0, level, NIL, NIL)
    requires forall l :: 0 <= l < TREE_HEIGHT ==> heads[l] == if l == level then 0 else NIL
    ensures AllChained(bl, heads, Initial(level).rows)
  {
    var rows := Initial(level).rows;
    forall l: nat | l < TREE_HEIGHT ensures Chained(bl, heads[l], rows[l], l) {
      assert rows[l] == if l == level then [0] else [];
    }
  }

  lemma LevelFits(size: nat, lvl: nat)
    requires 0 < lvl
    ensures LevelFor(size) < lvl <==> size <= SizeOf(lvl - 1)
  {
    LevelIsLeast(size);
    if LevelFor(size) < lvl {
      Pow2Monotone(LevelFor(size), lvl - 1);
    }
  }

  /** Looking no further than the arena's own level finds what there is. */
  lemma RowFound(s: Book, l: nat, lvl: nat)
    requires BuddyBook.Valid(s) && l < lvl <= TREE_HEIGHT && |s.owner| == Pow2(lvl - 1)
    ensures FirstRow(s.rows, l, lvl) == lvl ==> FirstRow(s.rows, l, TREE_HEIGHT) == TREE_HEIGHT && !CanServe(s, l)
    ensures FirstRow(s.rows, l, lvl) < lvl ==>
              FirstRow(s.rows, l, TREE_HEIGHT) == FirstRow(s.rows, l, lvl) && CanServe(s, l)
  {
    NoRowsAbove(s, lvl);
    FirstRowServes(s, l);
    FirstRowCut(s.rows, l, lvl, TREE_HEIGHT);
  }

  lemma {:induction false} FirstRowCut(rows: seq<seq<nat>>, l: nat, lvl: nat, top: nat)
    requires l <= lvl <= top <= |rows| && forall k :: lvl <= k < top ==> rows[k] == []
    ensures FirstRow(rows, l, top) == if FirstRow(rows, l, lvl) == lvl then top else FirstRow(rows, l, lvl)
    decreases lvl - l
  {
    if l < lvl {
      FirstRowCut(rows, l + 1, lvl, top);
    }
  }

  lemma Pow2Order(i: nat, j: nat)
    requires Pow2(i) <= Pow2(j)
    ensures i <= j
  {
    if j < i {
      Pow2Monotone(j + 1, i);
    }
  }

  /** No block is longer than the arena. */
  lemma NoRowsAbove(s: Book, lvl: nat)
    requires BuddyBook.Valid(s) && 0 < lvl <= TREE_HEIGHT && |s.owner| == Pow2(lvl - 1)
    ensures forall l :: lvl <= l < TREE_HEIGHT ==> s.rows[l] == []
  {
    forall l: nat | lvl <= l < TREE_HEIGHT && s.rows[l] != [] ensures false {
      RowBlock(s, l, 0);
      Pow2Monotone(lvl, l);
    }
  }

  lemma LiveIsLoose(s: Book, b: nat)
    requires BuddyBook.Valid(s) && b < BLOCK_LIMIT && s.size[b] != 0
    ensures Loose(s.rows, b)
  {
    forall l: nat | l < |s.rows| ensures b !in s.rows[l] {
      assert RowOk(s, l);
    }
  }

  lemma {:induction false} Pow2Split(i: nat, j: nat)
    ensures Pow2(i + j) == Pow2(i) * Pow2(j)
  {
    if i > 0 {
      Pow2Split(i - 1, j);
    }
  }

  lemma AddsUp(whole: int, part: nat, rest: nat)
    requires part < MODULUS && rest == (whole - part) % MODULUS
    ensures part % MODULUS == part && (part + rest) % MODULUS == whole % MODULUS
  {
  }

  lemma SmallIsItself(x: nat)
    requires x < MODULUS
    ensures (x - 0) % MODULUS == x && 0 % MODULUS == 0
  {
  }

  lemma MulOrder(d: nat, x: nat, y: nat)
    requires d > 0
    ensures d * x < d * y <==> x < y
    ensures x <= y ==> d * x <= d * y
  {
    if x < y {
      assert d * (y - x) == d * y - d * x;
      MulBound(d, y - x);
    } else {
      assert d * (x - y) == d * x - d * y;
      MulBound(d, x - y);
    }
  }

  lemma HalvesInside(d: nat, q: nat, n: nat, b: nat, end: nat)
    requires d > 0 && b == d * q && end == d * n && b < end && n % 2 == 0
    ensures q % 2 == 1 ==> b >= d
    ensures q % 2 == 0 ==> b + d < end
  {
    MulOrder(d, q, n);
    MulOrder(d, 1, q);
    assert d * (q + 1) == d * q + d;
    MulOrder(d, q + 1, n);
  }

  lemma Pow2Even(l: nat)
    requires l > 0
    ensures Pow2(l) % 2 == 0
  {
  }

  /** The other half of an aligned block below the top level is in the arena. */
  lemma BuddyInside(b: nat, l: nat, top: nat, q: nat)
    requires b < Pow2(top) && l < top && b == Pow2(l) * q
    ensures q % 2 == 1 ==> b >= Pow2(l)
    ensures q % 2 == 0 ==> b + Pow2(l) < Pow2(top)
  {
    Pow2Split(l, top - l);
    Pow2Even(top - l);
    HalvesInside(Pow2(l), q, Pow2(top - l), b, Pow2(top));
  }
}
