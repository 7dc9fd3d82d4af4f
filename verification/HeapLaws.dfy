/** What holds of the list allocator over whole runs of malloc and free. */
module HeapLaws {
  import opened Arithmetic
  import opened HeapCells

  /** The allocator's state: the arena that starts at `lo`, and the bytes that have moved from the
      `free` to the `allocated` counter of infoMem, as an exact integer. */
  datatype Heap = Heap(lo: nat, cells: seq<Cell>, moved: int)

  datatype Op = Request(size: nat) | Release(ptr: nat)

  function Wrap(x: int): (r: nat)
    ensures r < MODULUS
  {
    x % MODULUS
  }

  function Initial(lo: nat, size: nat): Heap
    requires size >= HEADER
  {
    Heap(lo, [Cell(size - HEADER, false)], 0)
  }

  // The three 64-bit counters of infoMem.

  function Allocated(h: Heap): nat { Wrap(HEADER + h.moved) }

  function Unallocated(h: Heap): nat { Wrap(Span(h.cells) - HEADER - 16 - h.moved) }

  function Total(h: Heap): nat { Wrap(Span(h.cells) - 16) }

  /** The pointer malloc(size) returns; 0 is NULL. */
  function Pointer(h: Heap, size: nat): nat {
    if size == 0 then 0 else MallocPointer(h.cells, h.lo, Rounded(size))
  }

  /** The bytes a step moves from the `free` to the `allocated` counter. */
  function MallocMoves(h: Heap, size: nat): int {
    var n := Rounded(size);
    var i := FirstFit(h.cells, n);
    if size == 0 || i == |h.cells| then 0
    else if h.cells[i].size >= n + MIN_BLOCK then HEADER + n
    else h.cells[i].size
  }

  function FreeMoves(h: Heap, ptr: nat): int {
    var i := FindLive(h.cells, h.lo, ptr);
    if i == |h.cells| then 0 else -(h.cells[i].size + HEADER)
  }

  function Malloc(h: Heap, size: nat): Heap {
    if Pointer(h, size) == 0 then h
    else h.(cells := AfterMalloc(h.cells, Rounded(size)), moved := h.moved + MallocMoves(h, size))
  }

  function Free(h: Heap, ptr: nat): Heap {
    if FindLive(h.cells, h.lo, ptr) == |h.cells| then h
    else h.(cells := AfterFree(h.cells, h.lo, ptr), moved := h.moved + FreeMoves(h, ptr))
  }

  function Step(h: Heap, op: Op): Heap {
    match op
    case Request(size) => Malloc(h, size)
    case Release(ptr) => Free(h, ptr)
  }

  function Run(h: Heap, ops: seq<Op>): Heap
    decreases |ops|
  {
    if ops == [] then h else Run(Step(h, ops[0]), ops[1..])
  }

  // ---- Coalescing

  lemma CanonicalCons(c: Cell, rest: seq<Cell>)
    requires Canonical(rest) && (rest == [] || c.live || rest[0].live)
    ensures Canonical([c] + rest)
  {
    var row := [c] + rest;
    forall i: nat | i + 1 < |row| ensures Separated(row, i) {
      if i > 0 {
        assert Separated(rest, i - 1);
      }
    }
  }

  lemma TailKeeps(cells: seq<Cell>, k: nat)
    requires k <= |cells|
    ensures Canonical(cells) ==> Canonical(cells[k..])
    ensures Aligned(cells) ==> Aligned(cells[k..])
  {
    var rest := cells[k..];
    forall i: nat | i + 1 < |rest| ensures Separated(cells, i + k) ==> Separated(rest, i) {
    }
    forall i: nat | i < |rest| ensures WordSized(cells, i + k) ==> WordSized(rest, i) {
    }
  }

  lemma AlignedCons(c: Cell, rest: seq<Cell>)
    requires Aligned(rest) && c.size % WORD == 0
    ensures Aligned([c] + rest)
  {
    var row := [c] + rest;
    forall i: nat | i < |row| ensures WordSized(row, i) {
      if i > 0 {
        assert WordSized(rest, i - 1);
      }
    }
  }

  /** The first two cells as one. */
  function Joined(cells: seq<Cell>): (r: seq<Cell>)
    requires |cells| >= 2
  {
    [Cell(cells[0].size + HEADER + cells[1].size, false)] + cells[2..]
  }

  /** Where the blocks after the first two cells begin. */
  function PastTwo(cells: seq<Cell>, lo: nat): nat
    requires |cells| >= 2
  {
    lo + 2 * HEADER + cells[0].size + cells[1].size
  }

  lemma JoinedRow(cells: seq<Cell>, lo: nat, live: bool)
    requires |cells| >= 2
    ensures Span(Joined(cells)) == cells[0].size + cells[1].size + 2 * HEADER + Span(cells[2..])
    ensures Blocks(Joined(cells), lo, live)
         == (if live then [] else [Block(lo, cells[0].size + HEADER + cells[1].size)])
            + Blocks(cells[2..], PastTwo(cells, lo), live)
  {
    var c := Cell(cells[0].size + HEADER + cells[1].size, false);
    RowCons(c, cells[2..], lo, live);
  }

  lemma FirstTwoRow(cells: seq<Cell>, lo: nat, live: bool)
    requires |cells| >= 2 && !cells[0].live && !cells[1].live
    ensures Span(cells) == cells[0].size + cells[1].size + 2 * HEADER + Span(cells[2..])
    ensures Blocks(cells, lo, live) == FirstTwo(cells, lo, live) + Blocks(cells[2..], PastTwo(cells, lo), live)
  {
    var rest, next := cells[1..], lo + HEADER + cells[0].size;
    assert rest[1..] == cells[2..];
    var second := if live then [] else [Block(next, cells[1].size)];
    assert Span(rest) == HEADER + cells[1].size + Span(cells[2..]);
    assert Blocks(rest, next, live) == second + Blocks(cells[2..], PastTwo(cells, lo), live);
    assert FirstTwo(cells, lo, live) == (if live then [] else [Block(lo, cells[0].size)]) + second;
  }

  function FirstTwo(cells: seq<Cell>, lo: nat, live: bool): seq<Block>
    requires |cells| >= 2
  {
    if live then [] else [Block(lo, cells[0].size), Block(lo + HEADER + cells[0].size, cells[1].size)]
  }

  lemma {:induction false} CoalesceShape(cells: seq<Cell>)
    ensures Canonical(Coalesce(cells)) && Span(Coalesce(cells)) == Span(cells)
    ensures cells != [] ==> Coalesce(cells) != [] && Coalesce(cells)[0].live == cells[0].live
    decreases |cells|
  {
    if |cells| < 2 {
    } else if !cells[0].live && !cells[1].live {
      JoinedRow(cells, 0, true);
      FirstTwoRow(cells, 0, true);
      CoalesceShape(Joined(cells));
    } else {
      CoalesceShape(cells[1..]);
      CanonicalCons(cells[0], Coalesce(cells[1..]));
      RowCons(cells[0], Coalesce(cells[1..]), 0, true);
    }
  }

  lemma {:induction false} CoalesceAligned(cells: seq<Cell>)
    requires Aligned(cells)
    ensures Aligned(Coalesce(cells))
    decreases |cells|
  {
    if |cells| < 2 {
    } else {
      assert WordSized(cells, 0) && WordSized(cells, 1);
      if !cells[0].live && !cells[1].live {
        TailKeeps(cells, 2);
        AlignedCons(Joined(cells)[0], cells[2..]);
        CoalesceAligned(Joined(cells));
      } else {
        TailKeeps(cells, 1);
        CoalesceAligned(cells[1..]);
        AlignedCons(cells[0], Coalesce(cells[1..]));
      }
    }
  }

  lemma {:induction false} CoalesceCanonical(cells: seq<Cell>)
    requires Canonical(cells)
    ensures Coalesce(cells) == cells
  {
    if |cells| >= 2 {
      assert Separated(cells, 0);
      TailKeeps(cells, 1);
      CoalesceCanonical(cells[1..]);
    }
  }

  lemma {:induction false} CoalesceKeepsLive(cells: seq<Cell>, lo: nat)
    ensures Blocks(Coalesce(cells), lo, true) == Blocks(cells, lo, true)
    decreases |cells|
  {
    if |cells| < 2 {
    } else if !cells[0].live && !cells[1].live {
      JoinedRow(cells, lo, true);
      FirstTwoRow(cells, lo, true);
      CoalesceKeepsLive(Joined(cells), lo);
    } else {
      CoalesceKeepsLive(cells[1..], lo + HEADER + cells[0].size);
      RowCons(cells[0], Coalesce(cells[1..]), lo, true);
    }
  }

  /** The walk that ends free(): every block of the free list absorbs the blocks that touch it. */
  function CoalesceList(bs: seq<Block>): seq<Block>
    decreases |bs|
  {
    if |bs| < 2 then bs
    else if bs[0].End() == bs[1].addr then
      CoalesceList([Block(bs[0].addr, bs[0].size + HEADER + bs[1].size)] + bs[2..])
    else [bs[0]] + CoalesceList(bs[1..])
  }

  /** Walking the free list joins exactly the cells that lie side by side in the arena. */
  lemma {:induction false} CoalesceRefines(cells: seq<Cell>, lo: nat)
    ensures Blocks(Coalesce(cells), lo, false) == CoalesceList(Blocks(cells, lo, false))
    decreases |cells|
  {
    if |cells| < 2 {
    } else if !cells[0].live && !cells[1].live {
      JoinedRow(cells, lo, false);
      FirstTwoRow(cells, lo, false);
      CoalesceRefines(Joined(cells), lo);
      ListJoins(FirstTwo(cells, lo, false), Blocks(cells[2..], PastTwo(cells, lo), false));
    } else {
      CoalesceRefines(cells[1..], lo + HEADER + cells[0].size);
      RefinesCons(cells[0], cells[1..], Coalesce(cells[1..]), lo);
      assert cells == [cells[0]] + cells[1..];
    }
  }

  /** A first cell that does not join the rest is carried over by both walks. */
  lemma RefinesCons(c: Cell, rest: seq<Cell>, after: seq<Cell>, lo: nat)
    requires rest != [] && (c.live || rest[0].live)
    requires Blocks(after, lo + HEADER + c.size, false) == CoalesceList(Blocks(rest, lo + HEADER + c.size, false))
    ensures Blocks([c] + after, lo, false) == CoalesceList(Blocks([c] + rest, lo, false))
  {
    RowCons(c, after, lo, false);
    RowCons(c, rest, lo, false);
    if !c.live {
      LiveFirst(rest, lo + HEADER + c.size);
      ListSkips(Block(lo, c.size), Blocks(rest, lo + HEADER + c.size, false));
    }
  }

  lemma ListJoins(two: seq<Block>, rest: seq<Block>)
    requires |two| == 2 && two[0].End() == two[1].addr
    ensures CoalesceList(two + rest)
         == CoalesceList([Block(two[0].addr, two[0].size + HEADER + two[1].size)] + rest)
  {
    assert (two + rest)[2..] == rest;
  }

  lemma ListSkips(b: Block, rest: seq<Block>)
    requires rest != [] ==> b.End() != rest[0].addr
    ensures CoalesceList([b] + rest) == [b] + CoalesceList(rest)
  {
    assert ([b] + rest)[1..] == rest;
  }

  /** After a live cell the next free block does not start where the row starts. */
  lemma LiveFirst(cells: seq<Cell>, lo: nat)
    requires cells != [] && cells[0].live
    ensures var bs := Blocks(cells, lo, false); bs != [] ==> bs[0].addr > lo
  {
    var bs := Blocks(cells, lo, false);
    BlocksInside(cells[1..], lo + HEADER + cells[0].size, false);
    assert bs == Blocks(cells[1..], lo + HEADER + cells[0].size, false);
    assert bs != [] ==> bs[0] in bs;
  }

  lemma CoalesceThree(c: Cell, x: Cell, y: Cell, b: seq<Cell>)
    requires !c.live && !x.live && !y.live
    ensures Coalesce([c, x, y] + b) == Coalesce([c, Cell(x.size + HEADER + y.size, false)] + b)
  {
    var cx := Cell(c.size + HEADER + x.size, false);
    assert Joined([c, x, y] + b) == [cx, y] + b;
    assert Joined([cx, y] + b) == Joined([c, Cell(x.size + HEADER + y.size, false)] + b);
  }

  /** Joining two neighbouring free cells beforehand makes no difference. */
  lemma {:induction false} CoalesceTwo(a: seq<Cell>, x: Cell, y: Cell, b: seq<Cell>)
    requires !x.live && !y.live
    ensures Coalesce(a + [x, y] + b) == Coalesce(a + [Cell(x.size + HEADER + y.size, false)] + b)
    decreases |a|
  {
    var xy := Cell(x.size + HEADER + y.size, false);
    var left, right := a + [x, y] + b, a + [xy] + b;
    if a == [] {
      assert Joined(left) == right;
    } else if |a| == 1 && !a[0].live {
      CoalesceThree(a[0], x, y, b);
      assert left == [a[0], x, y] + b && right == [a[0], xy] + b;
    } else if |a| > 1 && !a[0].live && !a[1].live {
      assert Joined(left) == Joined(a) + [x, y] + b && Joined(right) == Joined(a) + [xy] + b;
      CoalesceTwo(Joined(a), x, y, b);
    } else {
      assert left[1..] == a[1..] + [x, y] + b && right[1..] == a[1..] + [xy] + b;
      CoalesceTwo(a[1..], x, y, b);
    }
  }

  // ---- What every step keeps

  ghost predicate Good(h: Heap) {
    && Canonical(h.cells)
    && Aligned(h.cells)
    && h.cells != []
    && h.lo % WORD == 0
  }

  lemma ReplaceAligned(cells: seq<Cell>, i: nat, mid: seq<Cell>)
    requires i < |cells| && Aligned(cells) && Aligned(mid)
    ensures Aligned(Replace(cells, i, mid))
  {
    var after, shift := Replace(cells, i, mid), |mid| - 1;
    forall k: nat | k < |after| ensures WordSized(after, k) {
      if k < i {
        assert WordSized(cells, k);
      } else if k <= i + shift {
        assert WordSized(mid, k - i);
      } else {
        assert WordSized(cells, k - shift);
      }
    }
  }

  /** Putting a live cell, and perhaps a free one after it, in the place of a free cell. */
  lemma ReplaceCanonical(cells: seq<Cell>, i: nat, mid: seq<Cell>)
    requires i < |cells| && !cells[i].live && Canonical(cells)
    requires mid != [] && mid[0].live && Canonical(mid)
    ensures Canonical(Replace(cells, i, mid))
  {
    var after, shift := Replace(cells, i, mid), |mid| - 1;
    forall k: nat | k + 1 < |after| ensures Separated(after, k) {
      if k + 1 < i {
        assert Separated(cells, k);
      } else if k + 1 == i {
      } else if k < i + shift {
        assert Separated(mid, k - i);
      } else {
        assert Separated(cells, k - shift);
      }
    }
  }

  lemma RowKeeps(cells: seq<Cell>, n: nat)
    requires Canonical(cells) && Aligned(cells) && n % WORD == 0 && FirstFit(cells, n) < |cells|
    ensures var after := AfterMalloc(cells, n);
            Canonical(after) && Aligned(after) && after != [] && Span(after) == Span(cells)
  {
    var i := FirstFit(cells, n);
    var mid := Split(cells[i].size, n);
    assert WordSized(cells, i);
    assert Canonical(mid) && Aligned(mid);
    ReplaceCanonical(cells, i, mid);
    ReplaceAligned(cells, i, mid);
    SplitSpan(cells[i].size, n);
    BlocksAround(cells, 0, i, Split(cells[i].size, n), true);
  }

  lemma MallocKeeps(h: Heap, size: nat)
    requires Good(h)
    ensures Good(Malloc(h, size)) && Span(Malloc(h, size).cells) == Span(h.cells) && Malloc(h, size).lo == h.lo
  {
    if Pointer(h, size) != 0 {
      RowKeeps(h.cells, Rounded(size));
    }
  }

  lemma FreeKeeps(h: Heap, ptr: nat)
    requires Good(h)
    ensures Good(Free(h, ptr)) && Span(Free(h, ptr).cells) == Span(h.cells) && Free(h, ptr).lo == h.lo
  {
    var i := FindLive(h.cells, h.lo, ptr);
    if i < |h.cells| {
      var mid := [Cell(h.cells[i].size, false)];
      BlocksAround(h.cells, h.lo, i, mid, true);
      CoalesceShape(Replace(h.cells, i, mid));
      assert WordSized(h.cells, i);
      assert Aligned(mid);
      ReplaceAligned(h.cells, i, mid);
      CoalesceAligned(Replace(h.cells, i, mid));
    }
  }

  /** Every run keeps the arena tiled by aligned cells with no two free neighbours. */
  lemma {:induction false} RunKeeps(h: Heap, ops: seq<Op>)
    requires Good(h)
    ensures Good(Run(h, ops)) && Span(Run(h, ops).cells) == Span(h.cells) && Run(h, ops).lo == h.lo
    decreases |ops|
  {
    if ops != [] {
      match ops[0] {
        case Request(size) => MallocKeeps(h, size);
        case Release(ptr) => FreeKeeps(h, ptr);
      }
      RunKeeps(Step(h, ops[0]), ops[1..]);
    }
  }

  // ---- malloc hands out the lowest free extent that fits

  /** The `len` bytes from `x` lie in the arena and touch no live block. */
  ghost predicate FreeExtent(cells: seq<Cell>, lo: nat, x: nat, len: nat) {
    && lo <= x && x + len <= lo + Span(cells)
    && forall b :: b in Blocks(cells, lo, true) ==> b.End() <= x || x + len <= b.addr
  }

  /** No two free cells touch, so a free extent lies inside one of them. */
  lemma {:induction false} ExtentInOneCell(cells: seq<Cell>, lo: nat, x: nat, len: nat) returns (i: nat)
    requires Canonical(cells) && len > 0 && FreeExtent(cells, lo, x, len)
    ensures i < |cells| && !cells[i].live
    ensures AddrOf(cells, lo, i) <= x && x + len <= AddrOf(cells, lo, i) + HEADER + cells[i].size
  {
    var next := lo + HEADER + cells[0].size;
    if x < next {
      i := 0;
      ExtentInFirst(cells, lo, x, len);
    } else {
      assert cells == [cells[0]] + cells[1..];
      RowCons(cells[0], cells[1..], lo, true);
      TailKeeps(cells, 1);
      assert FreeExtent(cells[1..], next, x, len);
      var k := ExtentInOneCell(cells[1..], next, x, len);
      i := k + 1;
      PrefixCons(cells, lo, i, true);
    }
  }

  lemma ExtentInFirst(cells: seq<Cell>, lo: nat, x: nat, len: nat)
    requires Canonical(cells) && len > 0 && FreeExtent(cells, lo, x, len)
    requires cells != [] && x < lo + HEADER + cells[0].size
    ensures !cells[0].live && x + len <= lo + HEADER + cells[0].size
  {
    CellIsBlock(cells, lo, 0);
    if |cells| > 1 {
      CellIsBlock(cells, lo, 1);
      PrefixCons(cells, lo, 1, true);
      assert Separated(cells, 0);
    }
  }

  lemma {:induction false} AddrMonotone(cells: seq<Cell>, lo: nat, i: nat, j: nat)
    requires i < j <= |cells|
    ensures AddrOf(cells, lo, i) + HEADER + cells[i].size <= AddrOf(cells, lo, j)
  {
    assert cells[..j] == cells[..i] + ([cells[i]] + cells[i + 1..j]);
    SpanConcat(cells[..i], [cells[i]] + cells[i + 1..j]);
    RowCons(cells[i], cells[i + 1..j], 0, true);
  }

  /** A free cell is a free extent. */
  lemma CellIsExtent(cells: seq<Cell>, lo: nat, i: nat, len: nat)
    requires i < |cells| && !cells[i].live && len <= HEADER + cells[i].size
    ensures FreeExtent(cells, lo, AddrOf(cells, lo, i), len)
  {
    CellIsBlock(cells, lo, i);
    FreeApartFromLive(cells, lo);
    BlocksInside(cells, lo, false);
  }

  /** A header and the rounded size fit in the free bytes from `x`. */
  ghost predicate FitsAt(h: Heap, size: nat, x: nat) {
    FreeExtent(h.cells, h.lo, x, HEADER + Rounded(size))
  }

  /** malloc returns NULL exactly when nothing was asked for or no free extent holds a header and the
      rounded size; otherwise it takes the lowest such extent. */
  lemma MallocTakesLowestExtent(h: Heap, size: nat)
    requires Good(h)
    ensures Pointer(h, size) == 0 <==> size == 0 || forall x :: !FitsAt(h, size, x)
    ensures Pointer(h, size) != 0 ==>
              && Pointer(h, size) >= HEADER
              && FitsAt(h, size, Pointer(h, size) - HEADER)
              && forall x :: FitsAt(h, size, x) ==> Pointer(h, size) - HEADER <= x
  {
    var n := Rounded(size);
    var i := FirstFit(h.cells, n);
    forall x | FitsAt(h, size, x) ensures i < |h.cells| && AddrOf(h.cells, h.lo, i) <= x {
      var k := ExtentInOneCell(h.cells, h.lo, x, HEADER + n);
      if i < k {
        AddrMonotone(h.cells, h.lo, i, k);
      }
    }
    if i < |h.cells| {
      CellIsExtent(h.cells, h.lo, i, HEADER + n);
      assert FitsAt(h, size, AddrOf(h.cells, h.lo, i));
    }
  }

  // ---- What malloc and free do to the live blocks

  /** A successful malloc adds one live block of at least the rounded size, and less than a whole
      block more, at the pointer it returns. */
  lemma MallocAddsBlock(h: Heap, size: nat) returns (k: nat, b: Block)
    requires Pointer(h, size) != 0
    ensures var live := Blocks(h.cells, h.lo, true);
            k <= |live| && Blocks(Malloc(h, size).cells, h.lo, true) == live[..k] + [b] + live[k..]
    ensures b.addr + HEADER == Pointer(h, size)
    ensures Rounded(size) <= b.size < Rounded(size) + MIN_BLOCK
    ensures FirstFit(h.cells, Rounded(size)) < |h.cells|
    ensures b.size == Split(h.cells[FirstFit(h.cells, Rounded(size))].size, Rounded(size))[0].size
  {
    var n := Rounded(size);
    var i := FirstFit(h.cells, n);
    var at, mid := AddrOf(h.cells, h.lo, i), Split(h.cells[i].size, n);
    SplitSpan(h.cells[i].size, n);
    var before, tail := Around(h.cells, h.lo, i, mid, true);
    b := Block(at, mid[0].size);
    k := |before|;
    assert Blocks(mid, at, true) == [b] by {
      if |mid| == 2 { RowCons(mid[0], [mid[1]], at, true); }
    }
  }

  /** The block malloc hands out is as long as was asked for, except when rounding wraps round. */
  lemma RequestHonoured(h: Heap, size: nat)
    requires size < MODULUS && Pointer(h, size) != 0
    ensures exists b :: b in Blocks(Malloc(h, size).cells, h.lo, true) && b.addr + HEADER == Pointer(h, size)
              && (b.size >= size <==> size <= MODULUS - WORD)
  {
    var k, b := MallocAddsBlock(h, size);
    assert b in Blocks(Malloc(h, size).cells, h.lo, true);
  }

  // ---- malloc in numbers

  /** `n` is the least multiple of a word from `size` on, in 64-bit arithmetic. */
  predicate RoundsTo(size: nat, n: nat) {
    n < 0x1_0000_0000_0000_0000 && n % 8 == 0 && (n - size) % 0x1_0000_0000_0000_0000 < 8
  }

  lemma RoundedIs(size: nat, n: nat)
    requires size < MODULUS && RoundsTo(size, n)
    ensures Rounded(size) == n
  {
    if size > MODULUS - 8 {
      assert n == 0;
    } else {
      assert size <= n < size + 8;
    }
  }

  /** `n` bytes and a header of 24 are free from `x` on. */
  ghost predicate FreeFor(h: Heap, n: nat, x: nat) { FreeExtent(h.cells, h.lo, x, 24 + n) }

  /** For a size that rounds to `n`: NULL exactly if no free extent of 24 + n bytes exists; otherwise the block
      is put at the lowest such extent, of exactly `n` bytes if its cell has at least n + 124, whose rest stays
      free, and else of the whole cell. */
  lemma MallocExactly(h: Heap, size: nat, n: nat) returns (i: nat)
    requires Good(h) && 0 < size < MODULUS && RoundsTo(size, n)
    ensures Pointer(h, size) == 0 <==> forall x: nat :: !FreeFor(h, n, x)
    ensures Pointer(h, size) == 0 ==> Malloc(h, size) == h
    ensures Pointer(h, size) != 0 ==>
              && Pointer(h, size) >= 24 && FreeFor(h, n, Pointer(h, size) - 24)
              && forall x: nat :: FreeFor(h, n, x) ==> Pointer(h, size) - 24 <= x
    ensures Pointer(h, size) != 0 ==>
              && i < |h.cells| && !h.cells[i].live && n <= h.cells[i].size
              && AddrOf(h.cells, h.lo, i) + 24 == Pointer(h, size)
              && Malloc(h, size).lo == h.lo
              && Malloc(h, size).cells ==
                 h.cells[..i]
                 + (if h.cells[i].size >= n + 124 then [Cell(n, true), Cell(h.cells[i].size - n - 24, false)]
                    else [Cell(h.cells[i].size, true)])
                 + h.cells[i + 1..]
  {
    RoundedIs(size, n);
    MallocTakesLowestExtent(h, size);
    forall x: nat | FreeFor(h, n, x) ensures Pointer(h, size) != 0 && Pointer(h, size) - 24 <= x {
      assert FitsAt(h, size, x);
    }
    if Pointer(h, size) != 0 {
      assert FreeFor(h, n, Pointer(h, size) - 24);
    }
    i := FirstFit(h.cells, n);
  }

  lemma {:induction false} FindLiveMeaning(cells: seq<Cell>, lo: nat, p: nat)
    ensures FindLive(cells, lo, p) < |cells| ==> AddrOf(cells, lo, FindLive(cells, lo, p)) + HEADER == p
    ensures FindLive(cells, lo, p) == |cells| ==> forall b :: b in Blocks(cells, lo, true) ==> b.addr + HEADER != p
  {
    if cells != [] {
      var next := lo + HEADER + cells[0].size;
      if !(cells[0].live && lo + HEADER == p) {
        FindLiveMeaning(cells[1..], next, p);
        PrefixCons(cells, lo, FindLive(cells, lo, p), true);
      }
    }
  }

  lemma FindLiveAt(cells: seq<Cell>, lo: nat, i: nat)
    requires i < |cells| && cells[i].live
    ensures FindLive(cells, lo, AddrOf(cells, lo, i) + HEADER) == i
  {
    var p := AddrOf(cells, lo, i) + HEADER;
    var k := FindLive(cells, lo, p);
    FindLiveMeaning(cells, lo, p);
    CellIsBlock(cells, lo, i);
    if k < i {
      AddrMonotone(cells, lo, k, i);
    } else if i < k < |cells| {
      AddrMonotone(cells, lo, i, k);
    }
  }

  /** free removes the live block at the pointer it is given, and does nothing if there is none. */
  lemma FreeRemovesBlock(h: Heap, ptr: nat) returns (k: nat)
    ensures var live := Blocks(h.cells, h.lo, true);
            if k < |live| then
              && live[k].addr + HEADER == ptr
              && Blocks(Free(h, ptr).cells, h.lo, true) == live[..k] + live[k + 1..]
              && FreeMoves(h, ptr) == -(HEADER + live[k].size)
            else
              Free(h, ptr) == h && FreeMoves(h, ptr) == 0 && forall b :: b in live ==> b.addr + HEADER != ptr
  {
    var live := Blocks(h.cells, h.lo, true);
    var i := FindLive(h.cells, h.lo, ptr);
    FindLiveMeaning(h.cells, h.lo, ptr);
    if i == |h.cells| {
      k := |live|;
    } else {
      var mid := [Cell(h.cells[i].size, false)];
      var before, tail := Around(h.cells, h.lo, i, mid, true);
      CoalesceKeepsLive(Replace(h.cells, i, mid), h.lo);
      k := |before|;
      assert Blocks(mid, AddrOf(h.cells, h.lo, i), true) == [];
    }
  }

  /** Making cell `i` free again, and joining it with its neighbours, after it was carved out of a
      free cell. */
  lemma JoinCarved(cells: seq<Cell>, i: nat, n: nat)
    requires Canonical(cells) && i < |cells| && !cells[i].live && n <= cells[i].size
    ensures var after := Replace(cells, i, Split(cells[i].size, n));
            Coalesce(Replace(after, i, [Cell(after[i].size, false)])) == cells
  {
    var mid := Split(cells[i].size, n);
    var after := Replace(cells, i, mid);
    var a, b := cells[..i], cells[i + 1..];
    assert after[i] == mid[0] && after[..i] == a;
    assert cells == a + [cells[i]] + b;
    CoalesceCanonical(cells);
    if |mid| == 2 {
      assert after[i + 1..] == [mid[1]] + b;
      assert Replace(after, i, [Cell(n, false)]) == a + [Cell(n, false), mid[1]] + b;
      CoalesceTwo(a, Cell(n, false), mid[1], b);
    } else {
      assert after[i + 1..] == b;
      assert Replace(after, i, [Cell(cells[i].size, false)]) == cells;
    }
  }

  lemma CarveAndJoin(cells: seq<Cell>, lo: nat, i: nat, n: nat)
    requires Canonical(cells) && i < |cells| && !cells[i].live && n <= cells[i].size
    ensures var after := Replace(cells, i, Split(cells[i].size, n));
            && AfterFree(after, lo, AddrOf(cells, lo, i) + HEADER) == cells
            && FindLive(after, lo, AddrOf(cells, lo, i) + HEADER) == i && after[i] == Split(cells[i].size, n)[0]
  {
    var after := Replace(cells, i, Split(cells[i].size, n));
    assert after[i] == Split(cells[i].size, n)[0] && after[..i] == cells[..i];
    FindLiveAt(after, lo, i);
    JoinCarved(cells, i, n);
  }

  /** Freeing what malloc just returned puts the arena back; the counters come back too, unless the
      whole of a free block was handed out, when they stay 24 bytes apart. */
  lemma FreeUndoesMalloc(h: Heap, size: nat)
    requires Good(h) && Pointer(h, size) != 0
    ensures var i := FirstFit(h.cells, Rounded(size));
            i < |h.cells| && Free(Malloc(h, size), Pointer(h, size)) ==
              if h.cells[i].size >= Rounded(size) + MIN_BLOCK then h else h.(moved := h.moved - HEADER)
  {
    CarveAndJoin(h.cells, h.lo, FirstFit(h.cells, Rounded(size)), Rounded(size));
  }

  // ---- Freeing everything

  lemma {:induction false} NoLiveOneCell(cells: seq<Cell>, lo: nat)
    requires Canonical(cells) && cells != [] && Blocks(cells, lo, true) == []
    ensures cells == [Cell(Span(cells) - HEADER, false)]
  {
    CellIsBlock(cells, lo, 0);
    if |cells| > 1 {
      assert Separated(cells, 0);
      CellIsBlock(cells, lo, 1);
    }
  }

  ghost predicate AllReleased(bs: seq<Block>, ops: seq<Op>) {
    forall b :: b in bs ==> Release(b.addr + HEADER) in ops
  }

  lemma FirstIsMember(bs: seq<Block>)
    ensures bs != [] ==> bs[0] in bs
  {
  }

  lemma ReleaseOne(live: seq<Block>, k: nat, ops: seq<Op>)
    requires Increasing(live) && k < |live| && ops != [] && ops[0] == Release(live[k].addr + HEADER)
    requires AllReleased(live, ops)
    ensures AllReleased(live[..k] + live[k + 1..], ops[1..])
  {
    var rest := live[..k] + live[k + 1..];
    forall b | b in rest ensures Release(b.addr + HEADER) in ops[1..] {
      var j :| 0 <= j < |rest| && rest[j] == b;
      assert b == live[if j < k then j else j + 1];
      assert b in live;
    }
  }

  lemma ReleaseStep(h: Heap, ops: seq<Op>)
    requires Good(h) && ops != [] && ops[0].Release?
    requires AllReleased(Blocks(h.cells, h.lo, true), ops)
    ensures var next := Step(h, ops[0]);
            && Good(next) && Span(next.cells) == Span(h.cells)
            && AllReleased(Blocks(next.cells, next.lo, true), ops[1..])
  {
    var live := Blocks(h.cells, h.lo, true);
    FreeKeeps(h, ops[0].ptr);
    var k := FreeRemovesBlock(h, ops[0].ptr);
    if k < |live| {
      BlocksIncreasing(h.cells, h.lo, true);
      ReleaseOne(live, k, ops);
    }
  }

  /** Releasing every live block, in any order and with any other releases among them, leaves the
      single block the arena started with. */
  lemma {:induction false} ReleasingAllRestores(h: Heap, ops: seq<Op>)
    requires Good(h)
    requires forall op :: op in ops ==> op.Release?
    requires AllReleased(Blocks(h.cells, h.lo, true), ops)
    ensures Run(h, ops).cells == [Cell(Span(h.cells) - HEADER, false)]
    decreases |ops|
  {
    if ops == [] {
      FirstIsMember(Blocks(h.cells, h.lo, true));
      NoLiveOneCell(h.cells, h.lo);
    } else {
      assert ops[0] in ops;
      ReleaseStep(h, ops);
      ReleasingAllRestores(Step(h, ops[0]), ops[1..]);
    }
  }

  // ---- The counters over a run

  /** The bytes of a list of blocks, headers included. */
  function Bytes(bs: seq<Block>): nat {
    if bs == [] then 0 else HEADER + bs[0].size + Bytes(bs[1..])
  }

  lemma {:induction false} BytesConcat(a: seq<Block>, b: seq<Block>)
    ensures Bytes(a + b) == Bytes(a) + Bytes(b)
  {
    if a == [] {
      assert a + b == b;
    } else {
      assert (a + b)[1..] == a[1..] + b;
      BytesConcat(a[1..], b);
    }
  }

  lemma BytesAround(a: seq<Block>, x: Block, b: seq<Block>)
    ensures Bytes(a + [x] + b) == Bytes(a + b) + HEADER + x.size
  {
    BytesConcat(a + [x], b);
    BytesConcat(a, [x]);
    BytesConcat(a, b);
  }

  /** 1 when the step is a malloc that hands out the whole of a free block, else 0. */
  function Whole(h: Heap, op: Op): nat {
    if op.Request? && Pointer(h, op.size) != 0
       && h.cells[FirstFit(h.cells, Rounded(op.size))].size < Rounded(op.size) + MIN_BLOCK then 1 else 0
  }

  function Wholes(h: Heap, ops: seq<Op>): nat
    decreases |ops|
  {
    if ops == [] then 0 else Whole(h, ops[0]) + Wholes(Step(h, ops[0]), ops[1..])
  }

  function LiveBytes(h: Heap): nat { Bytes(Blocks(h.cells, h.lo, true)) }

  function Moves(h: Heap, op: Op): int {
    match op
    case Request(size) => MallocMoves(h, size)
    case Release(ptr) => FreeMoves(h, ptr)
  }

  lemma MovesAreLiveBytes(h: Heap, op: Op)
    ensures Moves(h, op) == LiveBytes(Step(h, op)) - LiveBytes(h) - HEADER * Whole(h, op)
  {
    var live := Blocks(h.cells, h.lo, true);
    match op {
      case Request(size) =>
        if Pointer(h, size) != 0 {
          var k, b := MallocAddsBlock(h, size);
          BytesAround(live[..k], b, live[k..]);
          assert live[..k] + live[k..] == live;
        }
      case Release(ptr) =>
        var k := FreeRemovesBlock(h, ptr);
        if k < |live| {
          BytesAround(live[..k], live[k], live[k + 1..]);
          assert live[..k] + [live[k]] + live[k + 1..] == live;
        }
    }
  }

  lemma {:induction false} RunMoves(h: Heap, ops: seq<Op>)
    ensures Run(h, ops).moved - h.moved == LiveBytes(Run(h, ops)) - LiveBytes(h) - HEADER * Wholes(h, ops)
    decreases |ops|
  {
    if ops != [] {
      MovesAreLiveBytes(h, ops[0]);
      RunMoves(Step(h, ops[0]), ops[1..]);
    }
  }

  lemma MovedExactly(lo: nat, size: nat, ops: seq<Op>)
    requires HEADER <= size && lo % WORD == 0 && size % WORD == 0
    ensures var r := Run(Initial(lo, size), ops);
            r.moved == LiveBytes(r) - HEADER * Wholes(Initial(lo, size), ops) && Span(r.cells) == size
  {
    var h := Initial(lo, size);
    assert h.cells[1..] == [];
    assert Blocks(h.cells, lo, true) == [];
    RunMoves(h, ops);
    RunKeeps(h, ops);
  }

  lemma CountersAddUp(h: Heap)
    ensures Wrap(Allocated(h) + Unallocated(h)) == Total(h)
  {
    WrapSum(HEADER + h.moved, Span(h.cells) - HEADER - 16 - h.moved);
  }

  /** From the first block on: the two counters always add up to the total, and `allocated` is the
      live blocks with their headers, plus one header, less one header for every malloc that handed
      out a whole free block. */
  lemma CountersOverRuns(lo: nat, size: nat, ops: seq<Op>)
    requires HEADER <= size && lo % WORD == 0 && size % WORD == 0
    ensures var r := Run(Initial(lo, size), ops);
            && Wrap(Allocated(r) + Unallocated(r)) == Total(r) == Wrap(size - 16)
            && Allocated(r) == Wrap(LiveBytes(r) + HEADER - HEADER * Wholes(Initial(lo, size), ops))
  {
    MovedExactly(lo, size, ops);
    CountersAddUp(Run(Initial(lo, size), ops));
  }

  lemma WrapStep(x: int, d: int)
    ensures Wrap(Wrap(x) + d) == Wrap(x + d)
  {
  }

  lemma WrapSum(x: int, y: int)
    ensures Wrap(Wrap(x) + Wrap(y)) == Wrap(x + y)
  {
  }

  lemma WrapInjective(x: nat, d: nat)
    requires d < MODULUS
    ensures Wrap(x - d) == Wrap(x) <==> d == 0
  {
  }

  /** So `allocated` is the live blocks with their headers and the first header exactly as long as no
      malloc has handed out a whole free block. */
  lemma CounterExactWhenSplit(lo: nat, size: nat, ops: seq<Op>)
    requires HEADER <= size && lo % WORD == 0 && size % WORD == 0
    requires HEADER * Wholes(Initial(lo, size), ops) < MODULUS
    ensures var r := Run(Initial(lo, size), ops);
            Allocated(r) == Wrap(LiveBytes(r) + HEADER) <==> Wholes(Initial(lo, size), ops) == 0
  {
    CountersOverRuns(lo, size, ops);
    WrapInjective(LiveBytes(Run(Initial(lo, size), ops)) + HEADER, HEADER * Wholes(Initial(lo, size), ops));
  }

  /** It happens: in a region of 48 bytes the first malloc, of 24, gets the whole of the only block. */
  lemma WholeIsReached(lo: nat)
    requires lo % WORD == 0
    ensures Wholes(Initial(lo, 48), [Request(24)]) == 1
    ensures var r := Run(Initial(lo, 48), [Request(24)]); Allocated(r) == LiveBytes(r) == 48
  {
    var h := Initial(lo, 48);
    var ops := [Request(24)];
    assert FirstFit(h.cells, 24) == 0 && ops[1..] == [];
    assert Pointer(h, 24) == lo + HEADER;
    MovedExactly(lo, 48, ops);
  }
}
