/** The list allocator's arena as a value: a row of cells laid end to end, each a 24-byte header
    followed by its payload.  A cell carries no address: where it starts is fixed by the cells
    before it, so a row of cells covers its interval without gap or overlap. */
module HeapCells {
  import opened Arithmetic

  const HEADER := 24        // sizeof(MemBlock)
  const MIN_BLOCK := 124    // MIN_BLOCK_SIZE: a header and 100 bytes
  const WORD := 8           // sizeof(size_t)

  datatype Cell = Cell(size: nat, live: bool)

  /** A block of one of the two lists: the address of its header and the length of its payload. */
  datatype Block = Block(addr: nat, size: nat) {
    function End(): nat { addr + HEADER + size }
  }

  function Span(cells: seq<Cell>): nat {
    if cells == [] then 0 else HEADER + cells[0].size + Span(cells[1..])
  }

  /** The blocks in state `live`, in address order, of a row of cells that starts at `lo`. */
  function Blocks(cells: seq<Cell>, lo: nat, live: bool): seq<Block> {
    if cells == [] then []
    else
      (if cells[0].live == live then [Block(lo, cells[0].size)] else [])
      + Blocks(cells[1..], lo + HEADER + cells[0].size, live)
  }

  /** The address of the header of cell `i`. */
  function AddrOf(cells: seq<Cell>, lo: nat, i: nat): nat
    requires i <= |cells|
  {
    lo + Span(cells[..i])
  }

  /** What malloc makes of the size it is asked for: rounded up to a word, in 64-bit arithmetic. */
  function Rounded(size: nat): nat {
    if size % WORD != 0 then (size + WORD - size % WORD) % MODULUS else size
  }

  /** The index of the first free cell of at least `n` bytes, or the number of cells. */
  function FirstFit(cells: seq<Cell>, n: nat): (i: nat)
    ensures i <= |cells|
    ensures i < |cells| ==> !cells[i].live && cells[i].size >= n
    ensures forall k :: 0 <= k < i ==> cells[k].live || cells[k].size < n
  {
    if cells == [] then 0
    else if !cells[0].live && cells[0].size >= n then 0
    else 1 + FirstFit(cells[1..], n)
  }

  /** A free cell of `size` bytes after `n` of them are handed out. */
  function Split(size: nat, n: nat): seq<Cell>
    requires n <= size
  {
    if size >= n + MIN_BLOCK then [Cell(n, true), Cell(size - n - HEADER, false)] else [Cell(size, true)]
  }

  function Replace(cells: seq<Cell>, i: nat, mid: seq<Cell>): seq<Cell>
    requires i < |cells|
  {
    cells[..i] + mid + cells[i + 1..]
  }

  function AfterMalloc(cells: seq<Cell>, n: nat): seq<Cell> {
    var i := FirstFit(cells, n);
    if i == |cells| then cells else Replace(cells, i, Split(cells[i].size, n))
  }

  /** The pointer malloc returns for a rounded size `n`, 0 standing for NULL. */
  function MallocPointer(cells: seq<Cell>, lo: nat, n: nat): nat {
    var i := FirstFit(cells, n);
    if i == |cells| then 0 else AddrOf(cells, lo, i) + HEADER
  }

  /** Every two neighbouring free cells become one. */
  function Coalesce(cells: seq<Cell>): seq<Cell>
    decreases |cells|
  {
    if |cells| < 2 then cells
    else if !cells[0].live && !cells[1].live then
      Coalesce([Cell(cells[0].size + HEADER + cells[1].size, false)] + cells[2..])
    else [cells[0]] + Coalesce(cells[1..])
  }

  /** The index of the live cell whose payload starts at `p`, or the number of cells. */
  function FindLive(cells: seq<Cell>, lo: nat, p: nat): (i: nat)
    ensures i <= |cells|
    ensures i < |cells| ==> cells[i].live
  {
    if cells == [] then 0
    else if cells[0].live && lo + HEADER == p then 0
    else 1 + FindLive(cells[1..], lo + HEADER + cells[0].size, p)
  }

  function AfterFree(cells: seq<Cell>, lo: nat, p: nat): seq<Cell> {
    var i := FindLive(cells, lo, p);
    if i == |cells| then cells else Coalesce(Replace(cells, i, [Cell(cells[i].size, false)]))
  }

  /** Cells `i` and `i + 1` are not both free. */
  ghost predicate Separated(cells: seq<Cell>, i: nat)
    requires i + 1 < |cells|
  {
    cells[i].live || cells[i + 1].live
  }

  /** No two neighbouring cells are both free. */
  ghost predicate Canonical(cells: seq<Cell>) {
    forall i: nat :: i + 1 < |cells| ==> Separated(cells, i)
  }

  ghost predicate WordSized(cells: seq<Cell>, i: nat)
    requires i < |cells|
  {
    cells[i].size % WORD == 0
  }

  ghost predicate Aligned(cells: seq<Cell>) {
    forall i: nat :: i < |cells| ==> WordSized(cells, i)
  }

  // ---- Rows of cells and their blocks

  lemma RowCons(c: Cell, rest: seq<Cell>, lo: nat, live: bool)
    ensures Span([c] + rest) == HEADER + c.size + Span(rest)
    ensures Blocks([c] + rest, lo, live)
         == if c.live == live then [Block(lo, c.size)] + Blocks(rest, lo + HEADER + c.size, live)
            else Blocks(rest, lo + HEADER + c.size, live)
  {
    assert ([c] + rest)[1..] == rest;
  }

  lemma SplitSpan(size: nat, n: nat)
    requires n <= size
    ensures Span(Split(size, n)) == HEADER + size
  {
    if size >= n + MIN_BLOCK {
      RowCons(Cell(n, true), [Cell(size - n - HEADER, false)], 0, true);
    }
  }

  lemma {:induction false} SpanConcat(a: seq<Cell>, b: seq<Cell>)
    ensures Span(a + b) == Span(a) + Span(b)
  {
    if a == [] {
      assert a + b == b;
    } else {
      assert (a + b)[1..] == a[1..] + b;
      SpanConcat(a[1..], b);
    }
  }

  lemma {:induction false} BlocksConcat(a: seq<Cell>, b: seq<Cell>, lo: nat, live: bool)
    ensures Blocks(a + b, lo, live) == Blocks(a, lo, live) + Blocks(b, lo + Span(a), live)
  {
    if a == [] {
      assert a + b == b;
    } else {
      assert (a + b)[1..] == a[1..] + b;
      BlocksConcat(a[1..], b, lo + HEADER + a[0].size, live);
    }
  }

  /** Where the cells before `i`, cell `i` and the cells after it put their blocks. */
  lemma BlocksAround(cells: seq<Cell>, lo: nat, i: nat, mid: seq<Cell>, live: bool)
    requires i < |cells|
    requires Span(mid) == HEADER + cells[i].size
    ensures Blocks(Replace(cells, i, mid), lo, live)
         == Blocks(cells[..i], lo, live) + Blocks(mid, AddrOf(cells, lo, i), live)
            + Blocks(cells[i + 1..], AddrOf(cells, lo, i) + HEADER + cells[i].size, live)
    ensures Span(Replace(cells, i, mid)) == Span(cells)
  {
    BlocksConcat(cells[..i] + mid, cells[i + 1..], lo, live);
    BlocksConcat(cells[..i], mid, lo, live);
    SpanConcat(cells[..i], mid);
    SpanConcat(cells[..i] + mid, cells[i + 1..]);
    SpanConcat([cells[i]], cells[i + 1..]);
    SpanConcat(cells[..i], [cells[i]] + cells[i + 1..]);
    assert cells == cells[..i] + ([cells[i]] + cells[i + 1..]);
  }

  lemma BlocksSplitAt(cells: seq<Cell>, lo: nat, i: nat, live: bool)
    requires i < |cells|
    ensures Blocks(cells, lo, live)
         == Blocks(cells[..i], lo, live)
            + (if cells[i].live == live then [Block(AddrOf(cells, lo, i), cells[i].size)] else [])
            + Blocks(cells[i + 1..], AddrOf(cells, lo, i) + HEADER + cells[i].size, live)
  {
    assert Replace(cells, i, [cells[i]]) == cells;
    BlocksAround(cells, lo, i, [cells[i]], live);
    assert Blocks([cells[i]], AddrOf(cells, lo, i), live)
        == if cells[i].live == live then [Block(AddrOf(cells, lo, i), cells[i].size)] else [];
  }

  /** Putting `mid` in the place of cell `i` leaves the blocks before it and after it as they are. */
  lemma Around(cells: seq<Cell>, lo: nat, i: nat, mid: seq<Cell>, live: bool)
      returns (before: seq<Block>, tail: seq<Block>)
    requires i < |cells| && Span(mid) == HEADER + cells[i].size
    ensures cells[i].live == live ==>
              Blocks(cells, lo, live) == before + [Block(AddrOf(cells, lo, i), cells[i].size)] + tail
    ensures cells[i].live != live ==> Blocks(cells, lo, live) == before + tail
    ensures Blocks(Replace(cells, i, mid), lo, live) == before + Blocks(mid, AddrOf(cells, lo, i), live) + tail
    ensures |before| == |Blocks(cells[..i], lo, live)|
  {
    before := Blocks(cells[..i], lo, live);
    tail := Blocks(cells[i + 1..], AddrOf(cells, lo, i) + HEADER + cells[i].size, live);
    BlocksSplitAt(cells, lo, i, live);
    BlocksAround(cells, lo, i, mid, live);
  }

  /** Blocks of either kind lie inside the interval of their row. */
  lemma {:induction false} BlocksInside(cells: seq<Cell>, lo: nat, live: bool)
    ensures forall b :: b in Blocks(cells, lo, live) ==> lo <= b.addr && b.End() <= lo + Span(cells)
  {
    if cells != [] {
      BlocksInside(cells[1..], lo + HEADER + cells[0].size, live);
    }
  }

  ghost predicate Increasing(bs: seq<Block>) {
    forall i, j :: 0 <= i < j < |bs| ==> bs[i].End() <= bs[j].addr
  }

  lemma {:induction false} BlocksIncreasing(cells: seq<Cell>, lo: nat, live: bool)
    ensures Increasing(Blocks(cells, lo, live))
  {
    if cells != [] {
      var next := lo + HEADER + cells[0].size;
      BlocksIncreasing(cells[1..], next, live);
      BlocksInside(cells[1..], next, live);
      var bs, rest := Blocks(cells, lo, live), Blocks(cells[1..], next, live);
      if cells[0].live == live {
        forall i, j | 0 <= i < j < |bs| ensures bs[i].End() <= bs[j].addr {
          assert rest[j - 1] in rest;
          if i > 0 {
            assert rest[i - 1].End() <= rest[j - 1].addr;
          }
        }
      }
    }
  }

  lemma {:induction false} FreeApartFromLive(cells: seq<Cell>, lo: nat)
    ensures forall b, c :: b in Blocks(cells, lo, true) && c in Blocks(cells, lo, false)
              ==> b.End() <= c.addr || c.End() <= b.addr
  {
    if cells != [] {
      var next := lo + HEADER + cells[0].size;
      FreeApartFromLive(cells[1..], next);
      BlocksInside(cells[1..], next, true);
      BlocksInside(cells[1..], next, false);
    }
  }

  lemma PrefixCons(cells: seq<Cell>, lo: nat, i: nat, live: bool)
    requires 0 < i <= |cells|
    ensures AddrOf(cells, lo, i) == AddrOf(cells[1..], lo + HEADER + cells[0].size, i - 1)
    ensures |Blocks(cells[..i], lo, live)|
         == |Blocks(cells[1..][..i - 1], lo + HEADER + cells[0].size, live)| + if cells[0].live == live then 1 else 0
  {
    assert cells[..i] == [cells[0]] + cells[1..][..i - 1];
    RowCons(cells[0], cells[1..][..i - 1], lo, live);
  }

  /** Block `j` of the blocks in state `live` is one of the cells. */
  lemma {:induction false} Locate(cells: seq<Cell>, lo: nat, live: bool, j: nat) returns (i: nat)
    requires j < |Blocks(cells, lo, live)|
    ensures i < |cells| && cells[i].live == live
    ensures Blocks(cells, lo, live)[j] == Block(AddrOf(cells, lo, i), cells[i].size)
    ensures |Blocks(cells[..i], lo, live)| == j
  {
    if cells[0].live == live && j == 0 {
      i := 0;
    } else {
      var k := Locate(cells[1..], lo + HEADER + cells[0].size, live, if cells[0].live == live then j - 1 else j);
      i := k + 1;
      PrefixCons(cells, lo, i, live);
    }
  }

  /** Cell `i` is one of the blocks in its own state. */
  lemma CellIsBlock(cells: seq<Cell>, lo: nat, i: nat)
    requires i < |cells|
    ensures Block(AddrOf(cells, lo, i), cells[i].size) in Blocks(cells, lo, cells[i].live)
  {
    BlocksSplitAt(cells, lo, i, cells[i].live);
    var before := Blocks(cells[..i], lo, cells[i].live);
    assert Blocks(cells, lo, cells[i].live)[|before|] == Block(AddrOf(cells, lo, i), cells[i].size);
  }

  /** Block `b` is on one of the two lists and byte `x` is in its header or payload. */
  ghost predicate Holds(cells: seq<Cell>, lo: nat, b: Block, x: nat) {
    (b in Blocks(cells, lo, true) || b in Blocks(cells, lo, false)) && b.addr <= x < b.End()
  }

  lemma HoldsInTail(cells: seq<Cell>, lo: nat, b: Block, x: nat)
    requires cells != []
    ensures Holds(cells, lo, b, x) <==>
              || (b == Block(lo, cells[0].size) && lo <= x < lo + HEADER + cells[0].size)
              || Holds(cells[1..], lo + HEADER + cells[0].size, b, x)
  {
    var next := lo + HEADER + cells[0].size;
    assert Blocks(cells, lo, cells[0].live) == [Block(lo, cells[0].size)] + Blocks(cells[1..], next, cells[0].live);
    assert Blocks(cells, lo, !cells[0].live) == Blocks(cells[1..], next, !cells[0].live);
  }

  /** The cells tile the arena: every byte of it belongs to exactly one block of the two lists. */
  lemma {:induction false} TilesArena(cells: seq<Cell>, lo: nat, x: nat) returns (owner: Block)
    requires lo <= x < lo + Span(cells)
    ensures forall b :: Holds(cells, lo, b, x) <==> b == owner
  {
    var next := lo + HEADER + cells[0].size;
    forall b { HoldsInTail(cells, lo, b, x); }
    if x < next {
      owner := Block(lo, cells[0].size);
      BlocksInside(cells[1..], next, true);
      BlocksInside(cells[1..], next, false);
    } else {
      owner := TilesArena(cells[1..], next, x);
    }
  }
}
