/** What malloc and free do to the buddy allocator's book, over whole runs. */
module BuddyLaws {
  import opened Arithmetic
  import opened BuddyBook

  // ---- Levels

  function Log2(n: nat): nat {
    if n < 2 then 0 else 1 + Log2(n / 2)
  }

  /** The level malloc works at. */
  function LevelFor(size: nat): nat {
    var l := Log2(size / BLOCK_SIZE);
    if SizeOf(l) < size then l + 1 else l
  }

  lemma {:induction false} Log2Bounds(n: nat)
    ensures Log2(n) == 0 || Pow2(Log2(n)) <= n
    ensures n < Pow2(Log2(n) + 1)
  {
    if n >= 2 {
      Log2Bounds(n / 2);
    }
  }

  /** malloc's level is the least whose blocks are as long as the request. */
  lemma LevelIsLeast(size: nat)
    ensures SizeOf(LevelFor(size)) >= size
    ensures forall l: nat :: l < LevelFor(size) ==> SizeOf(l) < size
  {
    var n := size / BLOCK_SIZE;
    var k := Log2(n);
    Log2Bounds(n);
    assert size < (n + 1) * BLOCK_SIZE;
    forall l: nat | l < LevelFor(size) ensures SizeOf(l) < size {
      if l < k {
        Pow2Monotone(l + 1, k);
      } else {
        assert l == k;
      }
    }
  }

  /** In bytes: a request of more than half of 512 * 2^l and at most that is of level `l`. */
  lemma LevelInBytes(size: nat, l: nat)
    requires size <= 512 * Pow2(l) && (l == 0 || 512 * Pow2(l - 1) < size)
    ensures LevelFor(size) == l && SizeOf(LevelFor(size)) == 512 * Pow2(l)
  {
    LevelIsLeast(size);
    assert SizeOf(l) == 512 * Pow2(l) && LevelFor(size) <= l;
    forall k: nat | k < l ensures SizeOf(k) < size {
      Pow2Monotone(k, l - 1);
    }
  }

  /** The least row from `l` on, below `top`, that is not empty, or `top`. */
  function FirstRow(rows: seq<seq<nat>>, l: nat, top: nat): (m: nat)
    requires l <= top <= |rows|
    ensures l <= m <= top
    ensures forall k :: l <= k < m ==> rows[k] == []
    ensures m < top ==> rows[m] != []
    decreases top - l
  {
    if l == top then top else if rows[l] != [] then l else FirstRow(rows, l + 1, top)
  }

  // ---- malloc and free

  /** Splits from row `m` down until row `l` has blocks. */
  ghost function Cascade(s: Book, m: nat, l: nat): (t: Book)
    requires Valid(s) && l <= m < TREE_HEIGHT && s.rows[m] != []
    ensures Valid(t) && t.rows[l] != [] && |t.owner| == |s.owner|
    decreases m
  {
    if m == l then s
    else
      HalveKeeps(s, m);
      Cascade(Halve(s, m), m - 1, l)
  }

  ghost predicate CanServe(s: Book, l: nat) {
    exists m :: l <= m < |s.rows| && s.rows[m] != []
  }

  ghost function Malloc(s: Book, size: nat): (t: Book)
    requires Valid(s) && LevelFor(size) < TREE_HEIGHT
    ensures Valid(t) && |t.owner| == |s.owner|
  {
    var l := LevelFor(size);
    var m := FirstRow(s.rows, l, TREE_HEIGHT);
    if m == TREE_HEIGHT then s
    else
      var t := Cascade(s, m, l);
      PopKeeps(t, l);
      Pop(t, l)
  }

  /** The block malloc hands out, if it does. */
  ghost function Chosen(s: Book, size: nat): (b: nat)
    requires Valid(s) && LevelFor(size) < TREE_HEIGHT && CanServe(s, LevelFor(size))
  {
    Cascade(s, FirstRow(s.rows, LevelFor(size), TREE_HEIGHT), LevelFor(size)).rows[LevelFor(size)][0]
  }

  ghost function Free(s: Book, b: nat): (t: Book)
    requires Valid(s)
    ensures Valid(t) && |t.owner| == |s.owner|
  {
    if b < |s.owner| && s.size[b] != 0 then
      PushKeeps(s, b);
      Push(s, b)
    else s
  }

  datatype Op = Request(size: nat) | Release(block: nat)

  ghost function Step(s: Book, op: Op): (t: Book)
    requires Valid(s) && (op.Request? ==> LevelFor(op.size) < TREE_HEIGHT)
    ensures Valid(t) && |t.owner| == |s.owner|
  {
    match op
    case Request(size) => Malloc(s, size)
    case Release(b) => Free(s, b)
  }

  ghost predicate Requestable(ops: seq<Op>) {
    forall op :: op in ops && op.Request? ==> LevelFor(op.size) < TREE_HEIGHT
  }

  /** Every run keeps the book valid: see the contract of Step. */
  ghost function Run(s: Book, ops: seq<Op>): (t: Book)
    requires Valid(s) && Requestable(ops)
    ensures Valid(t) && |t.owner| == |s.owner|
    decreases |ops|
  {
    if ops == [] then s
    else
      assert ops[0] in ops;
      Run(Step(s, ops[0]), ops[1..])
  }

  // ---- The cascade in closed form

  /** One split leaves row `m` without its first block `b` and row `m - 1` with its two halves. */
  ghost predicate Cascaded(s: Book, t: Book, m: nat, l: nat)
    requires Shape(s) && Shape(t) && l < m < TREE_HEIGHT && s.rows[m] != []
  {
    var b := s.rows[m][0];
    && t.rows[m] == s.rows[m][1..]
    && t.rows[l] == [b, b + Pow2(l)]
    && (forall j :: l < j < m ==> t.rows[j] == [b + Pow2(j)])
    && (forall j :: 0 <= j < TREE_HEIGHT && (j < l || j > m) ==> t.rows[j] == s.rows[j])
    && t.size == s.size
  }

  /** One split, by rows. */
  lemma HalvedRows(s: Book, m: nat) returns (t: Book)
    requires Valid(s) && 0 < m < TREE_HEIGHT && s.rows[m] != []
    ensures s.rows[m][0] + Pow2(m - 1) < BLOCK_LIMIT && t == Halve(s, m) && Valid(t) && t.size == s.size
    ensures t.rows[m] == s.rows[m][1..]
    ensures t.rows[m - 1] == [s.rows[m][0], s.rows[m][0] + Pow2(m - 1)] + s.rows[m - 1]
    ensures forall j :: 0 <= j < TREE_HEIGHT && j != m && j != m - 1 ==> t.rows[j] == s.rows[j]
  {
    HalveKeeps(s, m);
    RowBlock(s, m, 0);
    HalveSizes(s, m);
    t := Halve(s, m);
  }

  lemma {:induction false} CascadeRows(s: Book, m: nat, l: nat)
    requires Valid(s) && l < m < TREE_HEIGHT && s.rows[m] != []
    requires forall j :: l <= j < m ==> s.rows[j] == []
    ensures Cascaded(s, Cascade(s, m, l), m, l)
    decreases m
  {
    var t := HalvedRows(s, m);
    if m - 1 > l {
      CascadeRows(t, m - 1, l);
    }
  }

  lemma HalveSizes(s: Book, m: nat)
    requires Valid(s) && 0 < m < TREE_HEIGHT && s.rows[m] != []
    requires s.rows[m][0] + Pow2(m - 1) < BLOCK_LIMIT
    ensures Halve(s, m).size == s.size
  {
    RowBlock(s, m, 0);
    HalveFits(s, m);
    var c := s.rows[m][0] + Pow2(m - 1);
    HalvedBlock(s, m, c);
    assert Sized(s, c);
  }

  lemma FirstRowServes(s: Book, l: nat)
    requires Shape(s) && l < TREE_HEIGHT
    ensures CanServe(s, l) <==> FirstRow(s.rows, l, TREE_HEIGHT) < TREE_HEIGHT
  {
  }

  /** The rows once the first block `b` of row `m` has been split down to level `l` and taken. */
  ghost predicate Taken(s: Book, t: Book, m: nat, l: nat)
    requires Shape(s) && Shape(t) && l <= m < TREE_HEIGHT && s.rows[m] != []
  {
    var b := s.rows[m][0];
    && t.rows[m] == s.rows[m][1..]
    && (forall j :: l <= j < m ==> t.rows[j] == [b + Pow2(j)])
    && (forall j :: 0 <= j < TREE_HEIGHT && (j < l || j > m) ==> t.rows[j] == s.rows[j])
    && b < BLOCK_LIMIT && t.size == s.size[b := SizeOf(l)]
  }

  lemma CascadeTaken(s: Book, m: nat, l: nat)
    requires Valid(s) && l <= m < TREE_HEIGHT && s.rows[m] != []
    requires forall j :: l <= j < m ==> s.rows[j] == []
    ensures var c := Cascade(s, m, l);
            && c.rows[l][0] == s.rows[m][0] < BLOCK_LIMIT
            && Shape(Pop(c, l)) && Taken(s, Pop(c, l), m, l)
  {
    RowBlock(s, m, 0);
    if l < m {
      CascadeRows(s, m, l);
      var c := Cascade(s, m, l);
      assert c.rows[l][1..] == [s.rows[m][0] + Pow2(l)];
    }
  }

  /** malloc in closed form: it takes the first block of the least row `m` that is not empty, and
      leaves one free block, the upper half of what was split, at every level from its own up to
      m - 1. */
  lemma MallocRows(s: Book, size: nat)
    requires Valid(s) && LevelFor(size) < TREE_HEIGHT && CanServe(s, LevelFor(size))
    ensures var l, m := LevelFor(size), FirstRow(s.rows, LevelFor(size), TREE_HEIGHT);
            && m < TREE_HEIGHT && Chosen(s, size) == s.rows[m][0] && Taken(s, Malloc(s, size), m, l)
  {
    FirstRowServes(s, LevelFor(size));
    CascadeTaken(s, FirstRow(s.rows, LevelFor(size), TREE_HEIGHT), LevelFor(size));
  }

  /** malloc fails exactly when no free block of its level or above exists; otherwise the block it
      hands out is a head of its level, aligned to its own length and at least as long as asked. */
  lemma MallocServes(s: Book, size: nat)
    requires Valid(s) && LevelFor(size) < TREE_HEIGHT
    ensures CanServe(s, LevelFor(size)) <==>
              exists h: nat ::
                IsHead(s, h) && h < |s.level| == |s.size| && s.size[h] == 0 && s.level[h] >= LevelFor(size)
    ensures !CanServe(s, LevelFor(size)) ==> Malloc(s, size) == s
    ensures CanServe(s, LevelFor(size)) ==>
              var b, t := Chosen(s, size), Malloc(s, size);
              && b < |s.owner| && s.size[b] == 0
              && IsHead(t, b) && t.size[b] == SizeOf(LevelFor(size)) >= size && t.level[b] == LevelFor(size)
              && b % Pow2(LevelFor(size)) == 0
  {
    var l := LevelFor(size);
    LevelIsLeast(size);
    if h: nat :| IsHead(s, h) && h < |s.level| == |s.size| && s.size[h] == 0 && s.level[h] >= l {
      assert Listed(s, h) && Tiled(s, h);
      assert CanServe(s, l);
    }
    if CanServe(s, l) {
      MallocRows(s, size);
      var m := FirstRow(s.rows, l, TREE_HEIGHT);
      RowBlock(s, m, 0);
      var b, t := Chosen(s, size), Malloc(s, size);
      assert Sized(t, b) && Tiled(t, b);
      SizeInjective(t.level[b], l);
    }
  }

  lemma SizeInjective(i: nat, j: nat)
    requires SizeOf(i) == SizeOf(j)
    ensures i == j
  {
    if i < j { Pow2Monotone(i + 1, j); } else if j < i { Pow2Monotone(j + 1, i); }
  }

  /** free of anything but a live block changes nothing. */
  lemma FreeOfDeadIsNothing(s: Book, b: nat)
    requires Valid(s)
    ensures Free(s, b) == s <==> !(b < |s.owner| && s.owner[b] == b && s.size[b] != 0)
  {
    if b < |s.owner| {
      assert Sized(s, b);
    }
  }

  lemma InitialValid(level: nat)
    requires level < TREE_HEIGHT
    ensures Valid(Initial(level))
  {
    var s := Initial(level);
    Pow2Monotone(level, 14);
    Pow2Top();
    forall x: nat | x < |s.owner| ensures Tiled(s, x) {
      DivUnique(0, Pow2(level), 0, 0);
    }
    forall l: nat | l < TREE_HEIGHT ensures RowOk(s, l) {
    }
    assert 0 in s.rows[level];
  }

  // ---- What free undoes, and what it does not

  /** Freeing what malloc just returned restores the book exactly when malloc had to split nothing. */
  lemma FreeUndoesMalloc(s: Book, size: nat)
    requires Valid(s) && LevelFor(size) < TREE_HEIGHT && CanServe(s, LevelFor(size))
    ensures Free(Malloc(s, size), Chosen(s, size)) == s <==> s.rows[LevelFor(size)] != []
  {
    var l := LevelFor(size);
    var m := FirstRow(s.rows, l, TREE_HEIGHT);
    MallocServes(s, size);
    MallocRows(s, size);
    RowBlock(s, m, 0);
    var b, t := Chosen(s, size), Malloc(s, size);
    if m == l {
      assert t == Pop(s, l);
      assert [b] + s.rows[l][1..] == s.rows[l];
      assert Push(t, b).rows == s.rows && Push(t, b).size == s.size;
    } else {
      assert Free(t, b).level[b] == l != s.level[b];
    }
  }

  lemma {:induction false} CascadeKeepsHeads(s: Book, m: nat, l: nat, h: nat)
    requires Valid(s) && l <= m < TREE_HEIGHT && s.rows[m] != [] && IsHead(s, h)
    ensures var t := Cascade(s, m, l); IsHead(t, h) && t.level[h] <= s.level[h]
    decreases m
  {
    if l < m {
      HalveKeeps(s, m);
      HalvedBlock(s, m, h);
      RowBlock(s, m, 0);
      if h != s.rows[m][0] {
        HalveOthers(s, m, h);
      }
      CascadeKeepsHeads(Halve(s, m), m - 1, l, h);
    }
  }

  /** Blocks never merge: over any run every head stays a head and its level never rises, because free
      zeroes the size that the merging step then tests. */
  lemma {:induction false} HeadsNeverMerge(s: Book, ops: seq<Op>, h: nat)
    requires Valid(s) && Requestable(ops) && IsHead(s, h)
    ensures var t := Run(s, ops); IsHead(t, h) && t.level[h] <= s.level[h]
    decreases |ops|
  {
    if ops != [] {
      assert ops[0] in ops;
      if ops[0].Request? {
        var l := LevelFor(ops[0].size);
        var m := FirstRow(s.rows, l, TREE_HEIGHT);
        if m < TREE_HEIGHT {
          CascadeKeepsHeads(s, m, l, h);
        }
      }
      HeadsNeverMerge(Step(s, ops[0]), ops[1..], h);
    }
  }

  lemma {:induction false} Log2OfPow2(l: nat)
    ensures Log2(Pow2(l)) == l
  {
    if l > 0 {
      Log2OfPow2(l - 1);
    }
  }

  lemma LevelOfSize(l: nat)
    ensures LevelFor(SizeOf(l)) == l
  {
    Log2OfPow2(l);
    assert SizeOf(l) / BLOCK_SIZE == Pow2(l);
  }

  lemma {:induction false} OnlyTopRow(rows: seq<seq<nat>>, l: nat, top: nat)
    requires l <= top < |rows| && rows[top] != [] && forall k :: l <= k < top ==> rows[k] == []
    ensures FirstRow(rows, l, |rows|) == top
  {
  }

  /** A block as long as the arena can only be the one at 0, so there is none once that has been split. */
  lemma SplitForGood(s: Book, level: nat)
    requires Valid(s) && level < TREE_HEIGHT && |s.owner| == Pow2(level) && IsHead(s, 0) && s.level[0] < level
    ensures !CanServe(s, level)
  {
    forall l: nat | level <= l < TREE_HEIGHT ensures s.rows[l] == [] {
      if s.rows[l] != [] {
        RowBlock(s, l, 0);
        Pow2Monotone(level, l);
      }
    }
  }

  /** So one small allocation, given back at once, makes the whole region unavailable for good: nothing is
      live, and yet a request for all of it fails, then and after any further calls. */
  lemma SmallRequestFragments(level: nat, ops: seq<Op>)
    requires 0 < level < TREE_HEIGHT && Requestable(ops)
    ensures Valid(Initial(level)) && LevelFor(1) == 0 && LevelFor(SizeOf(level)) == level
    ensures CanServe(Initial(level), level) && CanServe(Initial(level), 0)
    ensures var s := Free(Malloc(Initial(level), 1), Chosen(Initial(level), 1));
            && (forall b :: 0 <= b < |s.size| ==> s.size[b] == 0) && Valid(s)
            && !CanServe(s, level) && !CanServe(Run(s, ops), level)
  {
    InitialValid(level);
    LevelOfSize(level);
    LevelOfSize(0);
    var s := Initial(level);
    assert s.rows[level] == [0];
    assert CanServe(s, level) && CanServe(s, 0);
    OnlyTopRow(s.rows, 0, level);
    MallocServes(s, 1);
    MallocRows(s, 1);
    var u := FreedSmall(s, Malloc(s, 1), level);
    NeverWhole(u, level, []);
    NeverWhole(u, level, ops);
  }

  lemma NeverWhole(s: Book, level: nat, ops: seq<Op>)
    requires Valid(s) && Requestable(ops) && level < TREE_HEIGHT && |s.owner| == Pow2(level)
    requires IsHead(s, 0) && s.level[0] < level
    ensures !CanServe(Run(s, ops), level)
  {
    HeadsNeverMerge(s, ops, 0);
    SplitForGood(Run(s, ops), level);
  }

  lemma FreedSmall(s: Book, t: Book, level: nat) returns (u: Book)
    requires 0 < level < TREE_HEIGHT && s == Initial(level) && Shape(s) && s.rows[level] != []
    requires Valid(t) && Taken(s, t, level, 0)
    requires |t.owner| == |s.owner| && t.size[0] != 0 && t.level[0] == 0
    ensures u == Free(t, 0) && Valid(u) && |u.owner| == |t.owner| && u.level[0] == 0 && IsHead(u, 0)
    ensures forall b :: 0 <= b < |u.size| ==> u.size[b] == 0
  {
    u := Free(t, 0);
    assert u == Push(t, 0);
    PushKeeps(t, 0);
  }

  // ---- The bytes in live blocks

  function LiveBytes(s: Book): int { Sum(s.size) }

  /** malloc adds the size of its level to the live bytes, and free takes off that of the block. */
  lemma StepMovesBytes(s: Book, op: Op)
    requires Valid(s) && (op.Request? ==> LevelFor(op.size) < TREE_HEIGHT)
    ensures op.Request? ==>
              LiveBytes(Step(s, op))
              == LiveBytes(s) + if CanServe(s, LevelFor(op.size)) then SizeOf(LevelFor(op.size)) else 0
    ensures op.Release? ==>
              LiveBytes(Step(s, op)) == LiveBytes(s) - if op.block < |s.owner| then s.size[op.block] else 0
  {
    match op {
      case Request(size) =>
        MallocServes(s, size);
        if CanServe(s, LevelFor(size)) {
          MallocRows(s, size);
          SumUpdate(s.size, Chosen(s, size), SizeOf(LevelFor(size)));
        }
      case Release(b) =>
        if b < |s.owner| && s.size[b] != 0 {
          SumUpdate(s.size, b, 0);
        }
    }
  }

  /** The units below `n` that lie in live blocks. */
  ghost function LiveUnits(s: Book, n: nat): nat
    requires Valid(s) && n <= |s.owner|
  {
    if n == 0 then 0
    else
      assert Tiled(s, n - 1);
      LiveUnits(s, n - 1) + if s.size[s.owner[n - 1]] != 0 then 1 else 0
  }

  lemma {:induction false} BlockPrefix(s: Book, h: nat, k: nat)
    requires Valid(s) && IsHead(s, h) && k <= Pow2(s.level[h]) && h + Pow2(s.level[h]) <= |s.owner|
    ensures Sum(s.size[..h + k]) == Sum(s.size[..h]) + if k > 0 then s.size[h] else 0
    ensures LiveUnits(s, h + k) == LiveUnits(s, h) + if s.size[h] != 0 then k else 0
  {
    if k > 0 {
      BlockPrefix(s, h, k - 1);
      assert s.size[..h + k][..h + k - 1] == s.size[..h + k - 1];
      assert Claimed(s, h, h + k - 1) && Sized(s, h + k - 1);
    }
  }

  /** Up to where a block begins or the arena ends, the sizes stored in the records add up to the units
      of the live blocks. */
  lemma {:induction false} BytesUpTo(s: Book, n: nat)
    requires Valid(s) && n <= |s.owner| && (n == |s.owner| || IsHead(s, n))
    ensures Sum(s.size[..n]) == BLOCK_SIZE * LiveUnits(s, n)
    decreases n
  {
    if n > 0 {
      var h := s.owner[n - 1];
      assert Tiled(s, n - 1) && Tiled(s, h);
      assert n < |s.owner| ==> Claimed(s, h, n);
      BytesUpTo(s, h);
      BlockPrefix(s, h, Pow2(s.level[h]));
      assert Sized(s, h);
    }
  }

  lemma {:induction false} NothingBeyond(s: Book, n: nat)
    requires Valid(s) && |s.owner| <= n <= BLOCK_LIMIT
    ensures Sum(s.size[..n]) == Sum(s.size[..|s.owner|])
  {
    if n > |s.owner| {
      NothingBeyond(s, n - 1);
      assert s.size[..n][..n - 1] == s.size[..n - 1];
      assert Sized(s, n - 1);
    }
  }

  lemma {:induction false} UnitsBound(s: Book, n: nat)
    requires Valid(s) && n <= |s.owner|
    ensures LiveUnits(s, n) <= n
  {
    if n > 0 {
      assert Tiled(s, n - 1);
      UnitsBound(s, n - 1);
    }
  }

  /** The sizes in the records add up to the bytes of the units that lie in live blocks, so never to
      more than the arena holds. */
  lemma LiveBytesAreUnits(s: Book)
    requires Valid(s)
    ensures LiveBytes(s) == BLOCK_SIZE * LiveUnits(s, |s.owner|) <= BLOCK_SIZE * |s.owner|
  {
    assert s.size == s.size[..BLOCK_LIMIT];
    NothingBeyond(s, BLOCK_LIMIT);
    BytesUpTo(s, |s.owner|);
    UnitsBound(s, |s.owner|);
  }
}
