/** The buddy allocator's bookkeeping as a value: which block every unit of memory belongs to, the
    level and size fields of the block records, and the free list of every level. */
module BuddyBook {
  import opened Arithmetic

  const TREE_HEIGHT: nat := 15
  const BLOCK_SIZE: nat := 512
  const BLOCK_LIMIT: nat := 16384   // 1 << (TREE_HEIGHT - 1)

  function Pow2(n: nat): (r: nat)
    ensures r > 0
  {
    if n == 0 then 1 else 2 * Pow2(n - 1)
  }

  function SizeOf(level: nat): (r: nat)
    ensures r > 0
  {
    Pow2(level) * BLOCK_SIZE
  }

  /** `owner[x]` is the head, that is the first unit, of the block that unit `x` belongs to; it is a
      ghost of the C program, which only stores levels and sizes.  `rows[l]` is the free list of level
      `l`, first block first. */
  datatype Book = Book(rows: seq<seq<nat>>, owner: seq<nat>, level: seq<nat>, size: seq<nat>)

  ghost predicate IsHead(s: Book, b: nat) {
    b < |s.owner| && s.owner[b] == b
  }

  /** Unit `x` lies in the block of its owner, an aligned block inside the arena. */
  ghost predicate Tiled(s: Book, x: nat)
    requires x < |s.owner| <= |s.level|
  {
    var h := s.owner[x];
    && IsHead(s, h) && s.level[h] < TREE_HEIGHT
    && h <= x < h + Pow2(s.level[h]) <= |s.owner|
    && h % Pow2(s.level[h]) == 0
  }

  /** Unit `x` belongs to block `h` if it lies in it. */
  ghost predicate Claimed(s: Book, h: nat, x: nat)
    requires h < |s.level| && x < |s.owner|
  {
    h <= x < h + Pow2(s.level[h]) ==> s.owner[x] == h
  }

  /** The free list of level `l` holds free heads of that level, none of them twice. */
  ghost predicate RowOk(s: Book, l: nat)
    requires l < |s.rows| && |s.owner| <= |s.level| == |s.size|
  {
    && (forall b :: b in s.rows[l] ==> IsHead(s, b) && s.level[b] == l && s.size[b] == 0)
    && forall i, j :: 0 <= i < j < |s.rows[l]| ==> s.rows[l][i] != s.rows[l][j]
  }

  /** A free head is on the list of its level. */
  ghost predicate Listed(s: Book, b: nat)
    requires b < |s.owner| <= |s.level| == |s.size|
  {
    IsHead(s, b) && s.size[b] == 0 ==> s.level[b] < |s.rows| && b in s.rows[s.level[b]]
  }

  /** Only the records of live blocks carry a size, and it is the size of their level. */
  ghost predicate Sized(s: Book, b: nat)
    requires b < |s.size| == |s.level|
  {
    s.size[b] != 0 ==> IsHead(s, b) && s.size[b] == SizeOf(s.level[b])
  }

  ghost predicate Shape(s: Book) {
    |s.rows| == TREE_HEIGHT && |s.level| == |s.size| == BLOCK_LIMIT && 0 < |s.owner| <= BLOCK_LIMIT
  }

  ghost predicate Valid(s: Book) {
    && Shape(s)
    && (forall x: nat :: x < |s.owner| ==> Tiled(s, x))
    && (forall h: nat, x: nat :: h < |s.owner| && x < |s.owner| && IsHead(s, h) ==> Claimed(s, h, x))
    && (forall l: nat :: l < TREE_HEIGHT ==> RowOk(s, l))
    && (forall b: nat :: b < |s.owner| ==> Listed(s, b))
    && (forall b: nat :: b < BLOCK_LIMIT ==> Sized(s, b))
  }

  /** `level` for a region of 2^level blocks. */
  function Initial(level: nat): Book
    requires level < TREE_HEIGHT
  {
    Book(seq(TREE_HEIGHT, l => [])[level := [0]],
         seq(Pow2(level), x => 0),
         seq(BLOCK_LIMIT, i => 0)[0 := level],
         seq(BLOCK_LIMIT, i => 0))
  }

  // ---- The operations

  /** removeBlock of the first block of a row. */
  function Pop(s: Book, l: nat): Book
    requires Shape(s) && l < TREE_HEIGHT && s.rows[l] != [] && s.rows[l][0] < BLOCK_LIMIT
  {
    var b := s.rows[l][0];
    s.(rows := s.rows[l := s.rows[l][1..]], size := s.size[b := SizeOf(l)])
  }

  /** addBlock. */
  function Push(s: Book, b: nat): Book
    requires Shape(s) && b < BLOCK_LIMIT && s.level[b] < TREE_HEIGHT
  {
    var l := s.level[b];
    s.(rows := s.rows[l := [b] + s.rows[l]], size := s.size[b := 0])
  }

  function Claim(owner: seq<nat>, b: nat, n: nat): (r: seq<nat>)
    ensures |r| == |owner|
    ensures forall x :: 0 <= x < |owner| ==> r[x] == if b <= x < b + n then b else owner[x]
  {
    seq(|owner|, x requires 0 <= x < |owner| => if b <= x < b + n then b else owner[x])
  }

  /** splitBlock: the first block of row `m` becomes two of row `m - 1`. */
  function Halve(s: Book, m: nat): Book
    requires Shape(s) && 0 < m < TREE_HEIGHT && s.rows[m] != [] && s.rows[m][0] + Pow2(m - 1) < BLOCK_LIMIT
  {
    var b := s.rows[m][0];
    var c := b + Pow2(m - 1);
    Book(s.rows[m := s.rows[m][1..]][m - 1 := [b, c] + s.rows[m - 1]],
         Claim(s.owner, c, Pow2(m - 1)),
         s.level[b := m - 1][c := m - 1],
         s.size[b := 0][c := 0])
  }

  // ---- Powers of two

  lemma MulTwice(d: nat, q: nat)
    ensures (2 * d) * q == d * (2 * q) && d * (2 * q + 1) == d * (2 * q) + d
  {
  }

  lemma HalfMultiple(b: nat, d: nat, q: nat)
    requires d > 0 && b == (2 * d) * q
    ensures b % d == 0 && (b + d) % d == 0 && b / d == 2 * q
  {
    MulTwice(d, q);
    DivUnique(b, d, 2 * q, 0);
    DivUnique(b + d, d, 2 * q + 1, 0);
  }

  lemma HalfAligned(b: nat, m: nat)
    requires m > 0 && b % Pow2(m) == 0
    ensures b % Pow2(m - 1) == 0 && (b + Pow2(m - 1)) % Pow2(m - 1) == 0
    ensures (b / Pow2(m - 1)) % 2 == 0
  {
    Exact(b, Pow2(m));
    HalfMultiple(b, Pow2(m - 1), b / Pow2(m));
  }

  /** `b` and `c` are the two halves of an aligned block of level l + 1. */
  ghost predicate AreBuddies(b: nat, c: int, l: nat) {
    var lo := if b < c then b else c;
    lo >= 0 && lo % Pow2(l + 1) == 0 && (b == lo + Pow2(l) || c == lo + Pow2(l))
  }

  function OtherHalf(b: nat, l: nat): int {
    if (b / Pow2(l)) % 2 == 1 then b - Pow2(l) else b + Pow2(l)
  }

  lemma HalfOf(d: nat, q: nat, b: nat)
    requires d > 0 && b == d * q
    ensures q % 2 == 0 ==> b % (2 * d) == 0
    ensures q % 2 == 1 ==> b >= d && (b - d) % (2 * d) == 0
    ensures b / d == q
  {
    DivUnique(b, d, q, 0);
    var k := q / 2;
    MulTwice(d, k);
    if q % 2 == 0 {
      DivUnique(b, 2 * d, k, 0);
    } else {
      assert b == d * (2 * k) + d;
      MulBound(d, q);
      DivUnique(b - d, 2 * d, k, 0);
    }
  }

  /** The record that getBuddy computes for an aligned block is its buddy. */
  lemma OtherHalfIsBuddy(b: nat, l: nat)
    requires b % Pow2(l) == 0
    ensures AreBuddies(b, OtherHalf(b, l), l)
  {
    Exact(b, Pow2(l));
    HalfOf(Pow2(l), b / Pow2(l), b);
  }

  /** A block has one buddy, whose buddy it is. */
  lemma BuddyUnique(b: nat, c: nat, e: nat, l: nat)
    requires AreBuddies(b, c, l) && AreBuddies(b, e, l)
    ensures c == e && AreBuddies(c, b, l)
  {
    if c < b < e {
      DivUnique(b, Pow2(l + 1), c / Pow2(l + 1), Pow2(l));
    } else if e < b < c {
      DivUnique(b, Pow2(l + 1), e / Pow2(l + 1), Pow2(l));
    }
  }

  lemma {:induction false} Pow2Monotone(i: nat, j: nat)
    requires i <= j
    ensures Pow2(i) <= Pow2(j)
  {
    if i < j {
      Pow2Monotone(i, j - 1);
    }
  }

  lemma Pow2Top()
    ensures Pow2(14) == BLOCK_LIMIT
  {
    assert Pow2(4) == 16;
    assert Pow2(8) == 256;
    assert Pow2(12) == 4096;
  }

  // ---- The operations keep the book valid

  /** A block of row `m` lies in the arena with all its units. */
  lemma RowBlock(s: Book, m: nat, k: nat)
    requires Valid(s) && m < TREE_HEIGHT && k < |s.rows[m]|
    ensures var b := s.rows[m][k];
            IsHead(s, b) && s.level[b] == m && s.size[b] == 0 && b + Pow2(m) <= |s.owner| && b % Pow2(m) == 0
  {
    assert RowOk(s, m);
    var b := s.rows[m][k];
    assert b in s.rows[m];
    assert Tiled(s, b);
  }

  lemma HalveFits(s: Book, m: nat)
    requires Valid(s) && 0 < m < TREE_HEIGHT && s.rows[m] != []
    ensures s.rows[m][0] + 2 * Pow2(m - 1) <= |s.owner| <= BLOCK_LIMIT && Pow2(m) == 2 * Pow2(m - 1)
  {
    RowBlock(s, m, 0);
  }

  lemma PopKeeps(s: Book, l: nat)
    requires Valid(s) && l < TREE_HEIGHT && s.rows[l] != []
    ensures s.rows[l][0] < BLOCK_LIMIT && Valid(Pop(s, l))
  {
    RowBlock(s, l, 0);
    var b, t := s.rows[l][0], Pop(s, l);
    forall x: nat | x < |t.owner| ensures Tiled(t, x) { assert Tiled(s, x); }
    forall h: nat, x: nat | h < |t.owner| && x < |t.owner| && IsHead(t, h) ensures Claimed(t, h, x) {
      assert IsHead(s, h) && Claimed(s, h, x);
    }
    forall k: nat | k < TREE_HEIGHT ensures RowOk(t, k) {
      assert RowOk(s, k) && RowOk(s, l);
      forall c | c in t.rows[k] ensures IsHead(t, c) && t.level[c] == k && t.size[c] == 0 {
        assert c in s.rows[k];
        if k == l {
          var i :| 0 <= i < |t.rows[l]| && t.rows[l][i] == c;
          assert s.rows[l][i + 1] == c;
        }
      }
    }
    forall c: nat | c < |t.owner| ensures Listed(t, c) {
      assert Listed(s, c);
      if IsHead(t, c) && t.size[c] == 0 && t.level[c] == l {
        var i :| 0 <= i < |s.rows[l]| && s.rows[l][i] == c;
        assert t.rows[l][i - 1] == c;
      }
    }
    forall c: nat | c < BLOCK_LIMIT ensures Sized(t, c) { assert Sized(s, c); }
  }

  lemma PushKeeps(s: Book, b: nat)
    requires Valid(s) && b < BLOCK_LIMIT && s.size[b] != 0
    ensures IsHead(s, b) && s.level[b] < TREE_HEIGHT && Valid(Push(s, b))
  {
    assert Sized(s, b) && Tiled(s, b);
    var l, t := s.level[b], Push(s, b);
    forall x: nat | x < |t.owner| ensures Tiled(t, x) { assert Tiled(s, x); }
    forall h: nat, x: nat | h < |t.owner| && x < |t.owner| && IsHead(t, h) ensures Claimed(t, h, x) {
      assert IsHead(s, h) && Claimed(s, h, x);
    }
    forall k: nat | k < TREE_HEIGHT ensures RowOk(t, k) {
      assert RowOk(s, k);
      if k == l {
        forall i, j | 0 <= i < j < |t.rows[l]| ensures t.rows[l][i] != t.rows[l][j] {
          assert t.rows[l][j] == s.rows[l][j - 1] && s.rows[l][j - 1] in s.rows[l];
        }
      }
    }
    forall c: nat | c < |t.owner| ensures Listed(t, c) { assert Listed(s, c); }
    forall c: nat | c < BLOCK_LIMIT ensures Sized(t, c) { assert Sized(s, c); }
  }

  /** The block that is halved holds exactly the units from its head on, and its second half no head. */
  lemma HalvedBlock(s: Book, m: nat, x: nat)
    requires Valid(s) && 0 < m < TREE_HEIGHT && s.rows[m] != [] && x < |s.owner|
    ensures var b := s.rows[m][0];
            && b < |s.owner|
            && (s.owner[x] == b <==> b <= x < b + 2 * Pow2(m - 1))
            && (IsHead(s, x) && b <= x < b + 2 * Pow2(m - 1) ==> x == b)
  {
    var b := s.rows[m][0];
    RowBlock(s, m, 0);
    HalveFits(s, m);
    assert Claimed(s, b, x) && Tiled(s, x);
  }

  /** A head other than the block that is halved stays what it was. */
  lemma HalveOthers(s: Book, m: nat, c: nat)
    requires Valid(s) && 0 < m < TREE_HEIGHT && s.rows[m] != [] && s.rows[m][0] + Pow2(m - 1) < BLOCK_LIMIT
    requires c < BLOCK_LIMIT && c != s.rows[m][0] && c != s.rows[m][0] + Pow2(m - 1)
    ensures var t := Halve(s, m);
            t.level[c] == s.level[c] && t.size[c] == s.size[c] && (IsHead(t, c) <==> IsHead(s, c))
  {
    HalveFits(s, m);
    if c < |s.owner| {
      HalvedBlock(s, m, c);
    }
  }

  lemma HalveKeepsTiled(s: Book, m: nat, x: nat)
    requires Valid(s) && 0 < m < TREE_HEIGHT && s.rows[m] != [] && s.rows[m][0] + Pow2(m - 1) < BLOCK_LIMIT
    requires x < |s.owner|
    ensures Tiled(Halve(s, m), x)
  {
    var b, n, h := s.rows[m][0], Pow2(m - 1), s.owner[x];
    RowBlock(s, m, 0);
    HalveFits(s, m);
    HalvedBlock(s, m, x);
    assert Tiled(s, x);
    if h == b {
      HalfAligned(b, m);
    } else {
      HalvedBlock(s, m, h);
      HalveOthers(s, m, h);
    }
  }

  lemma HalveKeepsClaimed(s: Book, m: nat, h: nat, x: nat)
    requires Valid(s) && 0 < m < TREE_HEIGHT && s.rows[m] != [] && s.rows[m][0] + Pow2(m - 1) < BLOCK_LIMIT
    requires h < |s.owner| && x < |s.owner| && IsHead(Halve(s, m), h)
    ensures Claimed(Halve(s, m), h, x)
  {
    var b, n := s.rows[m][0], Pow2(m - 1);
    RowBlock(s, m, 0);
    HalveFits(s, m);
    HalvedBlock(s, m, x);
    if h != b && h != b + n {
      HalveOthers(s, m, h);
      assert Claimed(s, h, x);
    }
  }

  lemma HalveKeeps(s: Book, m: nat)
    requires Valid(s) && 0 < m < TREE_HEIGHT && s.rows[m] != []
    ensures s.rows[m][0] + Pow2(m - 1) < BLOCK_LIMIT && Valid(Halve(s, m))
  {
    HalveFits(s, m);
    RowBlock(s, m, 0);
    var b, c, t := s.rows[m][0], s.rows[m][0] + Pow2(m - 1), Halve(s, m);
    forall x: nat | x < |t.owner| ensures Tiled(t, x) { HalveKeepsTiled(s, m, x); }
    forall h: nat, x: nat | h < |t.owner| && x < |t.owner| && IsHead(t, h) ensures Claimed(t, h, x) {
      HalveKeepsClaimed(s, m, h, x);
    }
    HalvedBlock(s, m, c);
    assert IsHead(t, b) && IsHead(t, c);
    forall k: nat | k < TREE_HEIGHT ensures RowOk(t, k) {
      assert RowOk(s, k);
      HalvedRow(s, m, k);
    }
    forall d: nat | d < |t.owner| ensures Listed(t, d) {
      assert Listed(s, d);
      if d != b && d != c {
        HalveOthers(s, m, d);
        if IsHead(t, d) && t.size[d] == 0 && t.level[d] == m {
          var i :| 0 <= i < |s.rows[m]| && s.rows[m][i] == d;
          assert t.rows[m][i - 1] == d;
        }
      }
    }
    forall d: nat | d < BLOCK_LIMIT ensures Sized(t, d) {
      assert Sized(s, d);
      if d != b && d != c { HalveOthers(s, m, d); }
    }
  }

  /** On the rows as they will be, what is left of row `m` and the rest of row m - 1 are other heads. */
  lemma HalvedOthers(s: Book, m: nat, k: nat, d: nat)
    requires Valid(s) && 0 < m < TREE_HEIGHT && s.rows[m] != [] && s.rows[m][0] + Pow2(m - 1) < BLOCK_LIMIT
    requires k < TREE_HEIGHT && d in (if k == m then s.rows[m][1..] else s.rows[k])
    ensures d != s.rows[m][0] && d != s.rows[m][0] + Pow2(m - 1)
    ensures var t := Halve(s, m); IsHead(t, d) && t.level[d] == k && t.size[d] == 0
  {
    assert RowOk(s, k) && RowOk(s, m);
    var b := s.rows[m][0];
    assert b in s.rows[m] && s.rows[m] == [b] + s.rows[m][1..];
    assert d in s.rows[k];
    RowBlock(s, m, 0);
    HalveFits(s, m);
    HalvedBlock(s, m, d);
    if k == m {
      var i :| 0 <= i < |s.rows[m][1..]| && s.rows[m][1..][i] == d;
      assert s.rows[m][0] != s.rows[m][i + 1];
    }
    HalveOthers(s, m, d);
  }

  lemma HalvedRow(s: Book, m: nat, k: nat)
    requires Valid(s) && 0 < m < TREE_HEIGHT && s.rows[m] != [] && s.rows[m][0] + Pow2(m - 1) < BLOCK_LIMIT
    requires k < TREE_HEIGHT && RowOk(s, k)
    requires IsHead(Halve(s, m), s.rows[m][0]) && IsHead(Halve(s, m), s.rows[m][0] + Pow2(m - 1))
    ensures RowOk(Halve(s, m), k)
  {
    var b, c, t := s.rows[m][0], s.rows[m][0] + Pow2(m - 1), Halve(s, m);
    var rest := if k == m then s.rows[m][1..] else s.rows[k];
    assert t.rows[k] == if k == m - 1 then [b, c] + rest else rest;
    forall d | d in rest ensures d != b && d != c && IsHead(t, d) && t.level[d] == k && t.size[d] == 0 {
      HalvedOthers(s, m, k, d);
    }
    forall i, j | 0 <= i < j < |t.rows[k]| ensures t.rows[k][i] != t.rows[k][j] {
      if k == m - 1 && j >= 2 {
        assert t.rows[k][j] == rest[j - 2] && rest[j - 2] in rest;
        assert i >= 2 ==> t.rows[k][i] == rest[i - 2];
      }
    }
  }
}
