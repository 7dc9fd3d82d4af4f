/** Singly linked lists of block headers inside a memory of 64-bit words: m[a] is the word at byte
    address a, and a header at a keeps its payload length at a and its `next` pointer at a + 8. */
module BlockLists {
  import opened HeapCells

  const NEXT := 8

  function AddrAt(bs: seq<Block>, i: nat): nat {
    if i < |bs| then bs[i].addr else 0
  }

  /** The header of block `i` is in memory, and its `next` leads to the block after it. */
  ghost predicate Entry(m: seq<nat>, bs: seq<Block>, i: nat)
    requires i < |bs|
  {
    && 0 < bs[i].addr && bs[i].End() <= |m|
    && m[bs[i].addr] == bs[i].size && m[bs[i].addr + NEXT] == AddrAt(bs, i + 1)
  }

  /** From `head` on, the `next` words lead through exactly the blocks of `bs`, in that order. */
  ghost predicate Linked(m: seq<nat>, head: nat, bs: seq<Block>) {
    head == AddrAt(bs, 0) && forall i :: 0 <= i < |bs| ==> Entry(m, bs, i)
  }

  ghost predicate Clear(b: Block, c: Block) {
    b.End() <= c.addr || c.End() <= b.addr
  }

  ghost predicate Apart(bs: seq<Block>) {
    forall i, j :: 0 <= i < |bs| && 0 <= j < |bs| && i != j ==> Clear(bs[i], bs[j])
  }

  /** The memories differ only inside [lo, hi) and not in the payload of any block of `live`. */
  ghost predicate Spares(m: seq<nat>, m': seq<nat>, lo: nat, hi: nat, live: seq<Block>) {
    && |m| == |m'|
    && forall a :: 0 <= a < |m| && m[a] != m'[a] ==> lo <= a < hi && Writable(a, live)
  }

  ghost predicate Writable(a: nat, live: seq<Block>) {
    forall b :: b in live ==> !(b.addr + HEADER <= a < b.End())
  }

  /** The memories differ only inside block `b`. */
  ghost predicate Within(m: seq<nat>, m': seq<nat>, b: Block) {
    |m| == |m'| && forall a :: 0 <= a < |m| && m[a] != m'[a] ==> b.addr <= a < b.End()
  }

  /** The memories differ only in the headers of `b` and `c`. */
  ghost predicate HeadersOnly(m: seq<nat>, m': seq<nat>, b: Block, c: Block) {
    |m| == |m'| && forall a :: 0 <= a < |m| && m[a] != m'[a] ==>
      b.addr <= a < b.addr + HEADER || c.addr <= a < c.addr + HEADER
  }

  /** The memories differ only inside `b` and `c`. */
  ghost predicate WithinTwo(m: seq<nat>, m': seq<nat>, b: Block, c: Block) {
    |m| == |m'| && forall a :: 0 <= a < |m| && m[a] != m'[a] ==> b.addr <= a < b.End() || c.addr <= a < c.End()
  }

  lemma WithinThenHeaders(m: seq<nat>, m': seq<nat>, m'': seq<nat>, b: Block, c: Block, b': Block, c': Block)
    requires Within(m, m', b) && HeadersOnly(m', m'', b', c')
    requires b'.addr == b.addr && c'.addr == c.addr
    ensures WithinTwo(m, m'', b, c)
  {
  }

  lemma WithinFrame(m: seq<nat>, m': seq<nat>, head: nat, bs: seq<Block>, b: Block)
    requires Linked(m, head, bs) && Within(m, m', b)
    requires forall i :: 0 <= i < |bs| ==> Clear(bs[i], b)
    ensures Linked(m', head, bs)
  {
    forall i | 0 <= i < |bs| ensures Entry(m', bs, i) {
      assert Entry(m, bs, i) && Clear(bs[i], b);
    }
  }

  /** Taking block `j` out of a list: the `next` of the block before it, or the head, is redirected. */
  lemma Unlink(m: seq<nat>, m': seq<nat>, head: nat, head': nat, bs: seq<Block>, j: nat)
    requires Linked(m, head, bs) && Apart(bs) && j < |bs|
    requires Entry(m, bs, j) && (j > 0 ==> Entry(m, bs, j - 1))
    requires if j == 0 then m' == m && head' == m[bs[j].addr + NEXT]
             else head' == head && m' == m[bs[j - 1].addr + NEXT := m[bs[j].addr + NEXT]]
    ensures Linked(m', head', bs[..j] + bs[j + 1..])
  {
    var rest := bs[..j] + bs[j + 1..];
    forall i | 0 <= i < |rest| ensures Entry(m', rest, i) {
      var k := if i < j then i else i + 1;
      assert rest[i] == bs[k] && Entry(m, bs, k);
      if j > 0 && k != j - 1 {
        assert Clear(bs[k], bs[j - 1]);
      }
    }
  }

  /** Putting block `b` into a list before position `j`. */
  lemma Insert(m: seq<nat>, m': seq<nat>, head: nat, head': nat, bs: seq<Block>, j: nat, b: Block)
    requires Linked(m, head, bs) && Apart(bs) && j <= |bs| && (j > 0 ==> Entry(m, bs, j - 1))
    requires 0 < b.addr && b.End() <= |m| && m[b.addr] == b.size
    requires forall i :: 0 <= i < |bs| ==> Clear(b, bs[i])
    requires if j == 0 then head' == b.addr && m' == m[b.addr + NEXT := head]
             else head' == head && m' == m[b.addr + NEXT := m[bs[j - 1].addr + NEXT]][bs[j - 1].addr + NEXT := b.addr]
    ensures Linked(m', head', bs[..j] + [b] + bs[j..])
  {
    var more := bs[..j] + [b] + bs[j..];
    forall i | 0 <= i < |more| ensures Entry(m', more, i) {
      if i != j {
        var k := if i < j then i else i - 1;
        assert more[i] == bs[k] && Entry(m, bs, k) && Clear(b, bs[k]);
        if j > 0 && k != j - 1 {
          assert Clear(bs[k], bs[j - 1]);
        }
      } else if j > 0 {
        assert Clear(b, bs[j - 1]);
      }
    }
  }

  /** The four writes that cut a block in two: the first `n` bytes of payload, and a new header with
      the rest. */
  function CutWrites(m: seq<nat>, b: Block, n: nat): (m': seq<nat>)
    requires n + HEADER <= b.size && b.End() <= |m|
    ensures |m'| == |m|
  {
    var at := b.addr + HEADER + n;
    m[at := b.size - n - HEADER][at + NEXT := m[b.addr + NEXT]][b.addr := n][b.addr + NEXT := at]
  }

  lemma Cut(m: seq<nat>, head: nat, bs: seq<Block>, j: nat, n: nat)
    requires Linked(m, head, bs) && Apart(bs) && j < |bs| && Entry(m, bs, j) && n + HEADER <= bs[j].size
    ensures Linked(CutWrites(m, bs[j], n), head, bs[..j] + Halves(bs[j], n) + bs[j + 1..])
  {
    var m' := CutWrites(m, bs[j], n);
    var more := bs[..j] + Halves(bs[j], n) + bs[j + 1..];
    forall i | 0 <= i < |more| ensures Entry(m', more, i) {
      if i < j || i > j + 1 {
        var k := if i < j then i else i - 1;
        assert more[i] == bs[k] && Entry(m, bs, k) && Clear(bs[k], bs[j]);
      }
    }
  }

  lemma CutWithin(m: seq<nat>, b: Block, n: nat)
    requires n + HEADER <= b.size && b.End() <= |m|
    ensures Within(m, CutWrites(m, b, n), b)
  {
  }

  function Halves(b: Block, n: nat): (r: seq<Block>)
    requires n + HEADER <= b.size
  {
    [Block(b.addr, n), Block(b.addr + HEADER + n, b.size - n - HEADER)]
  }

  /** Letting block `j` swallow block `j + 1`, which starts where it ends. */
  lemma Join(m: seq<nat>, m': seq<nat>, head: nat, bs: seq<Block>, j: nat)
    requires Linked(m, head, bs) && Apart(bs) && j + 1 < |bs| && bs[j].End() == bs[j + 1].addr
    requires Entry(m, bs, j) && Entry(m, bs, j + 1)
    requires m' == m[bs[j].addr := bs[j].size + (HEADER + bs[j + 1].size)]
                    [bs[j].addr + NEXT := m[bs[j + 1].addr + NEXT]]
    ensures Linked(m', head, bs[..j] + [Block(bs[j].addr, bs[j].size + HEADER + bs[j + 1].size)] + bs[j + 2..])
  {
    var less := bs[..j] + [Block(bs[j].addr, bs[j].size + HEADER + bs[j + 1].size)] + bs[j + 2..];
    forall i | 0 <= i < |less| ensures Entry(m', less, i) {
      if i != j {
        var k := if i < j then i else i + 1;
        assert less[i] == bs[k] && Entry(m, bs, k) && Clear(bs[k], bs[j]);
      }
    }
  }

  lemma WithinTwoSpares(m: seq<nat>, m': seq<nat>, b: Block, c: Block, lo: nat, hi: nat, live: seq<Block>)
    requires WithinTwo(m, m', b, c)
    requires lo <= b.addr && b.End() <= hi && lo <= c.addr && c.End() <= hi
    requires forall l :: l in live ==> Clear(l, b) && Clear(l, c)
    ensures Spares(m, m', lo, hi, live)
  {
    forall a | 0 <= a < |m| && m[a] != m'[a] ensures Writable(a, live) {
      forall l | l in live ensures !(l.addr + HEADER <= a < l.End()) {
        assert Clear(l, b) && Clear(l, c);
      }
    }
  }

  lemma HeaderWrites(m: seq<nat>, b: Block, x: nat, y: nat)
    requires b.End() <= |m|
    ensures HeadersOnly(m, m[b.addr := x][b.addr + NEXT := y], b, b)
    ensures Within(m, m[b.addr := x][b.addr + NEXT := y], b)
  {
  }

  /** Writes to headers spare the payload of every block of `live`. */
  lemma HeadersSpare(m: seq<nat>, m': seq<nat>, b: Block, c: Block, lo: nat, hi: nat, live: seq<Block>)
    requires HeadersOnly(m, m', b, c)
    requires lo <= b.addr && b.End() <= hi && lo <= c.addr && c.End() <= hi
    requires forall l :: l in live ==> (l == b || Clear(l, b)) && (l == c || Clear(l, c))
    ensures Spares(m, m', lo, hi, live)
  {
    forall a | 0 <= a < |m| && m[a] != m'[a] ensures Writable(a, live) {
      forall l | l in live ensures !(l.addr + HEADER <= a < l.End()) {
        assert (l == b || Clear(l, b)) && (l == c || Clear(l, c));
      }
    }
  }

  lemma SparesTrans(m: seq<nat>, m': seq<nat>, m'': seq<nat>, lo: nat, hi: nat, live: seq<Block>)
    requires Spares(m, m', lo, hi, live) && Spares(m', m'', lo, hi, live)
    ensures Spares(m, m'', lo, hi, live)
  {
  }
}
