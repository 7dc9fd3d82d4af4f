/** A BMFS volume behaves as a map from names to contents. */
module BmfsLaws {
  import opened Bmfs
  import opened BmfsSearch

  datatype Volume = Volume(dir: seq<Entry>, disk: seq<nat>)

  datatype Option<T> = None | Some(value: T)

  function DataStart(e: Entry): nat { e.start * BLOCK }

  ghost predicate RecordOk(e: Entry, blocks: nat) {
    1 <= e.start && End(e) <= blocks - 1 && (IsLive(e) ==> e.size <= e.reserved * BLOCK)
  }

  ghost predicate PairOk(a: Entry, b: Entry) {
    IsLive(a) && IsLive(b) ==> Apart(a, b) && a.name != b.name
  }

  /** The records of a volume of `blocks` blocks point into its data area, and its live files have names of
      their own and lie apart. */
  ghost predicate Sound(v: Volume, blocks: nat) {
    && |v.dir| == SLOTS && 2 <= blocks && blocks * BLOCK <= |v.disk|
    && (forall i :: 0 <= i < FirstEnd(v.dir) ==> RecordOk(v.dir[i], blocks))
    && (forall i, j :: 0 <= i < j < FirstEnd(v.dir) ==> PairOk(v.dir[i], v.dir[j]))
  }

  lemma BlockBounds(e: Entry, blocks: nat)
    requires RecordOk(e, blocks) && IsLive(e)
    ensures BLOCK <= DataStart(e) && DataStart(e) + e.size <= DataStart(e) + e.reserved * BLOCK <= blocks * BLOCK
  {
  }

  /** What is in the file with this name. */
  ghost function Lookup(v: Volume, blocks: nat, name: seq<nat>): Option<seq<nat>>
    requires Sound(v, blocks)
  {
    var k := Find(v.dir, name);
    if k == |v.dir| then None
    else BlockBounds(v.dir[k], blocks); Some(v.disk[DataStart(v.dir[k])..DataStart(v.dir[k]) + v.dir[k].size])
  }

  lemma FindIs(dir: seq<Entry>, name: seq<nat>, k: nat)
    requires k < FirstEnd(dir) && IsLive(dir[k]) && dir[k].name == name
    requires forall i :: 0 <= i < k && IsLive(dir[i]) ==> dir[i].name != name
    ensures Find(dir, name) == k
  {
  }

  /** Where a name is found depends only on the names and the end mark. */
  lemma FindSame(dir: seq<Entry>, t: seq<Entry>, name: seq<nat>)
    requires |t| == |dir| && forall i :: 0 <= i < |dir| ==> t[i].name == dir[i].name
    ensures FirstEnd(t) == FirstEnd(dir) && Find(t, name) == Find(dir, name)
  {
  }

  // ---- format

  function Formatted(v: Volume): Volume {
    v.(dir := seq(SLOTS, i => Entry([], 0, 0, 0)))
  }

  lemma FormatEmpties(v: Volume, blocks: nat, name: seq<nat>)
    requires 2 <= blocks && blocks * BLOCK <= |v.disk|
    ensures Sound(Formatted(v), blocks) && Clean(Formatted(v).dir, blocks - 1) && Holes(Formatted(v).dir) == []
    ensures Lookup(Formatted(v), blocks, name) == None
  {
  }

  // ---- write

  predicate Writes(v: Volume, name: seq<nat>, bytes: seq<nat>) {
    Find(v.dir, name) < |v.dir| && |bytes| <= v.dir[Find(v.dir, name)].reserved * BLOCK
  }

  ghost function Written(v: Volume, blocks: nat, name: seq<nat>, bytes: seq<nat>): (t: Volume)
    requires Sound(v, blocks)
    ensures |t.disk| == |v.disk| && |t.dir| == |v.dir|
  {
    if !Writes(v, name, bytes) then v
    else
      var k := Find(v.dir, name);
      var at := DataStart(v.dir[k]);
      BlockBounds(v.dir[k], blocks);
      Volume(v.dir[k := v.dir[k].(size := |bytes|)], v.disk[..at] + bytes + v.disk[at + |bytes|..])
  }

  /** The extents of two files that lie apart share no byte. */
  lemma BytesApart(a: Entry, b: Entry, x: nat, y: nat)
    requires Apart(a, b) && x <= a.reserved * BLOCK && y <= b.reserved * BLOCK
    ensures DataStart(a) + x <= DataStart(b) || DataStart(b) + y <= DataStart(a)
  {
  }

  lemma SliceKept(d: seq<nat>, at: nat, bytes: seq<nat>, lo: nat, hi: nat)
    requires at + |bytes| <= |d| && lo <= hi <= |d| && (hi <= at || at + |bytes| <= lo)
    ensures (d[..at] + bytes + d[at + |bytes|..])[lo..hi] == d[lo..hi]
  {
  }

  lemma SliceNew(d: seq<nat>, at: nat, bytes: seq<nat>)
    requires at + |bytes| <= |d|
    ensures (d[..at] + bytes + d[at + |bytes|..])[at..at + |bytes|] == bytes
  {
  }

  /** A write changes the file it names, if it is there and the bytes fit, and no other file and no byte of
      the first block, where the disk's own records are. */
  lemma WriteLaw(v: Volume, blocks: nat, name: seq<nat>, bytes: seq<nat>, other: seq<nat>)
    requires Sound(v, blocks)
    ensures var t := Written(v, blocks, name, bytes);
            && Sound(t, blocks) && t.disk[..BLOCK] == v.disk[..BLOCK]
            && Lookup(t, blocks, other) ==
               (if other == name && Writes(v, name, bytes) then Some(bytes) else Lookup(v, blocks, other))
  {
    if Writes(v, name, bytes) {
      var t := Written(v, blocks, name, bytes);
      var k := Find(v.dir, name);
      BlockBounds(v.dir[k], blocks);
      WrittenSound(v, t, blocks, k);
      SliceKept(v.disk, DataStart(v.dir[k]), bytes, 0, BLOCK);
      if other == name {
        OverwrittenItself(v, t, blocks, k, bytes);
      } else if Find(v.dir, other) < |v.dir| {
        OverwrittenOther(v, t, blocks, k, bytes, other);
      } else {
        OverwrittenAbsent(v, t, blocks, k, bytes, other);
      }
    }
  }

  /** `t` is `v` with the file in slot `k` overwritten. */
  ghost predicate Overwritten(v: Volume, t: Volume, blocks: nat, k: nat, bytes: seq<nat>) {
    && Sound(v, blocks) && Sound(t, blocks)
    && k < FirstEnd(v.dir) && IsLive(v.dir[k]) && k == Find(v.dir, v.dir[k].name)
    && |bytes| <= v.dir[k].reserved * BLOCK && DataStart(v.dir[k]) + |bytes| <= |v.disk|
    && t.dir == v.dir[k := v.dir[k].(size := |bytes|)]
    && t.disk == v.disk[..DataStart(v.dir[k])] + bytes + v.disk[DataStart(v.dir[k]) + |bytes|..]
  }

  lemma OverwrittenItself(v: Volume, t: Volume, blocks: nat, k: nat, bytes: seq<nat>)
    requires Overwritten(v, t, blocks, k, bytes)
    ensures Lookup(t, blocks, v.dir[k].name) == Some(bytes)
  {
    FindSame(v.dir, t.dir, v.dir[k].name);
    SliceNew(v.disk, DataStart(v.dir[k]), bytes);
  }

  lemma OverwrittenOther(v: Volume, t: Volume, blocks: nat, k: nat, bytes: seq<nat>, other: seq<nat>)
    requires Overwritten(v, t, blocks, k, bytes) && Find(v.dir, other) < |v.dir| && other != v.dir[k].name
    ensures Lookup(t, blocks, other) == Lookup(v, blocks, other)
  {
    FindSame(v.dir, t.dir, other);
    OtherBytes(v, t, blocks, k, bytes, Find(v.dir, other));
  }

  lemma OverwrittenAbsent(v: Volume, t: Volume, blocks: nat, k: nat, bytes: seq<nat>, other: seq<nat>)
    requires Overwritten(v, t, blocks, k, bytes) && Find(v.dir, other) == |v.dir|
    ensures Lookup(t, blocks, other) == Lookup(v, blocks, other)
  {
    FindSame(v.dir, t.dir, other);
  }

  lemma OtherBytes(v: Volume, t: Volume, blocks: nat, k: nat, bytes: seq<nat>, j: nat)
    requires Sound(v, blocks) && j < FirstEnd(v.dir) && k < FirstEnd(v.dir) && j != k
    requires IsLive(v.dir[j]) && IsLive(v.dir[k])
    requires |bytes| <= v.dir[k].reserved * BLOCK && DataStart(v.dir[k]) + |bytes| <= |v.disk|
    requires t.disk == v.disk[..DataStart(v.dir[k])] + bytes + v.disk[DataStart(v.dir[k]) + |bytes|..]
    ensures var at, end := DataStart(v.dir[j]), DataStart(v.dir[j]) + v.dir[j].size;
            end <= |v.disk| == |t.disk| && t.disk[at..end] == v.disk[at..end]
  {
    OnlyOne(v, blocks, k, j);
    BlockBounds(v.dir[j], blocks);
    BytesApart(v.dir[j], v.dir[k], v.dir[j].size, |bytes|);
    SliceKept(v.disk, DataStart(v.dir[k]), bytes, DataStart(v.dir[j]), DataStart(v.dir[j]) + v.dir[j].size);
  }

  lemma WrittenSound(v: Volume, t: Volume, blocks: nat, k: nat)
    requires Sound(v, blocks) && k < FirstEnd(v.dir) && |t.disk| == |v.disk| && IsLive(v.dir[k])
    requires |t.dir| == |v.dir| && t.dir == v.dir[k := v.dir[k].(size := t.dir[k].size)]
    requires t.dir[k].size <= v.dir[k].reserved * BLOCK
    ensures Sound(t, blocks)
  {
    FindSame(v.dir, t.dir, v.dir[k].name);
    forall i, j | 0 <= i < j < FirstEnd(t.dir) ensures PairOk(t.dir[i], t.dir[j]) {
      assert PairOk(v.dir[i], v.dir[j]);
    }
    forall i | 0 <= i < FirstEnd(t.dir) ensures RecordOk(t.dir[i], blocks) {
      assert RecordOk(v.dir[i], blocks);
    }
  }

  // ---- delete

  lemma FirstEndIs(dir: seq<Entry>, k: nat)
    requires k <= |dir| && (forall i :: 0 <= i < k ==> !IsEnd(dir[i])) && (k < |dir| ==> IsEnd(dir[k]))
    ensures FirstEnd(dir) == k
  {
  }

  lemma DeletedSound(v: Volume, blocks: nat, name: seq<nat>) returns (t: Volume, k: nat)
    requires Sound(v, blocks)
    ensures k == Find(v.dir, name) && t == v.(dir := Deleted(v.dir, name)) && Sound(t, blocks) && |t.dir| == |v.dir|
    ensures FirstEnd(t.dir) == FirstEnd(v.dir) && (k < |v.dir| ==> IsDeleted(t.dir[k]))
    ensures forall i :: 0 <= i < |v.dir| && i != k ==> t.dir[i] == v.dir[i]
  {
    t, k := v.(dir := Deleted(v.dir, name)), Find(v.dir, name);
    if k < |v.dir| {
      FirstEndIs(t.dir, FirstEnd(v.dir));
      forall i, j | 0 <= i < j < FirstEnd(t.dir) ensures PairOk(t.dir[i], t.dir[j]) {
        assert PairOk(v.dir[i], v.dir[j]);
      }
      forall i | 0 <= i < FirstEnd(t.dir) ensures RecordOk(t.dir[i], blocks) {
        assert RecordOk(v.dir[i], blocks);
      }
    }
  }

  /** No other live record has the name of a live record. */
  lemma OnlyOne(v: Volume, blocks: nat, k: nat, i: nat)
    requires Sound(v, blocks) && k < FirstEnd(v.dir) && i < FirstEnd(v.dir) && i != k
    requires IsLive(v.dir[k]) && IsLive(v.dir[i])
    ensures v.dir[i].name != v.dir[k].name && Apart(v.dir[i], v.dir[k])
  {
    assert i < k ==> PairOk(v.dir[i], v.dir[k]);
    assert k < i ==> PairOk(v.dir[k], v.dir[i]);
  }

  /** A delete takes away the file it names and changes no other. */
  lemma DeleteLaw(v: Volume, blocks: nat, name: seq<nat>, other: seq<nat>)
    requires Sound(v, blocks)
    ensures var t := v.(dir := Deleted(v.dir, name));
            && Sound(t, blocks)
            && Lookup(t, blocks, other) == (if other == name then None else Lookup(v, blocks, other))
  {
    var t, k := DeletedSound(v, blocks, name);
    DeletedFind(v, t, blocks, k, name, other);
  }

  lemma DeletedFind(v: Volume, t: Volume, blocks: nat, k: nat, name: seq<nat>, other: seq<nat>)
    requires Sound(v, blocks) && k == Find(v.dir, name) && |t.dir| == |v.dir| && FirstEnd(t.dir) == FirstEnd(v.dir)
    requires k < |v.dir| ==> IsDeleted(t.dir[k])
    requires forall i :: 0 <= i < |v.dir| && i != k ==> t.dir[i] == v.dir[i]
    ensures Find(t.dir, other) == if other == name then |t.dir| else Find(v.dir, other)
  {
    var j := Find(v.dir, other);
    if other == name {
      forall i | 0 <= i < FirstEnd(t.dir) && IsLive(t.dir[i]) ensures t.dir[i].name != name {
        if k < |v.dir| {
          OnlyOne(v, blocks, k, i);
        }
      }
    } else if j < |v.dir| {
      FindIs(t.dir, other, j);
    }
  }
}
