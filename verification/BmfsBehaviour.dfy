/** What it means that a BMFS volume is a map from names to contents: whatever is written from now on, a read
    returns what was last written to its file, and no write leaves the data area. */
module BmfsBehaviour {
  import opened Bmfs
  import opened BmfsLaws
  import opened BmfsSearch

  type Contents = map<seq<nat>, seq<nat>>

  // ---- read and write on any volume

  /** `n` bytes from `at` on; past the end of the disk getc gives EOF, which putc writes as 255. */
  function Fetched(disk: seq<nat>, at: nat, n: nat): (r: seq<nat>)
    ensures |r| == n
  {
    seq(n, i requires 0 <= i => if at + i < |disk| then disk[at + i] else 255)
  }

  function Read(v: Volume, name: seq<nat>): Option<seq<nat>> {
    var k := Find(v.dir, name);
    if k == |v.dir| then None else Some(Fetched(v.disk, DataStart(v.dir[k]), v.dir[k].size))
  }

  /** The disk, a file, grows if it is written to past its end. */
  function Grown(disk: seq<nat>, n: nat): (r: seq<nat>)
    ensures |r| >= n && |r| >= |disk| && r[..|disk|] == disk && (n <= |disk| ==> r == disk)
  {
    if n <= |disk| then disk else disk + seq(n - |disk|, i => 0)
  }

  function Stored(disk: seq<nat>, at: nat, bytes: seq<nat>): (r: seq<nat>)
    ensures bytes != [] ==> |r| >= at + |bytes| && r[at..at + |bytes|] == bytes
    ensures |r| >= |disk|
  {
    if bytes == [] then disk
    else Grown(disk, at + |bytes|)[..at] + bytes + Grown(disk, at + |bytes|)[at + |bytes|..]
  }

  datatype Writing = Writing(name: seq<nat>, bytes: seq<nat>)

  function Put(v: Volume, w: Writing): Volume {
    if !Writes(v, w.name, w.bytes) then v
    else
      var k := Find(v.dir, w.name);
      Volume(v.dir[k := v.dir[k].(size := |w.bytes|)], Stored(v.disk, DataStart(v.dir[k]), w.bytes))
  }

  lemma ReadIsLookup(v: Volume, blocks: nat, name: seq<nat>)
    requires Sound(v, blocks)
    ensures Read(v, name) == Lookup(v, blocks, name)
  {
    var k := Find(v.dir, name);
    if k < |v.dir| {
      var at, n := DataStart(v.dir[k]), v.dir[k].size;
      BlockBounds(v.dir[k], blocks);
      assert Fetched(v.disk, at, n) == v.disk[at..at + n];
    }
  }

  lemma PutIsWritten(v: Volume, blocks: nat, w: Writing)
    requires Sound(v, blocks)
    ensures Put(v, w) == Written(v, blocks, w.name, w.bytes)
  {
    if Writes(v, w.name, w.bytes) {
      var at := DataStart(v.dir[Find(v.dir, w.name)]);
      BlockBounds(v.dir[Find(v.dir, w.name)], blocks);
      if w.bytes == [] {
        assert v.disk[..at] + [] + v.disk[at..] == v.disk;
      }
    }
  }

  /** What a write does, on any volume: if the name is found and the bytes fit in its blocks of 2 MiB, they are
      what is read from then on, and otherwise nothing changes. */
  lemma WriteExactly(v: Volume, w: Writing)
    ensures var k := Find(v.dir, w.name);
            if k < |v.dir| && |w.bytes| <= v.dir[k].reserved * 2097152
            then Read(Put(v, w), w.name) == Some(w.bytes) && Put(v, w).dir == v.dir[k := v.dir[k].(size := |w.bytes|)]
            else Put(v, w) == v
  {
    var k := Find(v.dir, w.name);
    if k < |v.dir| && |w.bytes| <= v.dir[k].reserved * 2097152 {
      var t, at, n := Put(v, w), DataStart(v.dir[k]), |w.bytes|;
      FindSame(v.dir, t.dir, w.name);
      if n > 0 {
        assert Fetched(t.disk, at, n) == t.disk[at..at + n];
      }
    }
  }

  // ---- Being a map

  /** Every read returns what the map has. */
  ghost predicate Reads(v: Volume, m: Contents) {
    forall name :: Read(v, name) == if name in m then Some(m[name]) else None
  }

  /** The map takes the bytes if they fit in the file's blocks of 2 MiB. */
  function MapPut(m: Contents, v: Volume, w: Writing): Contents {
    var k := Find(v.dir, w.name);
    if k < |v.dir| && |w.bytes| <= v.dir[k].reserved * 2097152 then m[w.name := w.bytes] else m
  }

  /** The write stays in blocks 1 to `blocks` - 2, the data area. */
  predicate InData(v: Volume, blocks: nat, w: Writing) {
    Writes(v, w.name, w.bytes) && w.bytes != [] ==>
      var at := DataStart(v.dir[Find(v.dir, w.name)]);
      BLOCK <= at && at + |w.bytes| <= (blocks - 1) * BLOCK
  }

  /** Through these writes every read returns what the map then has. */
  ghost predicate Behaves(v: Volume, blocks: nat, m: Contents, ws: seq<Writing>)
    decreases |ws|
  {
    && Reads(v, m)
    && (ws == [] || (InData(v, blocks, ws[0]) && Behaves(Put(v, ws[0]), blocks, MapPut(m, v, ws[0]), ws[1..])))
  }

  ghost predicate IsMap(v: Volume, blocks: nat, m: Contents) { forall ws :: Behaves(v, blocks, m, ws) }

  // ---- Sound volumes are maps

  ghost predicate StandsFor(v: Volume, blocks: nat, m: Contents) {
    Sound(v, blocks) && forall name :: Lookup(v, blocks, name) == if name in m then Some(m[name]) else None
  }

  lemma PutStandsFor(v: Volume, blocks: nat, m: Contents, w: Writing)
    requires StandsFor(v, blocks, m)
    ensures StandsFor(Put(v, w), blocks, MapPut(m, v, w)) && InData(v, blocks, w)
  {
    PutIsWritten(v, blocks, w);
    var t, n := Put(v, w), MapPut(m, v, w);
    WriteLaw(v, blocks, w.name, w.bytes, []);
    forall name ensures Lookup(t, blocks, name) == if name in n then Some(n[name]) else None {
      WriteLaw(v, blocks, w.name, w.bytes, name);
    }
    if Writes(v, w.name, w.bytes) {
      assert RecordOk(v.dir[Find(v.dir, w.name)], blocks);
    }
  }

  lemma StandsForReads(v: Volume, blocks: nat, m: Contents)
    requires StandsFor(v, blocks, m)
    ensures Reads(v, m)
  {
    forall name ensures Read(v, name) == if name in m then Some(m[name]) else None {
      ReadIsLookup(v, blocks, name);
    }
  }

  lemma {:induction false} StandsForBehaves(v: Volume, blocks: nat, m: Contents, ws: seq<Writing>)
    requires StandsFor(v, blocks, m)
    ensures Behaves(v, blocks, m, ws)
    decreases |ws|
  {
    StandsForReads(v, blocks, m);
    if ws != [] {
      PutStandsFor(v, blocks, m, ws[0]);
      StandsForBehaves(Put(v, ws[0]), blocks, MapPut(m, v, ws[0]), ws[1..]);
    }
  }

  lemma StandsForIsMap(v: Volume, blocks: nat, m: Contents)
    requires StandsFor(v, blocks, m)
    ensures IsMap(v, blocks, m)
  {
    forall ws ensures Behaves(v, blocks, m, ws) {
      StandsForBehaves(v, blocks, m, ws);
    }
  }

  // ---- ... and no others

  /** All that can be said of a directory without asking where its files lie: live records have names of
      their own and are not empty, and no file is longer than its extent. */
  ghost predicate Tidy(v: Volume, blocks: nat) {
    && |v.dir| == SLOTS && 2 <= blocks && blocks * BLOCK <= |v.disk|
    && (forall i :: 0 <= i < FirstEnd(v.dir) ==>
          if IsLive(v.dir[i]) then 1 <= v.dir[i].reserved && v.dir[i].size <= v.dir[i].reserved * BLOCK
          else RecordOk(v.dir[i], blocks))
    && (forall i, j :: 0 <= i < j < FirstEnd(v.dir) && IsLive(v.dir[i]) && IsLive(v.dir[j]) ==>
          v.dir[i].name != v.dir[j].name)
  }

  function Full(e: Entry, byte: nat): Writing {
    Writing(e.name, seq(e.reserved * BLOCK, i => byte))
  }

  lemma TidyFind(v: Volume, blocks: nat, k: nat)
    requires Tidy(v, blocks) && k < FirstEnd(v.dir) && IsLive(v.dir[k])
    ensures Find(v.dir, v.dir[k].name) == k
  {
    FindIs(v.dir, v.dir[k].name, k);
  }

  /** A file that leaves the data area is written outside it when it is filled. */
  lemma MapFilesInData(v: Volume, blocks: nat, m: Contents, k: nat)
    requires Tidy(v, blocks) && k < FirstEnd(v.dir) && IsLive(v.dir[k]) && IsMap(v, blocks, m)
    ensures RecordOk(v.dir[k], blocks)
  {
    TidyFind(v, blocks, k);
    var w := Full(v.dir[k], 0);
    assert Behaves(v, blocks, m, [w]);
    assert InData(v, blocks, w);
  }

  /** Filling a file puts the byte all over its extent. */
  lemma PutFull(v: Volume, blocks: nat, k: nat, byte: nat) returns (t: Volume)
    requires Tidy(v, blocks) && k < FirstEnd(v.dir) && IsLive(v.dir[k])
    ensures var e := v.dir[k]; Writes(v, e.name, Full(e, byte).bytes) && t == Put(v, Full(e, byte)) && Tidy(t, blocks)
    ensures t.dir == v.dir[k := v.dir[k].(size := v.dir[k].reserved * BLOCK)] && FirstEnd(t.dir) == FirstEnd(v.dir)
    ensures var e := v.dir[k]; forall p :: DataStart(e) <= p < DataStart(e) + e.reserved * BLOCK ==>
              p < |t.disk| && t.disk[p] == byte
  {
    var e := v.dir[k];
    TidyFind(v, blocks, k);
    t := Put(v, Full(e, byte));
    FindSame(v.dir, t.dir, e.name);
    var at, n := DataStart(e), e.reserved * BLOCK;
    forall p | at <= p < at + n ensures p < |t.disk| && t.disk[p] == byte {
      assert t.disk[p] == t.disk[at..at + n][p - at] == Full(e, byte).bytes[p - at];
    }
  }

  /** The block that two overlapping files both have. */
  function Shared(a: Entry, b: Entry): nat { if a.start < b.start then b.start else a.start }

  lemma SharedByte(a: Entry, b: Entry)
    requires 1 <= a.reserved && 1 <= b.reserved && !Apart(a, b)
    ensures DataStart(a) <= Shared(a, b) * BLOCK < DataStart(a) + a.reserved * BLOCK
    ensures DataStart(b) <= Shared(a, b) * BLOCK < DataStart(b) + b.reserved * BLOCK
  {
  }

  /** A file of which a byte is 1 is not read as one full of 0. */
  lemma NotAllZero(v: Volume, blocks: nat, k: nat, e: Entry, p: nat)
    requires Tidy(v, blocks) && k < FirstEnd(v.dir) && v.dir[k] == e.(size := e.reserved * BLOCK) && IsLive(e)
    requires DataStart(e) <= p < DataStart(e) + e.reserved * BLOCK && p < |v.disk| && v.disk[p] == 1
    ensures Read(v, e.name) != Some(Full(e, 0).bytes)
  {
    TidyFind(v, blocks, k);
    var at := p - DataStart(e);
    assert Fetched(v.disk, DataStart(e), e.reserved * BLOCK)[at] == 1 && Full(e, 0).bytes[at] == 0;
  }

  /** After `a` is filled with 0 and then `b` with 1, a read of `a` finds a 1 where they overlap. */
  lemma FilledTwice(v: Volume, blocks: nat, i: nat, j: nat) returns (u: Volume, t: Volume)
    requires Tidy(v, blocks) && i < FirstEnd(v.dir) && j < FirstEnd(v.dir) && i != j
    requires IsLive(v.dir[i]) && IsLive(v.dir[j]) && !Apart(v.dir[i], v.dir[j])
    ensures Writes(v, v.dir[i].name, Full(v.dir[i], 0).bytes) && u == Put(v, Full(v.dir[i], 0))
    ensures Writes(u, v.dir[j].name, Full(v.dir[j], 1).bytes) && t == Put(u, Full(v.dir[j], 1))
    ensures Read(t, v.dir[i].name) != Some(Full(v.dir[i], 0).bytes)
  {
    u := PutFull(v, blocks, i, 0);
    assert u.dir[j] == v.dir[j];
    t := PutFull(u, blocks, j, 1);
    SharedByte(v.dir[i], v.dir[j]);
    NotAllZero(t, blocks, i, v.dir[i], Shared(v.dir[i], v.dir[j]) * BLOCK);
  }

  lemma BehavesNext(v: Volume, blocks: nat, m: Contents, w: Writing, ws: seq<Writing>)
    requires Behaves(v, blocks, m, [w] + ws)
    ensures Behaves(Put(v, w), blocks, MapPut(m, v, w), ws) && InData(v, blocks, w)
  {
    assert ([w] + ws)[1..] == ws;
  }

  /** A map gives back what was written before the last write to another file. */
  lemma LastRead(v: Volume, blocks: nat, m: Contents, w: Writing, x: Writing)
    requires Behaves(v, blocks, m, [w] + [x]) && Writes(v, w.name, w.bytes) && w.name != x.name
    ensures Read(Put(Put(v, w), x), w.name) == Some(w.bytes)
  {
    var u, n := Put(v, w), MapPut(m, v, w);
    BehavesNext(v, blocks, m, w, [x]);
    assert [x] + [] == [x];
    BehavesNext(u, blocks, n, x, []);
    assert MapPut(n, u, x)[w.name] == w.bytes;
  }

  lemma Misread(v: Volume, blocks: nat, m: Contents, w: Writing, x: Writing)
    requires Writes(v, w.name, w.bytes) && w.name != x.name && Read(Put(Put(v, w), x), w.name) != Some(w.bytes)
    ensures !IsMap(v, blocks, m)
  {
    if Behaves(v, blocks, m, [w] + [x]) {
      LastRead(v, blocks, m, w, x);
    }
  }

  lemma OverlapMisreads(v: Volume, blocks: nat, m: Contents, i: nat, j: nat)
    requires Tidy(v, blocks) && i < FirstEnd(v.dir) && j < FirstEnd(v.dir) && i != j
    requires IsLive(v.dir[i]) && IsLive(v.dir[j]) && v.dir[i].name != v.dir[j].name
    requires !Apart(v.dir[i], v.dir[j])
    ensures !IsMap(v, blocks, m)
  {
    var u, t := FilledTwice(v, blocks, i, j);
    Misread(v, blocks, m, Full(v.dir[i], 0), Full(v.dir[j], 1));
  }

  /** A tidy volume is a map if and only if its files lie apart and in the data area, and their contents are
      now what the map has. */
  lemma MapExactly(v: Volume, blocks: nat, m: Contents)
    requires Tidy(v, blocks)
    ensures IsMap(v, blocks, m) <==> StandsFor(v, blocks, m)
  {
    if StandsFor(v, blocks, m) {
      StandsForIsMap(v, blocks, m);
    }
    if IsMap(v, blocks, m) {
      MapIsSound(v, blocks, m);
      assert Behaves(v, blocks, m, []);
      forall name ensures Lookup(v, blocks, name) == if name in m then Some(m[name]) else None {
        ReadIsLookup(v, blocks, name);
      }
    }
  }

  lemma MapIsSound(v: Volume, blocks: nat, m: Contents)
    requires Tidy(v, blocks) && IsMap(v, blocks, m)
    ensures Sound(v, blocks)
  {
    forall i | 0 <= i < FirstEnd(v.dir) ensures RecordOk(v.dir[i], blocks) {
      if IsLive(v.dir[i]) {
        MapFilesInData(v, blocks, m, i);
      }
    }
    forall i, j | 0 <= i < j < FirstEnd(v.dir) ensures PairOk(v.dir[i], v.dir[j]) {
      if IsLive(v.dir[i]) && IsLive(v.dir[j]) && !Apart(v.dir[i], v.dir[j]) {
        OverlapMisreads(v, blocks, m, i, j);
      }
    }
  }
}
