/** create, and what whole runs of the commands of Bootloader/BMFS/bmfs.c make of a volume. */
module BmfsRuns {
  import opened Arithmetic
  import opened Bmfs
  import opened BmfsBehaviour
  import opened BmfsLaws
  import opened BmfsSearch

  // ---- create

  /** `n` blocks from `s` on are in the data area and in no live file of the directory. */
  ghost predicate FreeIn(dir: seq<Entry>, s: nat, n: nat, limit: nat) {
    && 1 <= s && s + n <= limit
    && forall i :: 0 <= i < FirstEnd(dir) && IsLive(dir[i]) ==> Disjoint(s, n, dir[i])
  }

  lemma FreeFits(dir: seq<Entry>, s: nat, n: nat, limit: nat)
    ensures FreeIn(dir, s, n, limit) <==> Fits(Files(dir), s, n, limit)
  {
    var d := dir[..FirstEnd(dir)];
    LiveAndGone(d);
    if FreeIn(dir, s, n, limit) {
      forall e | e in Files(dir) ensures Disjoint(s, n, e) {
        var i :| 0 <= i < |d| && d[i] == e;
      }
    } else if 1 <= s && s + n <= limit {
      var i :| 0 <= i < FirstEnd(dir) && IsLive(dir[i]) && !Disjoint(s, n, dir[i]);
      assert d[i] in d;
    }
  }

  /** The directory has no end mark and its first record is free: create, which then counts no records, ends
      the directory after its new one, and these files are lost. */
  ghost predicate CutsOff(dir: seq<Entry>) {
    FirstEnd(dir) == |dir| && FirstFree(dir) == 0 && exists i :: 1 <= i < |dir| && IsLive(dir[i])
  }

  /** `t` has the live records of `dir` and in slot `k` one for an empty file. */
  ghost predicate Adds(dir: seq<Entry>, t: seq<Entry>, k: nat, added: Entry) {
    && |t| == |dir| && k < FirstEnd(t) && t[k] == added
    && (forall i :: 0 <= i < FirstEnd(dir) && IsLive(dir[i]) ==> i != k && i < FirstEnd(t) && t[i] == dir[i])
    && (forall i :: 0 <= i < FirstEnd(t) && i != k ==> i < FirstEnd(dir) && t[i] == dir[i])
  }

  /** Unless it cuts files off, create adds its record and keeps all others. */
  lemma RecordedAdds(dir: seq<Entry>, name: seq<nat>, start: nat, blocks: nat) returns (t: seq<Entry>, k: nat)
    requires FirstFree(dir) < |dir| && Named(name) && !CutsOff(dir)
    ensures t == Recorded(dir, name, start, blocks) && k == FirstFree(dir)
    ensures Adds(dir, t, k, Entry(name, start, blocks, 0))
  {
    t, k := Recorded(dir, name, start, blocks), FirstFree(dir);
    var n := FirstEnd(dir);
    if k == n {
      FirstEndIs(t, n + 1);
    } else if n < |dir| || k > 0 {
      assert IsEnd(dir[k]) ==> k == n;
      FirstEndIs(t, n);
    } else {
      if |dir| > 1 {
        FirstEndIs(t, 1);
      } else {
        FirstEndIs(t, |dir|);
      }
    }
  }

  lemma RecordAdded(v: Volume, t: Volume, blocks: nat, k: nat, added: Entry)
    requires Sound(v, blocks) && t.disk == v.disk && Adds(v.dir, t.dir, k, added) && IsLive(added)
    requires RecordOk(added, blocks) && FreeIn(v.dir, added.start, added.reserved, blocks - 1)
    requires Find(v.dir, added.name) == |v.dir|
    ensures Sound(t, blocks)
  {
    forall i | 0 <= i < FirstEnd(t.dir) ensures RecordOk(t.dir[i], blocks) {
      assert i != k ==> RecordOk(v.dir[i], blocks);
    }
    forall i, j | 0 <= i < j < FirstEnd(t.dir) ensures PairOk(t.dir[i], t.dir[j]) {
      if i != k && j != k {
        assert PairOk(v.dir[i], v.dir[j]);
      } else {
        var o := if i == k then j else i;
        assert IsLive(v.dir[o]) ==> Disjoint(added.start, added.reserved, v.dir[o]);
      }
    }
  }

  lemma AddedFind(dir: seq<Entry>, t: seq<Entry>, k: nat, added: Entry, other: seq<nat>)
    requires Adds(dir, t, k, added) && IsLive(added) && Find(dir, added.name) == |dir|
    ensures Find(t, other) == if other == added.name then k else Find(dir, other)
  {
    var j := Find(dir, other);
    if other == added.name {
      FindIs(t, other, k);
    } else if j < |dir| {
      FindIs(t, other, j);
    }
  }

  lemma SameRecord(v: Volume, t: Volume, blocks: nat, other: seq<nat>)
    requires Sound(v, blocks) && Sound(t, blocks) && t.disk == v.disk && Find(t.dir, other) == Find(v.dir, other)
    requires var j := Find(v.dir, other); j < |v.dir| ==> t.dir[j] == v.dir[j]
    ensures Lookup(t, blocks, other) == Lookup(v, blocks, other)
  {
  }

  lemma EmptySlice(d: seq<nat>, at: nat)
    requires at <= |d|
    ensures d[at..at] == []
  {
  }

  lemma AddedLookup(v: Volume, t: Volume, blocks: nat, k: nat, added: Entry, other: seq<nat>)
    requires Sound(v, blocks) && Sound(t, blocks) && t.disk == v.disk && Adds(v.dir, t.dir, k, added)
    requires IsLive(added) && added.size == 0 && Find(v.dir, added.name) == |v.dir|
    ensures Lookup(t, blocks, other) == if other == added.name then Some([]) else Lookup(v, blocks, other)
  {
    AddedFind(v.dir, t.dir, k, added, other);
    if other == added.name {
      BlockBounds(t.dir[k], blocks);
      EmptySlice(t.disk, DataStart(t.dir[k]));
    } else {
      SameRecord(v, t, blocks, other);
    }
  }

  /** What a create needs of the directory: if it finds a slot and a place, the place is free and no file is
      cut off. */
  ghost predicate Permits(dir: seq<Entry>, name: seq<nat>, maxsize: nat, limit: nat) {
    Creates(dir, name, maxsize, limit) ==>
      FreeIn(dir, Place(dir, Blocks(maxsize), limit), Blocks(maxsize), limit) && !CutsOff(dir)
  }

  lemma CreatedSound(v: Volume, blocks: nat, name: seq<nat>, maxsize: nat) returns (t: Volume, k: nat, added: Entry)
    requires Sound(v, blocks) && Named(name) && Creates(v.dir, name, maxsize, blocks - 1)
    requires Permits(v.dir, name, maxsize, blocks - 1)
    ensures t == v.(dir := Created(v.dir, name, maxsize, blocks - 1)) && Sound(t, blocks)
    ensures Adds(v.dir, t.dir, k, added) && IsLive(added) && added.name == name && added.size == 0
  {
    var b := Blocks(maxsize);
    var s := Place(v.dir, b, blocks - 1);
    var d;
    d, k := RecordedAdds(v.dir, name, s, b);
    t, added := v.(dir := d), Entry(name, s, b, 0);
    RecordAdded(v, t, blocks, k, added);
  }

  /** A successful create adds an empty file, and no create changes another one. */
  lemma CreateLaw(v: Volume, blocks: nat, name: seq<nat>, maxsize: nat, other: seq<nat>)
    requires Sound(v, blocks) && Named(name) && Permits(v.dir, name, maxsize, blocks - 1)
    ensures var t := v.(dir := Created(v.dir, name, maxsize, blocks - 1));
            && Sound(t, blocks)
            && Lookup(t, blocks, other) ==
               (if other == name && Creates(v.dir, name, maxsize, blocks - 1) then Some([])
                else Lookup(v, blocks, other))
  {
    if Creates(v.dir, name, maxsize, blocks - 1) {
      var t, k, added := CreatedSound(v, blocks, name, maxsize);
      AddedLookup(v, t, blocks, k, added, other);
    }
  }

  /** After a create that cuts files off nothing is found any more but the new file. */
  lemma CutOffLosesFiles(dir: seq<Entry>, name: seq<nat>, maxsize: nat, limit: nat, other: seq<nat>)
    requires CutsOff(dir) && Named(name) && Creates(dir, name, maxsize, limit) && other != name
    ensures Find(Created(dir, name, maxsize, limit), other) == |dir|
  {
    var t := Created(dir, name, maxsize, limit);
    FirstEndIs(t, 1);
  }

  // ---- Which creates are permitted

  lemma SoundHoles(v: Volume, blocks: nat)
    requires Sound(v, blocks)
    ensures AllGone(Holes(v.dir), blocks - 1) && AllApart(Files(v.dir)) && InDisk(Files(v.dir), blocks - 1)
  {
    var d := v.dir[..FirstEnd(v.dir)];
    LiveAndGone(d);
    forall x | x in d ensures RecordOk(x, blocks) {
      var i :| 0 <= i < |d| && d[i] == x;
      assert RecordOk(v.dir[i], blocks);
    }
    forall i, j | 0 <= i < j < |d| && IsLive(d[i]) && IsLive(d[j]) ensures Apart(d[i], d[j]) {
      assert PairOk(v.dir[i], v.dir[j]);
    }
    LiveApart(d);
  }

  /** With an end mark, a create of at least one block that finds a place is permitted if and only if the
      guard of the search holds. */
  lemma PermittedExactly(v: Volume, blocks: nat, name: seq<nat>, maxsize: nat)
    requires Sound(v, blocks) && 2 * blocks <= MODULUS && FirstEnd(v.dir) < |v.dir|
    requires 1 <= Blocks(maxsize) && maxsize < MODULUS && Creates(v.dir, name, maxsize, blocks - 1)
    ensures Permits(v.dir, name, maxsize, blocks - 1)
            <==> Guard(SortedCopy(Files(v.dir)), Holes(v.dir), Blocks(maxsize), blocks - 1)
  {
    SoundHoles(v, blocks);
    CreateRightExactly(v.dir, Blocks(maxsize), blocks - 1);
    FreeFits(v.dir, Place(v.dir, Blocks(maxsize), blocks - 1), Blocks(maxsize), blocks - 1);
  }

  /** Without one, if and only if no file is cut off and none begins before the new one at block 1 ends. */
  lemma FullPermittedExactly(v: Volume, blocks: nat, name: seq<nat>, maxsize: nat)
    requires Sound(v, blocks) && FirstEnd(v.dir) == |v.dir| && Creates(v.dir, name, maxsize, blocks - 1)
    ensures Permits(v.dir, name, maxsize, blocks - 1) <==>
            !CutsOff(v.dir) && forall i :: 0 <= i < |v.dir| && IsLive(v.dir[i]) ==>
              1 + Blocks(maxsize) <= v.dir[i].start || End(v.dir[i]) == 1
  {
    FullDirectoryIgnored(v.dir, Blocks(maxsize), blocks - 1);
    forall i | 0 <= i < |v.dir| && IsLive(v.dir[i])
      ensures Disjoint(1, Blocks(maxsize), v.dir[i]) <==> 1 + Blocks(maxsize) <= v.dir[i].start || End(v.dir[i]) == 1
    {
      assert RecordOk(v.dir[i], blocks);
    }
  }

  /** Without deleted records and empty files every create is permitted. */
  lemma CleanPermits(v: Volume, blocks: nat, name: seq<nat>, maxsize: nat)
    requires Sound(v, blocks) && blocks <= MODULUS && Holes(v.dir) == []
    requires forall x :: x in Files(v.dir) ==> 1 <= x.reserved
    ensures Permits(v.dir, name, maxsize, blocks - 1)
  {
    if Creates(v.dir, name, maxsize, blocks - 1) {
      HasEnd(v.dir);
      if Blocks(maxsize) == 0 {
        EmptyPermits(v, blocks, name, maxsize);
      } else {
        SoundHoles(v, blocks);
        CreateFirstFit(v.dir, Blocks(maxsize), blocks - 1);
        FreeFits(v.dir, Place(v.dir, Blocks(maxsize), blocks - 1), Blocks(maxsize), blocks - 1);
      }
    }
  }

  lemma HasEnd(dir: seq<Entry>)
    requires FirstFree(dir) < |dir| && Holes(dir) == []
    ensures FirstEnd(dir) < |dir|
  {
    var d := dir[..FirstEnd(dir)];
    LiveAndGone(d);
    forall i | 0 <= i < |d| ensures !IsDeleted(d[i]) {
      assert d[i] in d;
    }
    assert forall i :: 0 <= i < FirstEnd(dir) ==> dir[i] == d[i];
  }

  /** With an end mark a file of no blocks always is. */
  lemma EmptyPermits(v: Volume, blocks: nat, name: seq<nat>, maxsize: nat)
    requires Sound(v, blocks) && FirstEnd(v.dir) < |v.dir| && Blocks(maxsize) == 0
    ensures Permits(v.dir, name, maxsize, blocks - 1)
  {
    EmptyFileAtOne(v.dir, blocks - 1);
    forall i | 0 <= i < FirstEnd(v.dir) && IsLive(v.dir[i]) ensures Disjoint(1, 0, v.dir[i]) {
      assert RecordOk(v.dir[i], blocks);
    }
  }

  /** No live record is of an empty file. */
  ghost predicate Filled(dir: seq<Entry>) {
    forall i :: 0 <= i < FirstEnd(dir) && IsLive(dir[i]) ==> 1 <= dir[i].reserved
  }

  lemma FilledSolid(v: Volume, blocks: nat, x: Entry)
    requires Sound(v, blocks) && Filled(v.dir) && x in v.dir[..FirstEnd(v.dir)] && IsLive(x)
    ensures Solid(x, blocks - 1)
  {
    var i :| 0 <= i < FirstEnd(v.dir) && v.dir[i] == x;
    assert RecordOk(v.dir[i], blocks);
  }

  lemma FilledFilesSolid(v: Volume, blocks: nat)
    requires Sound(v, blocks) && Filled(v.dir)
    ensures forall x :: x in Files(v.dir) ==> Solid(x, blocks - 1)
  {
    LiveAndGone(v.dir[..FirstEnd(v.dir)]);
    forall x | x in Files(v.dir) ensures Solid(x, blocks - 1) {
      FilledSolid(v, blocks, x);
    }
  }

  lemma FilesApart(v: Volume, blocks: nat)
    requires Sound(v, blocks)
    ensures AllApart(Files(v.dir))
  {
    SoundHoles(v, blocks);
  }

  /** Files that are not empty never step back when sorted. */
  lemma FilledOrdered(v: Volume, blocks: nat)
    requires Sound(v, blocks) && Filled(v.dir)
    ensures Ordered(SortedCopy(Files(v.dir)), 1, blocks - 1)
  {
    FilledFilesSolid(v, blocks);
    FilesApart(v, blocks);
    SolidOrdered(Files(v.dir), blocks - 1);
  }

  /** The guard of create. If there is no file of the name and a slot for it: with an end mark, the files
      leave a place or no deleted record offers one; without one, there is no room for it on the disk, or no
      file is cut off and none begins before a new file at block 1 ends. */
  ghost predicate Guarded(dir: seq<Entry>, name: seq<nat>, n: nat, limit: nat) {
    Find(dir, name) == |dir| && FirstFree(dir) < |dir| ==>
      if FirstEnd(dir) < |dir| then Covered(SortedCopy(Files(dir)), Holes(dir), n, limit)
      else 1 + n > limit || (!CutsOff(dir) && forall i :: 0 <= i < |dir| && IsLive(dir[i]) ==> 1 + n <= dir[i].start)
  }

  /** Among files that are not empty a create of at least one block is permitted if and only if the guard
      holds. */
  lemma GuardedExactly(v: Volume, blocks: nat, name: seq<nat>, maxsize: nat)
    requires Sound(v, blocks) && Filled(v.dir) && 2 * blocks <= MODULUS && 1 <= Blocks(maxsize) && maxsize < MODULUS
    ensures Permits(v.dir, name, maxsize, blocks - 1) <==> Guarded(v.dir, name, Blocks(maxsize), blocks - 1)
  {
    if FirstEnd(v.dir) < |v.dir| {
      FilledOrdered(v, blocks);
      if Creates(v.dir, name, maxsize, blocks - 1) {
        PermittedExactly(v, blocks, name, maxsize);
      } else if Place(v.dir, Blocks(maxsize), blocks - 1) == 0 {
        SoundHoles(v, blocks);
        CreateRightExactly(v.dir, Blocks(maxsize), blocks - 1);
      }
    } else {
      FullDirectoryIgnored(v.dir, Blocks(maxsize), blocks - 1);
      if Creates(v.dir, name, maxsize, blocks - 1) {
        FullPermittedExactly(v, blocks, name, maxsize);
        assert forall i :: 0 <= i < |v.dir| && IsLive(v.dir[i]) ==> RecordOk(v.dir[i], blocks);
      }
    }
  }

  // ---- What a create makes of a map

  /** At a place that is taken the new file overlaps another, or leaves the data area. */
  lemma TakenPlaceUnsound(v: Volume, t: Volume, blocks: nat, k: nat, added: Entry)
    requires Sound(v, blocks) && Adds(v.dir, t.dir, k, added) && IsLive(added) && 1 <= added.start
    requires !FreeIn(v.dir, added.start, added.reserved, blocks - 1)
    ensures !Sound(t, blocks)
  {
    if End(added) <= blocks - 1 {
      var i :| 0 <= i < FirstEnd(v.dir) && IsLive(v.dir[i]) && !Disjoint(added.start, added.reserved, v.dir[i]);
      assert t.dir[i] == v.dir[i] && i != k;
      assert !PairOk(t.dir[i], t.dir[k]) && !PairOk(t.dir[k], t.dir[i]);
    } else {
      assert !RecordOk(t.dir[k], blocks);
    }
  }

  /** Right after a create that cuts nothing off every read is right, wherever the new file lies. */
  lemma ReadsAfterCreate(v: Volume, blocks: nat, m: Contents, name: seq<nat>, maxsize: nat)
    requires StandsFor(v, blocks, m) && Named(name) && Creates(v.dir, name, maxsize, blocks - 1) && !CutsOff(v.dir)
    ensures Reads(v.(dir := Created(v.dir, name, maxsize, blocks - 1)), m[name := []])
  {
    var b := Blocks(maxsize);
    var s := Place(v.dir, b, blocks - 1);
    var d, k := RecordedAdds(v.dir, name, s, b);
    var t, n := v.(dir := d), m[name := []];
    StandsForReads(v, blocks, m);
    forall other ensures Read(t, other) == if other in n then Some(n[other]) else None {
      AddedFind(v.dir, d, k, Entry(name, s, b, 0), other);
      assert Read(v, other) == if other in m then Some(m[other]) else None;
    }
  }

  lemma CreatedTidy(v: Volume, blocks: nat, name: seq<nat>, maxsize: nat) returns (t: Volume, k: nat, added: Entry)
    requires Sound(v, blocks) && Filled(v.dir) && Named(name) && Creates(v.dir, name, maxsize, blocks - 1)
    requires !CutsOff(v.dir) && 1 <= Blocks(maxsize)
    ensures t == v.(dir := Created(v.dir, name, maxsize, blocks - 1)) && Tidy(t, blocks) && Filled(t.dir)
    ensures added == Entry(name, Place(v.dir, Blocks(maxsize), blocks - 1), Blocks(maxsize), 0)
    ensures Adds(v.dir, t.dir, k, added)
  {
    var b := Blocks(maxsize);
    var s := Place(v.dir, b, blocks - 1);
    var d;
    d, k := RecordedAdds(v.dir, name, s, b);
    t, added := v.(dir := d), Entry(name, s, b, 0);
    forall i, j | 0 <= i < j < FirstEnd(d) && IsLive(d[i]) && IsLive(d[j]) ensures d[i].name != d[j].name {
      assert i != k && j != k ==> PairOk(v.dir[i], v.dir[j]);
    }
    forall i | 0 <= i < FirstEnd(d) && i != k ensures RecordOk(d[i], blocks) {
      assert RecordOk(v.dir[i], blocks);
    }
  }

  /** After a create in a map the volume is the map with a new empty file, if and only if the create was
      permitted. */
  lemma CreateExactly(v: Volume, blocks: nat, m: Contents, name: seq<nat>, maxsize: nat)
    requires StandsFor(v, blocks, m) && Filled(v.dir) && Named(name) && 1 <= Blocks(maxsize)
    requires Creates(v.dir, name, maxsize, blocks - 1)
    ensures IsMap(v.(dir := Created(v.dir, name, maxsize, blocks - 1)), blocks, m[name := []])
            <==> Permits(v.dir, name, maxsize, blocks - 1)
  {
    if CutsOff(v.dir) {
      CutOffMisreads(v, blocks, m, name, maxsize);
    } else {
      var t, k, added := CreatedTidy(v, blocks, name, maxsize);
      MapExactly(t, blocks, m[name := []]);
      if Permits(v.dir, name, maxsize, blocks - 1) {
        CreatedStandsFor(v, blocks, m, name, maxsize);
      } else {
        TakenPlaceUnsound(v, t, blocks, k, added);
      }
    }
  }

  lemma CreatedStandsFor(v: Volume, blocks: nat, m: Contents, name: seq<nat>, maxsize: nat)
    requires StandsFor(v, blocks, m) && Named(name) && Permits(v.dir, name, maxsize, blocks - 1)
    requires Creates(v.dir, name, maxsize, blocks - 1)
    ensures StandsFor(v.(dir := Created(v.dir, name, maxsize, blocks - 1)), blocks, m[name := []])
  {
    var t, n := v.(dir := Created(v.dir, name, maxsize, blocks - 1)), m[name := []];
    CreateLaw(v, blocks, name, maxsize, []);
    forall other ensures Lookup(t, blocks, other) == if other in n then Some(n[other]) else None {
      CreateLaw(v, blocks, name, maxsize, other);
    }
  }

  /** A file that is cut off is not found any more. */
  lemma CutOffMisreads(v: Volume, blocks: nat, m: Contents, name: seq<nat>, maxsize: nat)
    requires StandsFor(v, blocks, m) && Named(name) && Creates(v.dir, name, maxsize, blocks - 1) && CutsOff(v.dir)
    ensures !IsMap(v.(dir := Created(v.dir, name, maxsize, blocks - 1)), blocks, m[name := []])
  {
    var i :| 1 <= i < |v.dir| && IsLive(v.dir[i]);
    var t, lost := v.(dir := Created(v.dir, name, maxsize, blocks - 1)), v.dir[i].name;
    CutOffLosesFiles(v.dir, name, maxsize, blocks - 1, lost);
    assert Lookup(v, blocks, lost) != None && Read(t, lost) == None;
    assert !Reads(t, m[name := []]);
    assert !Behaves(t, blocks, m[name := []], []);
  }

  // ---- create in numbers

  /** The new record is the one that is found, and is of half as many blocks as MiB were asked for, rounded up. */
  lemma CreatedReserves(dir: seq<Entry>, name: seq<nat>, maxsize: nat, limit: nat) returns (t: seq<Entry>, k: nat)
    requires Named(name) && maxsize < MODULUS - 1 && Creates(dir, name, maxsize, limit)
    ensures t == Created(dir, name, maxsize, limit) && |t| == |dir| && k == Find(t, name) == FirstFree(dir) < |t|
    ensures 2 * t[k].reserved == maxsize || 2 * t[k].reserved == maxsize + 1
    ensures t[k].size == 0 && t[k].start == Place(dir, t[k].reserved, limit)
  {
    t, k := Created(dir, name, maxsize, limit), FirstFree(dir);
    FindIs(t, name, k);
  }

  /** So after a create whatever fits in the size that was asked for can be written and is then read. */
  lemma CreatedHolds(v: Volume, blocks: nat, name: seq<nat>, filesize: Size, bytes: seq<nat>)
    requires blocks > 0 && Named(name) && 1 <= filesize && Creates(v.dir, name, filesize, blocks - 1)
    requires |bytes| <= filesize * 1048576
    ensures var t := Step(v, blocks, Create(name, filesize));
            && Read(t, name) == Some([])
            && Read(Step(t, blocks, Write(name, bytes)), name) == Some(bytes)
  {
    var t, k := CreatedReserves(v.dir, name, filesize, blocks - 1);
    WriteExactly(v.(dir := t), Writing(name, bytes));
  }

  // ---- Runs

  /** What `filesize` can be after atoi: the variable is of 32 bits. */
  type Size = n: nat | n < 0x1_0000_0000

  datatype Op =
    | Format
    | Create(name: seq<nat>, filesize: Size)
    | Write(name: seq<nat>, bytes: seq<nat>)
    | Delete(name: seq<nat>)

  /** A command; create with a size of 0 is refused. */
  function Step(v: Volume, blocks: nat, op: Op): Volume
    requires blocks > 0
  {
    match op
    case Format => Formatted(v)
    case Create(name, filesize) =>
      if filesize >= 1 then v.(dir := Created(v.dir, name, filesize, blocks - 1)) else v
    case Write(name, bytes) => Put(v, Writing(name, bytes))
    case Delete(name) => v.(dir := Deleted(v.dir, name))
  }

  /** What it does to the map that the volume is. */
  function MapStep(m: Contents, v: Volume, blocks: nat, op: Op): Contents
    requires blocks > 0
  {
    match op
    case Format => map[]
    case Create(name, filesize) =>
      if filesize >= 1 && Creates(v.dir, name, filesize, blocks - 1) then m[name := []] else m
    case Write(name, bytes) => MapPut(m, v, Writing(name, bytes))
    case Delete(name) => m - {name}
  }

  ghost predicate Good(v: Volume, blocks: nat, op: Op)
    requires blocks > 0
  {
    op.Create? && op.filesize >= 1 ==> Guarded(v.dir, op.name, Blocks(op.filesize), blocks - 1)
  }

  ghost predicate AllNamed(ops: seq<Op>) { forall op :: op in ops && op.Create? ==> Named(op.name) }

  lemma FormattedStandsFor(v: Volume, blocks: nat)
    requires 2 <= blocks && blocks * BLOCK <= |v.disk|
    ensures StandsFor(Formatted(v), blocks, map[]) && Filled(Formatted(v).dir)
  {
    FormatEmpties(v, blocks, []);
    forall name ensures Lookup(Formatted(v), blocks, name) == None {
      FormatEmpties(v, blocks, name);
    }
  }

  lemma DeletedStandsFor(v: Volume, blocks: nat, m: Contents, name: seq<nat>)
    requires StandsFor(v, blocks, m) && Filled(v.dir)
    ensures var t := v.(dir := Deleted(v.dir, name)); StandsFor(t, blocks, m - {name}) && Filled(t.dir)
  {
    var u, k := DeletedSound(v, blocks, name);
    forall other ensures Lookup(u, blocks, other) == if other in m - {name} then Some((m - {name})[other]) else None {
      DeleteLaw(v, blocks, name, other);
    }
  }

  lemma PutFilled(v: Volume, blocks: nat, w: Writing)
    requires Sound(v, blocks) && Filled(v.dir)
    ensures Filled(Put(v, w).dir)
  {
    if Writes(v, w.name, w.bytes) {
      FindSame(v.dir, Put(v, w).dir, w.name);
    }
  }

  /** A command keeps a map of files that are not empty one, if its create meets the guard. */
  lemma StepStandsFor(v: Volume, blocks: nat, m: Contents, op: Op)
    requires StandsFor(v, blocks, m) && Filled(v.dir) && 2 * blocks <= MODULUS
    requires Good(v, blocks, op) && (op.Create? ==> Named(op.name))
    ensures StandsFor(Step(v, blocks, op), blocks, MapStep(m, v, blocks, op)) && Filled(Step(v, blocks, op).dir)
  {
    match op {
      case Format => FormattedStandsFor(v, blocks);
      case Create(name, filesize) =>
        if filesize >= 1 && Creates(v.dir, name, filesize, blocks - 1) {
          GuardedExactly(v, blocks, name, filesize);
          CreatedStandsFor(v, blocks, m, name, filesize);
          var t, k, added := CreatedTidy(v, blocks, name, filesize);
        }
      case Write(name, bytes) =>
        PutStandsFor(v, blocks, m, Writing(name, bytes));
        PutFilled(v, blocks, Writing(name, bytes));
      case Delete(name) => DeletedStandsFor(v, blocks, m, name);
    }
  }

  /** A command does to the volume what it does to the map, if and only if its create meets the guard. */
  lemma StepLaw(v: Volume, blocks: nat, m: Contents, op: Op)
    requires StandsFor(v, blocks, m) && Filled(v.dir) && 2 * blocks <= MODULUS && (op.Create? ==> Named(op.name))
    ensures IsMap(Step(v, blocks, op), blocks, MapStep(m, v, blocks, op)) <==> Good(v, blocks, op)
  {
    if Good(v, blocks, op) {
      StepStandsFor(v, blocks, m, op);
      StandsForIsMap(Step(v, blocks, op), blocks, MapStep(m, v, blocks, op));
    } else {
      GuardedExactly(v, blocks, op.name, op.filesize);
      CreateExactly(v, blocks, m, op.name, op.filesize);
    }
  }

  ghost predicate AllGood(v: Volume, blocks: nat, ops: seq<Op>)
    requires blocks > 0
    decreases |ops|
  {
    ops == [] || (Good(v, blocks, ops[0]) && AllGood(Step(v, blocks, ops[0]), blocks, ops[1..]))
  }

  /** All through the run the volume is the map that the commands make. */
  ghost predicate AlwaysMap(v: Volume, blocks: nat, m: Contents, ops: seq<Op>)
    requires blocks > 0
    decreases |ops|
  {
    && IsMap(v, blocks, m)
    && (ops == [] || AlwaysMap(Step(v, blocks, ops[0]), blocks, MapStep(m, v, blocks, ops[0]), ops[1..]))
  }

  lemma {:induction false} RunLaw(v: Volume, blocks: nat, m: Contents, ops: seq<Op>)
    requires StandsFor(v, blocks, m) && Filled(v.dir) && 2 * blocks <= MODULUS && AllNamed(ops)
    ensures AlwaysMap(v, blocks, m, ops) <==> AllGood(v, blocks, ops)
    decreases |ops|
  {
    StandsForIsMap(v, blocks, m);
    if ops != [] {
      StepLaw(v, blocks, m, ops[0]);
      if Good(v, blocks, ops[0]) {
        StepStandsFor(v, blocks, m, ops[0]);
        RunLaw(Step(v, blocks, ops[0]), blocks, MapStep(m, v, blocks, ops[0]), ops[1..]);
      }
    }
  }

  /** From a format on, all through any run of commands the volume is the map that they make, if and only if
      every create meets its guard. */
  lemma VolumeIsMap(v: Volume, blocks: nat, ops: seq<Op>)
    requires 2 <= blocks && 2 * blocks <= MODULUS && blocks * BLOCK <= |v.disk| && AllNamed(ops)
    ensures AlwaysMap(Formatted(v), blocks, map[], ops) <==> AllGood(Formatted(v), blocks, ops)
  {
    FormattedStandsFor(v, blocks);
    RunLaw(Formatted(v), blocks, map[], ops);
  }

  function After(v: Volume, blocks: nat, ops: seq<Op>): Volume
    requires blocks > 0
    decreases |ops|
  {
    if ops == [] then v else After(Step(v, blocks, ops[0]), blocks, ops[1..])
  }

  lemma {:induction false} RunStandsFor(v: Volume, blocks: nat, m: Contents, ops: seq<Op>) returns (n: Contents)
    requires StandsFor(v, blocks, m) && Filled(v.dir) && 2 * blocks <= MODULUS
    requires AllNamed(ops) && AllGood(v, blocks, ops)
    ensures StandsFor(After(v, blocks, ops), blocks, n) && Filled(After(v, blocks, ops).dir)
    decreases |ops|
  {
    if ops == [] {
      n := m;
    } else {
      StepStandsFor(v, blocks, m, ops[0]);
      n := RunStandsFor(Step(v, blocks, ops[0]), blocks, MapStep(m, v, blocks, ops[0]), ops[1..]);
    }
  }

  /** In such runs no file is empty, so none ever steps back when sorted, and the search goes wrong only over
      deleted records. */
  lemma NeverStepsBack(v: Volume, blocks: nat, ops: seq<Op>)
    requires 2 <= blocks && 2 * blocks <= MODULUS && blocks * BLOCK <= |v.disk| && AllNamed(ops)
    requires AllGood(Formatted(v), blocks, ops)
    ensures var t := After(Formatted(v), blocks, ops);
            Filled(t.dir) && Ordered(SortedCopy(Files(t.dir)), 1, blocks - 1)
  {
    FormattedStandsFor(v, blocks);
    var n := RunStandsFor(Formatted(v), blocks, map[], ops);
    FilledOrdered(After(Formatted(v), blocks, ops), blocks);
  }

  /** No run writes to the first block, but for the directory in it. */
  lemma {:induction false} FirstBlockKept(v: Volume, blocks: nat, m: Contents, ops: seq<Op>)
    requires StandsFor(v, blocks, m) && Filled(v.dir) && 2 * blocks <= MODULUS
    requires AllNamed(ops) && AllGood(v, blocks, ops)
    ensures |After(v, blocks, ops).disk| == |v.disk| && After(v, blocks, ops).disk[..BLOCK] == v.disk[..BLOCK]
    decreases |ops|
  {
    if ops != [] {
      if ops[0].Write? {
        PutIsWritten(v, blocks, Writing(ops[0].name, ops[0].bytes));
        WriteLaw(v, blocks, ops[0].name, ops[0].bytes, []);
      }
      StepStandsFor(v, blocks, m, ops[0]);
      FirstBlockKept(Step(v, blocks, ops[0]), blocks, MapStep(m, v, blocks, ops[0]), ops[1..]);
    }
  }
}
