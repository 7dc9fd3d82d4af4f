/** The commands of Bootloader/BMFS/bmfs.c on a disk: the directory buffer, which each change flushes, and
    the bytes of the disk. */
module BmfsDisk {
  import opened Arithmetic
  import opened Bmfs
  import opened BmfsBehaviour
  import opened BmfsLaws
  import BmfsRuns

  datatype Outcome = Done | InvalidSize | FileExists | NoEntry | NoSpace | NotFound | TooLarge

  class Disk {
    const directory: array<Entry>
    const bytes: array<nat>
    const blocks: nat

    ghost function Contents(): (v: Volume)
      reads directory, bytes
      ensures |v.dir| == directory.Length && |v.disk| == bytes.Length
    {
      Volume(directory[..], bytes[..])
    }

    ghost predicate Valid()
      reads directory, bytes
    {
      directory.Length == SLOTS && blocks <= MODULUS && Sound(Contents(), blocks)
    }

    constructor (directory: array<Entry>, bytes: array<nat>, blocks: nat)
      ensures this.directory == directory && this.bytes == bytes && this.blocks == blocks
    {
      this.directory, this.bytes, this.blocks := directory, bytes, blocks;
    }

    /** findfile; the answer is the number of slots if there is no such file. */
    method FindFile(name: seq<nat>) returns (slot: nat)
      requires directory.Length == SLOTS
      ensures slot == Find(directory[..], name)
    {
      ghost var dir := directory[..];
      slot := 0;
      while slot < SLOTS
        invariant slot <= SLOTS && slot <= FirstEnd(dir)
        invariant forall i :: 0 <= i < slot && IsLive(dir[i]) ==> dir[i].name != name
      {
        var entry := directory[slot];
        if IsEnd(entry) {
          FirstEndIs(dir, slot);
          return SLOTS;
        } else if IsDeleted(entry) {
        } else if entry.name == name {
          NotEndYet(dir, slot);
          FindIs(dir, name, slot);
          return slot;
        }
        NotEndYet(dir, slot);
        slot := slot + 1;
      }
    }

    method Format()
      requires directory.Length == SLOTS
      modifies directory
      ensures Contents() == Formatted(old(Contents()))
    {
      forall i | 0 <= i < directory.Length {
        directory[i] := Entry([], 0, 0, 0);
      }
    }

    /** The first loop of create: the records in use and the slot for a new one, or -1. */
    method Survey() returns (numUsed: nat, firstFree: int)
      requires directory.Length == SLOTS
      ensures numUsed == NumUsed(directory[..])
      ensures firstFree == (if FirstFree(directory[..]) == SLOTS then -1 else FirstFree(directory[..]))
    {
      ghost var dir := directory[..];
      numUsed, firstFree := 0, -1;
      var i := 0;
      while i < SLOTS
        invariant i <= SLOTS && i <= FirstEnd(dir) && numUsed == 0
        invariant firstFree == if FirstFree(dir) < i then FirstFree(dir) else -1
      {
        NotFreeYet(dir, i);
        if IsEnd(directory[i]) {
          FirstEndIs(dir, i);
          numUsed := i;
          if firstFree == -1 {
            firstFree := i;
          }
          return;
        } else if IsDeleted(directory[i]) {
          if firstFree == -1 {
            firstFree := i;
          }
        }
        NotEndYet(dir, i);
        i := i + 1;
      }
    }

    /** The search of create through the sorted copy. */
    method Search(sorted: seq<Entry>, request: nat, limit: nat) returns (start: nat)
      ensures start == Scan(sorted, 1, request, limit)
    {
      start := 0;
      var prevEnd: nat, i := 1, 0;
      while i < |sorted| + 1
        invariant i <= |sorted| + 1
        invariant i <= |sorted| ==> Scan(sorted, 1, request, limit) == Scan(sorted[i..], prevEnd, request, limit)
        invariant i > |sorted| ==> Scan(sorted, 1, request, limit) == 0
      {
        var thisStart := limit;
        if i < |sorted| && !IsDeleted(sorted[i]) {
          thisStart := sorted[i].start;
        }
        if Room(prevEnd, thisStart) >= request {
          start := prevEnd;
          return;
        }
        if i < |sorted| {
          assert sorted[i..][1..] == sorted[i + 1..];
          prevEnd := sorted[i].start + sorted[i].reserved;
        }
        i := i + 1;
      }
    }

    /** The create command of main. */
    method CreateCommand(name: seq<nat>, filesize: BmfsRuns.Size) returns (outcome: Outcome)
      requires directory.Length == SLOTS && blocks > 0
      modifies directory
      ensures Contents() == BmfsRuns.Step(old(Contents()), blocks, BmfsRuns.Create(name, filesize))
      ensures outcome == InvalidSize <==> filesize == 0
      ensures outcome == Done <==> filesize >= 1 && Creates(old(directory[..]), name, filesize, blocks - 1)
    {
      if filesize >= 1 {
        outcome := Create(name, filesize);
      } else {
        outcome := InvalidSize;
      }
    }

    method Create(name: seq<nat>, maxsize: nat) returns (outcome: Outcome)
      requires directory.Length == SLOTS && blocks > 0
      modifies directory
      ensures outcome in {Done, FileExists, NoEntry, NoSpace}
      ensures var d := old(Contents()).dir;
              && directory[..] == Created(d, name, maxsize, blocks - 1)
              && (outcome == Done <==> Creates(d, name, maxsize, blocks - 1))
              && (outcome == FileExists <==> Find(d, name) < SLOTS)
              && (outcome == NoEntry <==> Find(d, name) == SLOTS && FirstFree(d) == SLOTS)
              && (outcome == NoSpace <==>
                  Find(d, name) == SLOTS && FirstFree(d) < SLOTS && Place(d, Blocks(maxsize), blocks - 1) == 0)
    {
      ghost var d := directory[..];
      var request := Evened(maxsize) / 2;
      var slot := FindFile(name);
      if slot < SLOTS { return FileExists; }
      var numUsed, firstFree := Survey();
      if firstFree == -1 { return NoEntry; }
      var start := Search(SortedCopy(directory[..numUsed]), request, blocks - 1);
      assert directory[..numUsed] == d[..NumUsed(d)] && request == Blocks(maxsize);
      if start == 0 { return NoSpace; }
      Record(firstFree, numUsed, Entry(name, start, request, 0));
      return Done;
    }

    /** The last statements of create: the record, and the end mark after it. */
    method Record(slot: nat, numUsed: nat, entry: Entry)
      requires directory.Length == SLOTS
      requires numUsed == NumUsed(directory[..]) && slot == FirstFree(directory[..]) < SLOTS
      requires entry.size == 0
      modifies directory
      ensures directory[..] == Recorded(old(directory[..]), entry.name, entry.start, entry.reserved)
    {
      directory[slot] := entry;
      if slot == numUsed && numUsed + 1 < SLOTS {
        directory[numUsed + 1] := directory[numUsed + 1].(name := []);
      }
    }

    /** read: what goes to the local file, or None for a name that is not there. */
    method Read(name: seq<nat>) returns (r: Option<seq<nat>>)
      requires directory.Length == SLOTS
      ensures r == BmfsBehaviour.Read(Contents(), name)
      ensures Valid() ==> r == Lookup(Contents(), blocks, name)
    {
      if Valid() { ReadIsLookup(Contents(), blocks, name); }
      var slot := FindFile(name);
      if slot == SLOTS { return None; }
      var entry := directory[slot];
      var at, i, out := entry.start * BLOCK, 0, [];
      while i < entry.size
        invariant i <= entry.size && out == Fetched(bytes[..], at, i)
      {
        out := out + [if at + i < bytes.Length then bytes[at + i] else 255];
        i := i + 1;
      }
      r := Some(out);
    }

    method Write(name: seq<nat>, data: seq<nat>) returns (outcome: Outcome)
      requires Valid()
      modifies directory, bytes
      ensures Valid() && Contents() == Put(old(Contents()), Writing(name, data))
      ensures outcome == (if Find(old(directory[..]), name) == SLOTS then NotFound
                          else if |data| <= old(directory[Find(directory[..], name)]).reserved * 2097152 then Done
                          else TooLarge)
    {
      ghost var v := Contents();
      WriteLaw(v, blocks, name, data, name);
      PutIsWritten(v, blocks, Writing(name, data));
      var slot := FindFile(name);
      if slot == SLOTS { return NotFound; }
      if directory[slot].reserved * BLOCK < |data| { return TooLarge; }
      BlockBounds(directory[slot], blocks);
      CopyTo(directory[slot].start * BLOCK, data);
      directory[slot] := directory[slot].(size := |data|);
      assert Contents() == Written(v, blocks, name, data);
      return Done;
    }

    method CopyTo(at: nat, data: seq<nat>)
      requires at + |data| <= bytes.Length
      modifies bytes
      ensures bytes[..] == old(bytes[..at]) + data + old(bytes[at + |data|..])
    {
      var i := 0;
      while i < |data|
        invariant i <= |data|
        invariant forall j :: 0 <= j < i ==> bytes[at + j] == data[j]
        invariant forall j :: 0 <= j < bytes.Length && !(at <= j < at + i) ==> bytes[j] == old(bytes[j])
      {
        bytes[at + i] := data[i];
        i := i + 1;
      }
      assert bytes[at..at + |data|] == data;
    }

    method Delete(name: seq<nat>) returns (outcome: Outcome)
      requires directory.Length == SLOTS
      modifies directory
      ensures directory[..] == Deleted(old(directory[..]), name)
      ensures outcome == if Find(old(directory[..]), name) == SLOTS then NotFound else Done
    {
      var slot := FindFile(name);
      if slot == SLOTS { return NotFound; }
      directory[slot] := directory[slot].(name := [1] + directory[slot].name[1..]);
      return Done;
    }
  }

  lemma NotEndYet(dir: seq<Entry>, i: nat)
    requires i < |dir| && i <= FirstEnd(dir) && !IsEnd(dir[i])
    ensures i < FirstEnd(dir)
  {
  }

  lemma NotFreeYet(dir: seq<Entry>, i: nat)
    requires i < |dir|
    ensures FirstFree(dir) == i ==> !IsLive(dir[i])
    ensures FirstFree(dir) > i ==> IsLive(dir[i])
    ensures FirstFree(dir) >= i && !IsLive(dir[i]) ==> FirstFree(dir) == i
  {
  }
}
