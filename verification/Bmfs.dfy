/** The directory of Bootloader/BMFS/bmfs.c on values: 64 records, and the first-fit search of create. */
module Bmfs {
  import opened Arithmetic

  const SLOTS: nat := 64
  const BLOCK: nat := 2097152

  /** A directory record; its name is what comes before the first NUL, so a record that begins with a NUL
      has the empty name.  Names are sequences of character codes. */
  datatype Entry = Entry(name: seq<nat>, start: nat, reserved: nat, size: nat)

  predicate IsEnd(e: Entry) { e.name == [] }

  predicate IsDeleted(e: Entry) { e.name != [] && e.name[0] == 1 }

  predicate IsLive(e: Entry) { !IsEnd(e) && !IsDeleted(e) }

  function End(e: Entry): nat { e.start + e.reserved }

  /** Names that can be given to a file. */
  predicate Named(name: seq<nat>) { 1 <= |name| <= 31 && name[0] > 1 && 0 !in name }

  /** Where the directory ends. */
  function FirstEnd(dir: seq<Entry>): (k: nat)
    ensures k <= |dir| && (k < |dir| ==> IsEnd(dir[k])) && forall i :: 0 <= i < k ==> !IsEnd(dir[i])
  {
    if dir == [] || IsEnd(dir[0]) then 0 else 1 + FirstEnd(dir[1..])
  }

  /** findfile: the slot of the live record with this name, or the number of slots. */
  function Find(dir: seq<Entry>, name: seq<nat>): (k: nat)
    ensures k <= |dir| && (k < |dir| ==> k < FirstEnd(dir) && IsLive(dir[k]) && dir[k].name == name)
    ensures k == |dir| ==> forall i :: 0 <= i < FirstEnd(dir) && IsLive(dir[i]) ==> dir[i].name != name
    ensures forall i :: 0 <= i < k && i < FirstEnd(dir) && IsLive(dir[i]) ==> dir[i].name != name
  {
    if dir == [] then 0
    else if IsEnd(dir[0]) then |dir|
    else if IsLive(dir[0]) && dir[0].name == name then 0
    else 1 + Find(dir[1..], name)
  }

  // ---- create

  /** The number of records that create counts: none if the directory has no end mark. */
  function NumUsed(dir: seq<Entry>): nat {
    if FirstEnd(dir) == |dir| then 0 else FirstEnd(dir)
  }

  /** The slot for a new record: the first deleted one, else the end mark, else none. */
  function FirstFree(dir: seq<Entry>): (k: nat)
    ensures k <= |dir| && (k < |dir| ==> !IsLive(dir[k]))
    ensures k <= FirstEnd(dir) && forall i :: 0 <= i < k ==> IsLive(dir[i])
  {
    if dir == [] || !IsLive(dir[0]) then 0 else 1 + FirstFree(dir[1..])
  }

  /** The order of StartingBlockCmp: deleted records last, the others by starting block. */
  predicate Later(a: Entry, b: Entry) {
    !IsDeleted(b) && (IsDeleted(a) || a.start > b.start)
  }

  function Inserted(s: seq<Entry>, e: Entry): seq<Entry> {
    if s == [] || !Later(s[|s| - 1], e) then s + [e]
    else Inserted(s[..|s| - 1], e) + [s[|s| - 1]]
  }

  /** The sorted copy of the directory, in which records that compare equal keep their order. */
  function SortedCopy(dir: seq<Entry>): seq<Entry> {
    if dir == [] then [] else Inserted(SortedCopy(dir[..|dir| - 1]), dir[|dir| - 1])
  }

  /** The difference of two words in unsigned arithmetic: one that would be negative wraps round. */
  function Room(from: nat, to: nat): int { if from <= to then to - from else to - from + MODULUS }

  /** The search for `request` blocks after `prevEnd`: 0 if there is no place. */
  function Scan(sorted: seq<Entry>, prevEnd: nat, request: nat, limit: nat): nat
    decreases |sorted|
  {
    if sorted == [] then if Room(prevEnd, limit) >= request then prevEnd else 0
    else if Room(prevEnd, if IsDeleted(sorted[0]) then limit else sorted[0].start) >= request then prevEnd
    else Scan(sorted[1..], End(sorted[0]), request, limit)
  }

  /** The block at which create puts a new file, or 0. */
  function Place(dir: seq<Entry>, request: nat, limit: nat): nat {
    Scan(SortedCopy(dir[..NumUsed(dir)]), 1, request, limit)
  }

  /** The size rounded up to an even number; the largest word wraps round to 0. */
  function Evened(maxsize: nat): nat {
    if maxsize % 2 == 0 then maxsize else if maxsize == MODULUS - 1 then 0 else maxsize + 1
  }

  function Blocks(maxsize: nat): nat { Evened(maxsize) / 2 }

  /** The directory with a new record in its first free slot, and an end mark after it if that slot was
      the end. */
  function Recorded(dir: seq<Entry>, name: seq<nat>, start: nat, blocks: nat): (t: seq<Entry>)
    requires FirstFree(dir) < |dir|
    ensures |t| == |dir|
  {
    var k := FirstFree(dir);
    var d := dir[k := Entry(name, start, blocks, 0)];
    if k == NumUsed(dir) && k + 1 < |dir| then d[k + 1 := d[k + 1].(name := [])] else d
  }

  predicate Creates(dir: seq<Entry>, name: seq<nat>, maxsize: nat, limit: nat) {
    Find(dir, name) == |dir| && FirstFree(dir) < |dir| && Place(dir, Blocks(maxsize), limit) != 0
  }

  function Created(dir: seq<Entry>, name: seq<nat>, maxsize: nat, limit: nat): (t: seq<Entry>)
    ensures |t| == |dir|
  {
    if Creates(dir, name, maxsize, limit)
    then Recorded(dir, name, Place(dir, Blocks(maxsize), limit), Blocks(maxsize))
    else dir
  }

  function Deleted(dir: seq<Entry>, name: seq<nat>): (t: seq<Entry>)
    ensures |t| == |dir|
  {
    var k := Find(dir, name);
    if k < |dir| then dir[k := dir[k].(name := [1] + dir[k].name[1..])] else dir
  }

  // ---- First fit

  predicate Disjoint(s: nat, n: nat, e: Entry) { s + n <= e.start || End(e) <= s }

  /** `n` blocks from `s` on are in the data area and in no file of the list. */
  ghost predicate Fits(files: seq<Entry>, s: nat, n: nat, limit: nat) {
    1 <= s && s + n <= limit && forall e :: e in files ==> Disjoint(s, n, e)
  }
}
