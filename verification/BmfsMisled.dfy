/** Runs from a formatted disk that end in a create that goes wrong, and exactly when they do: files in a row,
    one of them deleted. */
module BmfsMisled {
  import opened Arithmetic
  import opened Bmfs
  import opened BmfsBehaviour
  import opened BmfsLaws
  import opened BmfsRuns
  import opened BmfsSearch

  lemma {:induction false} RunSnoc(v: Volume, blocks: nat, ops: seq<Op>, op: Op)
    requires blocks > 0
    ensures AllGood(v, blocks, ops + [op]) <==> AllGood(v, blocks, ops) && Good(After(v, blocks, ops), blocks, op)
    ensures After(v, blocks, ops + [op]) == Step(After(v, blocks, ops), blocks, op)
    decreases |ops|
  {
    if ops == [] {
      assert ops + [op] == [op] && [op][1..] == [];
    } else {
      assert (ops + [op])[1..] == ops[1..] + [op];
      RunSnoc(Step(v, blocks, ops[0]), blocks, ops[1..], op);
    }
  }

  // ---- Files in a row

  /** The directory holds files of one block each, in a row from block 1 on. */
  ghost predicate InARow(dir: seq<Entry>, names: seq<seq<nat>>) {
    && FirstEnd(dir) == |names|
    && forall i :: 0 <= i < |names| ==> dir[i] == Entry(names[i], i + 1, 1, 0)
  }

  ghost predicate Distinct(names: seq<seq<nat>>) {
    && (forall i, j :: 0 <= i < j < |names| ==> names[i] != names[j])
    && (forall i :: 0 <= i < |names| ==> Named(names[i]))
  }

  function RowOps(names: seq<seq<nat>>): seq<Op> {
    if names == [] then [] else RowOps(names[..|names| - 1]) + [Create(names[|names| - 1], 2)]
  }

  lemma {:induction false} RowStaysSorted(s: seq<Entry>)
    requires forall i :: 0 <= i < |s| ==> IsLive(s[i]) && s[i].start == i + 1
    ensures SortedCopy(s) == s
  {
    if s != [] {
      RowStaysSorted(s[..|s| - 1]);
      assert s == s[..|s| - 1] + [s[|s| - 1]];
    }
  }

  lemma {:induction false} ScanRow(s: seq<Entry>, first: nat, limit: nat)
    requires forall i :: 0 <= i < |s| ==> IsLive(s[i]) && s[i].start == first + i && s[i].reserved == 1
    requires first + |s| + 1 <= limit
    ensures Scan(s, first, 1, limit) == first + |s|
    decreases |s|
  {
    if s != [] {
      ScanRow(s[1..], first + 1, limit);
    }
  }

  lemma PlaceAfterRow(dir: seq<Entry>, names: seq<seq<nat>>, limit: nat)
    requires |dir| == SLOTS && InARow(dir, names) && |names| < SLOTS && |names| + 2 <= limit && Distinct(names)
    ensures Place(dir, 1, limit) == |names| + 1
  {
    var s := dir[..|names|];
    RowStaysSorted(s);
    ScanRow(s, 1, limit);
  }

  lemma RowFree(dir: seq<Entry>, names: seq<seq<nat>>, name: seq<nat>)
    requires |dir| == SLOTS && InARow(dir, names) && Distinct(names) && name !in names
    ensures Find(dir, name) == |dir| && FirstFree(dir) == |names|
  {
    assert forall i :: 0 <= i < |names| ==> names[i] in names;
  }

  lemma RowRecorded(dir: seq<Entry>, names: seq<seq<nat>>, name: seq<nat>, limit: nat) returns (t: seq<Entry>)
    requires |dir| == SLOTS && InARow(dir, names) && |names| < SLOTS && |names| + 2 <= limit
    requires Distinct(names) && Named(name) && name !in names
    ensures t == Created(dir, name, 2, limit) && |t| == SLOTS && InARow(t, names + [name])
  {
    PlaceAfterRow(dir, names, limit);
    RowFree(dir, names, name);
    var k;
    t, k := RecordedAdds(dir, name, |names| + 1, 1);
  }

  lemma {:induction false} NoneGone(dir: seq<Entry>)
    requires forall i :: 0 <= i < |dir| ==> !IsDeleted(dir[i])
    ensures GoneOf(dir) == []
  {
    if dir != [] {
      NoneGone(dir[..|dir| - 1]);
    }
  }

  lemma RowGood(dir: seq<Entry>, names: seq<seq<nat>>, name: seq<nat>, limit: nat)
    requires |dir| == SLOTS && InARow(dir, names) && Distinct(names) && |names| < SLOTS
    ensures Guarded(dir, name, 1, limit)
  {
    NoneGone(dir[..|names|]);
  }

  /** The row's commands meet their guards and lead to `u`, which holds the row. */
  ghost predicate Leads(f: Volume, blocks: nat, names: seq<seq<nat>>, u: Volume)
    requires blocks > 0
  {
    && AllGood(f, blocks, RowOps(names)) && u == After(f, blocks, RowOps(names))
    && |u.dir| == SLOTS && InARow(u.dir, names)
  }

  lemma RowOpsSnoc(names: seq<seq<nat>>, name: seq<nat>)
    ensures RowOps(names + [name]) == RowOps(names) + [Create(name, 2)]
  {
    assert (names + [name])[..|names|] == names;
  }

  lemma RowStep(f: Volume, blocks: nat, names: seq<seq<nat>>, u: Volume, name: seq<nat>) returns (t: Volume)
    requires |names| < SLOTS && |names| + 3 <= blocks && Leads(f, blocks, names, u)
    requires Distinct(names) && Named(name) && name !in names
    ensures Leads(f, blocks, names + [name], t)
  {
    RowGood(u.dir, names, name, blocks - 1);
    assert Good(u, blocks, Create(name, 2));
    var d := RowRecorded(u.dir, names, name, blocks - 1);
    t := u.(dir := d);
    assert t == Step(u, blocks, Create(name, 2));
    RunSnoc(f, blocks, RowOps(names), Create(name, 2));
    RowOpsSnoc(names, name);
  }

  /** Creating files of one block each puts them in a row. */
  lemma {:induction false} RowRun(v: Volume, blocks: nat, names: seq<seq<nat>>) returns (u: Volume)
    requires Distinct(names) && |names| <= SLOTS && |names| + 2 <= blocks && blocks * BLOCK <= |v.disk|
    ensures Leads(Formatted(v), blocks, names, u)
  {
    if names == [] {
      u := Formatted(v);
    } else {
      var init, name := names[..|names| - 1], names[|names| - 1];
      var s := RowRun(v, blocks, init);
      u := RowStep(Formatted(v), blocks, init, s, name);
      assert names == init + [name];
    }
  }

  // ---- A delete in the row

  /** The row with the file at `k` deleted. */
  ghost predicate Gap(dir: seq<Entry>, names: seq<seq<nat>>, k: nat) {
    && |dir| == SLOTS && FirstEnd(dir) == |names| && k < |names|
    && (forall i :: 0 <= i < |names| && i != k ==> dir[i] == Entry(names[i], i + 1, 1, 0))
    && IsDeleted(dir[k]) && dir[k].start == k + 1 && dir[k].reserved == 1
  }

  lemma RowDeleted(dir: seq<Entry>, names: seq<seq<nat>>, k: nat) returns (t: seq<Entry>)
    requires |dir| == SLOTS && InARow(dir, names) && Distinct(names) && k < |names|
    ensures t == Deleted(dir, names[k]) && Gap(t, names, k)
  {
    t := Deleted(dir, names[k]);
    FindIs(dir, names[k], k);
    FirstEndIs(t, |names|);
  }

  lemma GapParts(dir: seq<Entry>, names: seq<seq<nat>>, k: nat)
    requires Gap(dir, names, k) && Distinct(names)
    ensures forall e :: e in Files(dir) <==> exists i :: 0 <= i < |names| && i != k && dir[i] == e
    ensures forall d :: d in Holes(dir) <==> d == dir[k]
  {
    var d := dir[..|names|];
    LiveAndGone(d);
    assert forall i :: 0 <= i < |names| ==> d[i] == dir[i];
  }

  /** Such a directory has a place of one block, and the one after the row. */
  lemma GapPlaces(dir: seq<Entry>, names: seq<seq<nat>>, k: nat, n: nat, limit: nat)
    requires Gap(dir, names, k) && Distinct(names) && k + 1 < |names| < limit && 1 <= n
    ensures HasPlace(Files(dir), n, limit) <==> n == 1 || |names| + 1 + n <= limit
  {
    GapParts(dir, names, k);
    if n == 1 {
      assert Fits(Files(dir), k + 1, n, limit);
    } else if |names| + 1 + n <= limit {
      assert Fits(Files(dir), |names| + 1, n, limit);
    } else {
      forall t: nat | 1 <= t && t + n <= limit ensures !Fits(Files(dir), t, n, limit) {
        var i := if t == k + 1 then k + 1 else t - 1;
        assert dir[i] in Files(dir) && !Disjoint(t, n, dir[i]);
      }
    }
  }

  lemma GapGuarded(dir: seq<Entry>, names: seq<seq<nat>>, k: nat, name: seq<nat>, n: nat, limit: nat)
    requires Gap(dir, names, k) && Distinct(names) && k + 1 < |names| < limit && |names| < SLOTS && 1 <= n
    requires Find(dir, name) == |dir|
    ensures Guarded(dir, name, n, limit) <==> n == 1 || |names| + 1 + n <= limit || limit < k + 2 + n
  {
    GapPlaces(dir, names, k, n, limit);
    GapParts(dir, names, k);
    SortedElements(Files(dir));
    SameAnswers(SortedCopy(Files(dir)), Files(dir), 0, n, limit);
    assert dir[k] in Holes(dir) && End(dir[k]) == k + 2;
    assert FirstFree(dir) < |dir| && FirstEnd(dir) < |dir|;
  }

  lemma GapFind(dir: seq<Entry>, names: seq<seq<nat>>, k: nat, name: seq<nat>)
    requires Gap(dir, names, k) && Distinct(names) && (name == names[k] || name !in names)
    ensures Find(dir, name) == |dir|
  {
    forall i | 0 <= i < |names| && IsLive(dir[i]) ensures dir[i].name != name {
      assert i != k && names[i] in names;
    }
  }

  /** Of a row of files one but the last is deleted. The next create then goes right exactly if it is of one
      block, or fits after the row, or is of more than lies between the deleted file and the end of the disk. */
  lemma DeleteInRowExactly(v: Volume, blocks: nat, names: seq<seq<nat>>, k: nat, name: seq<nat>, filesize: Size)
    requires Distinct(names) && k + 1 < |names| < SLOTS && |names| + 2 <= blocks && blocks * BLOCK <= |v.disk|
    requires Named(name) && (name == names[k] || name !in names) && 1 <= filesize
    ensures AllGood(Formatted(v), blocks, RowOps(names) + [Delete(names[k])])
    ensures AllGood(Formatted(v), blocks, RowOps(names) + [Delete(names[k])] + [Create(name, filesize)]) <==>
            Blocks(filesize) == 1 || |names| + 1 + Blocks(filesize) < blocks || blocks <= k + 2 + Blocks(filesize)
  {
    var u := RowRun(v, blocks, names);
    var t := RowDeleted(u.dir, names, k);
    RunSnoc(Formatted(v), blocks, RowOps(names), Delete(names[k]));
    RunSnoc(Formatted(v), blocks, RowOps(names) + [Delete(names[k])], Create(name, filesize));
    GapFind(t, names, k, name);
    GapGuarded(t, names, k, name, Blocks(filesize), blocks - 1);
  }

  /** Of 64 files in a row the first is deleted. The next create then cuts off all the others, if it is not
      too large for the disk. */
  lemma FullRowCutOffExactly(v: Volume, blocks: nat, names: seq<seq<nat>>, name: seq<nat>, filesize: Size)
    requires Distinct(names) && |names| == SLOTS && SLOTS + 2 <= blocks && blocks * BLOCK <= |v.disk|
    requires Named(name) && (name == names[0] || name !in names) && 1 <= filesize
    ensures AllGood(Formatted(v), blocks, RowOps(names) + [Delete(names[0])])
    ensures var t := After(Formatted(v), blocks, RowOps(names) + [Delete(names[0])]);
            && CutsOff(t.dir) && (Creates(t.dir, name, filesize, blocks - 1) <==> 1 + Blocks(filesize) < blocks)
            && (Good(t, blocks, Create(name, filesize)) <==> !Creates(t.dir, name, filesize, blocks - 1))
  {
    var u := RowRun(v, blocks, names);
    var t := RowDeleted(u.dir, names, 0);
    RunSnoc(Formatted(v), blocks, RowOps(names), Delete(names[0]));
    GapFind(t, names, 0, name);
    FullDirectoryIgnored(t, Blocks(filesize), blocks - 1);
    assert IsLive(t[1]) && FirstFree(t) == 0;
  }
}
