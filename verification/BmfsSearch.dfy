/** When the first-fit search of Bootloader/BMFS/bmfs.c is right, with deleted records and empty files in the
    directory and without. */
module BmfsSearch {
  import opened Arithmetic
  import opened Bmfs

  /** No record begins before the one ahead of it ends. */
  predicate Ordered(sorted: seq<Entry>, prevEnd: nat, limit: nat) {
    if sorted == [] then prevEnd <= limit
    else !IsDeleted(sorted[0]) && prevEnd <= sorted[0].start && Ordered(sorted[1..], End(sorted[0]), limit)
  }

  lemma {:induction false} OrderedBounds(sorted: seq<Entry>, prevEnd: nat, limit: nat, e: Entry)
    requires Ordered(sorted, prevEnd, limit)
    ensures prevEnd <= limit && (e in sorted ==> prevEnd <= e.start && End(e) <= limit)
  {
    if sorted != [] {
      if e != sorted[0] && e in sorted {
        assert e in sorted[1..];
      }
      OrderedBounds(sorted[1..], End(sorted[0]), limit, e);
      OrderedBounds(sorted[1..], End(sorted[0]), limit, sorted[0]);
    }
  }

  /** In a list that never steps back the search finds the lowest place, and fails only if there is none. */
  lemma {:induction false} ScanFirstFit(sorted: seq<Entry>, prevEnd: nat, n: nat, limit: nat)
    requires Ordered(sorted, prevEnd, limit) && 0 < n && 1 <= prevEnd && limit < MODULUS
    ensures var s := Scan(sorted, prevEnd, n, limit);
            && (s != 0 ==> prevEnd <= s && Fits(sorted, s, n, limit))
            && forall t :: prevEnd <= t && (s == 0 || t < s) ==> !Fits(sorted, t, n, limit)
    decreases |sorted|
  {
    var s := Scan(sorted, prevEnd, n, limit);
    if sorted != [] {
      var e, rest := sorted[0], sorted[1..];
      OrderedBounds(sorted, prevEnd, limit, e);
      OrderedBounds(rest, End(e), limit, e);
      assert sorted == [e] + rest;
      if s == prevEnd && e.start - prevEnd >= n {
        forall f | f in sorted ensures Disjoint(s, n, f) {
          OrderedBounds(rest, End(e), limit, f);
        }
      } else {
        ScanFirstFit(rest, End(e), n, limit);
        forall t | prevEnd <= t && (s == 0 || t < s) ensures !Fits(sorted, t, n, limit) {
          if Disjoint(t, n, e) {
            assert t >= End(e);
            assert !Fits(rest, t, n, limit);
          }
        }
      }
    }
  }

  /** The search through live and deleted records answers for the live ones. */
  ghost predicate RightFor(live: seq<Entry>, gone: seq<Entry>, n: nat, limit: nat) {
    Answers(live, Scan(live + gone, 1, n, limit), n, limit)
  }

  /** `s` is the lowest place for `n` blocks among the files, or 0 if there is none. */
  ghost predicate Answers(files: seq<Entry>, s: nat, n: nat, limit: nat) {
    && (s != 0 ==> Fits(files, s, n, limit))
    && forall t :: 1 <= t && (s == 0 || t < s) ==> !Fits(files, t, n, limit)
  }

  ghost predicate InDisk(files: seq<Entry>, limit: nat) {
    forall e :: e in files ==> IsLive(e) && 1 <= e.start && End(e) <= limit
  }

  /** When a live record steps back, the unsigned difference passes for room without end. */
  lemma {:induction false} StepBackOverflows(live: seq<Entry>, gone: seq<Entry>, prevEnd: nat, limit: nat)
    requires InDisk(live, limit) && 2 * limit < MODULUS && 1 <= prevEnd <= limit
    requires !Ordered(live, prevEnd, limit)
    ensures Scan(live + gone, prevEnd, limit, limit) != 0
    decreases |live|
  {
    var e := live[0];
    assert e in live && (live + gone)[1..] == live[1..] + gone;
    if prevEnd <= e.start {
      forall f | f in live[1..] ensures f in live {
      }
      StepBackOverflows(live[1..], gone, End(e), limit);
    }
  }

  // ---- Deleted records

  /** What the search makes of deleted records: each is taken for the last file on the disk. */
  function AfterDeleted(gone: seq<Entry>, n: nat, limit: nat): nat {
    if gone == [] then 0
    else if limit - End(gone[0]) >= n then End(gone[0])
    else AfterDeleted(gone[1..], n, limit)
  }

  ghost predicate AllGone(gone: seq<Entry>, limit: nat) {
    forall x :: x in gone ==> IsDeleted(x) && 1 <= End(x) <= limit
  }

  lemma {:induction false} ScanGone(gone: seq<Entry>, prevEnd: nat, n: nat, limit: nat)
    requires AllGone(gone, limit) && prevEnd <= limit < MODULUS
    ensures Scan(gone, prevEnd, n, limit) == if limit - prevEnd >= n then prevEnd else AfterDeleted(gone, n, limit)
    decreases |gone|
  {
    if gone != [] {
      assert gone[0] in gone;
      ScanGone(gone[1..], End(gone[0]), n, limit);
    }
  }

  lemma {:induction false} ScanMixed(live: seq<Entry>, gone: seq<Entry>, prevEnd: nat, n: nat, limit: nat)
    requires Ordered(live, prevEnd, limit) && AllGone(gone, limit) && 1 <= prevEnd && limit < MODULUS
    ensures Scan(live + gone, prevEnd, n, limit) ==
            if Scan(live, prevEnd, n, limit) != 0 then Scan(live, prevEnd, n, limit) else AfterDeleted(gone, n, limit)
    decreases |live|
  {
    if live == [] {
      assert live + gone == gone;
      ScanGone(gone, prevEnd, n, limit);
    } else {
      assert (live + gone)[1..] == live[1..] + gone;
      ScanMixed(live[1..], gone, End(live[0]), n, limit);
    }
  }

  lemma {:induction false} AfterDeletedAnswers(gone: seq<Entry>, n: nat, limit: nat)
    requires AllGone(gone, limit)
    ensures AfterDeleted(gone, n, limit) == 0 <==> forall d :: d in gone ==> limit - End(d) < n
  {
    if gone != [] {
      assert gone == [gone[0]] + gone[1..];
      AfterDeletedAnswers(gone[1..], n, limit);
    }
  }

  ghost predicate HasPlace(files: seq<Entry>, n: nat, limit: nat) {
    exists t :: Fits(files, t, n, limit)
  }

  /** The live files have a place for the request, or no deleted record leaves as much between its end and
      the end of the disk. */
  ghost predicate Covered(live: seq<Entry>, gone: seq<Entry>, n: nat, limit: nat) {
    HasPlace(live, n, limit) || forall d :: d in gone ==> limit - End(d) < n
  }

  /** Over live records that never step back the search is right for a request if and only if this holds. */
  lemma OrderedExactly(live: seq<Entry>, gone: seq<Entry>, n: nat, limit: nat)
    requires Ordered(live, 1, limit) && AllGone(gone, limit) && limit < MODULUS && 1 <= n
    ensures RightFor(live, gone, n, limit) <==> Covered(live, gone, n, limit)
    ensures var s := Scan(live + gone, 1, n, limit);
            (s != 0 ==> Fits(live, s, n, limit)) <==> Covered(live, gone, n, limit)
  {
    ScanFirstFit(live, 1, n, limit);
    ScanMixed(live, gone, 1, n, limit);
    AfterDeletedAnswers(gone, n, limit);
    var s := Scan(live, 1, n, limit);
    assert s != 0 ==> HasPlace(live, n, limit);
    assert s == 0 ==> !HasPlace(live, n, limit);
  }

  // ---- A step back

  /** Where the file ends that the first record to step back steps back from. */
  function Corner(sorted: seq<Entry>, prevEnd: nat): nat {
    if sorted == [] || sorted[0].start < prevEnd then prevEnd else Corner(sorted[1..], End(sorted[0]))
  }

  lemma {:induction false} CornerAfter(sorted: seq<Entry>, prevEnd: nat)
    ensures prevEnd <= Corner(sorted, prevEnd)
    ensures sorted != [] && prevEnd <= sorted[0].start ==> End(sorted[0]) <= Corner(sorted, prevEnd)
    decreases |sorted|
  {
    if sorted != [] && prevEnd <= sorted[0].start {
      CornerAfter(sorted[1..], End(sorted[0]));
    }
  }

  ghost predicate ByStart(s: seq<Entry>) { forall i, j :: 0 <= i < j < |s| ==> s[i].start <= s[j].start }

  lemma BeforeAll(files: seq<Entry>, s: nat, n: nat, limit: nat)
    requires InDisk(files, limit) && ByStart(files) && files != [] && 1 <= s && s + n <= files[0].start
    ensures Fits(files, s, n, limit)
  {
    assert files[0] in files;
    forall f | f in files ensures Disjoint(s, n, f) {
      var i :| 0 <= i < |files| && files[i] == f;
    }
  }

  lemma NoneBeforeNext(e: Entry, rest: seq<Entry>, prevEnd: nat, s: nat, n: nat, limit: nat)
    requires prevEnd <= e.start < prevEnd + n && forall t :: End(e) <= t < s ==> !Fits(rest, t, n, limit)
    ensures forall t :: prevEnd <= t < s ==> !Fits([e] + rest, t, n, limit)
  {
    forall t | prevEnd <= t < s ensures !Fits([e] + rest, t, n, limit) {
      assert e in [e] + rest && forall f :: f in rest ==> f in [e] + rest;
      if Disjoint(t, n, e) {
        assert !Fits(rest, t, n, limit);
      }
    }
  }

  /** The search gets no further than the corner: it answers the first place before it or else the corner
      itself, whatever comes after. */
  lemma {:induction false} ScanToCorner(live: seq<Entry>, gone: seq<Entry>, prevEnd: nat, n: nat, limit: nat)
    requires InDisk(live, limit) && ByStart(live) && 1 <= prevEnd <= limit && 1 <= n && n + limit <= MODULUS
    requires !Ordered(live, prevEnd, limit)
    ensures var s := Scan(live + gone, prevEnd, n, limit);
            && prevEnd <= s <= Corner(live, prevEnd)
            && (s < Corner(live, prevEnd) ==> Fits(live, s, n, limit))
            && forall t :: prevEnd <= t < s ==> !Fits(live, t, n, limit)
    decreases |live|
  {
    var e, rest := live[0], live[1..];
    assert e in live && live == [e] + rest && (live + gone)[1..] == rest + gone;
    CornerAfter(live, prevEnd);
    if prevEnd <= e.start && e.start - prevEnd < n {
      assert forall f :: f in rest ==> f in live;
      ScanToCorner(rest, gone, End(e), n, limit);
      NoneBeforeNext(e, rest, prevEnd, Scan(live + gone, prevEnd, n, limit), n, limit);
    } else if prevEnd <= e.start {
      BeforeAll(live, prevEnd, n, limit);
    }
  }

  /** When a record steps back the search is right for a request if and only if there is a place at the
      corner or before it. */
  lemma StepBackExactly(live: seq<Entry>, gone: seq<Entry>, n: nat, limit: nat)
    requires InDisk(live, limit) && ByStart(live) && 1 <= limit && 1 <= n && n + limit <= MODULUS
    requires !Ordered(live, 1, limit)
    ensures RightFor(live, gone, n, limit) <==> exists t: nat :: t <= Corner(live, 1) && Fits(live, t, n, limit)
    ensures Fits(live, Scan(live + gone, 1, n, limit), n, limit) <==> RightFor(live, gone, n, limit)
    ensures Scan(live + gone, 1, n, limit) != 0
  {
    ScanToCorner(live, gone, 1, n, limit);
  }

  /** The condition for one request. */
  ghost predicate Guard(live: seq<Entry>, gone: seq<Entry>, n: nat, limit: nat) {
    if Ordered(live, 1, limit) then Covered(live, gone, n, limit)
    else exists t: nat :: t <= Corner(live, 1) && Fits(live, t, n, limit)
  }

  /** The search is right for a request, and the place that it finds is free, if and only if it holds. */
  lemma RequestExactly(live: seq<Entry>, gone: seq<Entry>, n: nat, limit: nat)
    requires InDisk(live, limit) && ByStart(live) && AllGone(gone, limit)
    requires 1 <= limit < MODULUS && 1 <= n && n + limit <= MODULUS
    ensures RightFor(live, gone, n, limit) <==> Guard(live, gone, n, limit)
    ensures var s := Scan(live + gone, 1, n, limit);
            (s != 0 ==> Fits(live, s, n, limit)) <==> Guard(live, gone, n, limit)
  {
    if Ordered(live, 1, limit) {
      OrderedExactly(live, gone, n, limit);
    } else {
      StepBackExactly(live, gone, n, limit);
    }
  }

  lemma Smaller(files: seq<Entry>, t: nat, big: nat, n: nat, limit: nat)
    requires Fits(files, t, big, limit) && n <= big
    ensures Fits(files, t, n, limit)
  {
    forall e | e in files ensures Disjoint(t, n, e) {
      assert Disjoint(t, big, e);
    }
  }

  /** The condition, for every request: for each deleted record the live files leave a place as large as what
      lies between its end and the end of the disk. */
  ghost predicate Roomy(live: seq<Entry>, gone: seq<Entry>, limit: nat) {
    forall d :: d in gone && End(d) < limit ==> HasPlace(live, limit - End(d), limit)
  }

  lemma RoomyGuards(live: seq<Entry>, gone: seq<Entry>, n: nat, limit: nat)
    requires AllGone(gone, limit) && Roomy(live, gone, limit) && 1 <= n
    ensures Covered(live, gone, n, limit)
  {
    forall d | d in gone && limit - End(d) >= n ensures HasPlace(live, n, limit) {
      var t :| Fits(live, t, limit - End(d), limit);
      Smaller(live, t, limit - End(d), n, limit);
    }
  }

  /** The search is right for every request if and only if the live records never step back and leave room
      for what each deleted record offers. */
  lemma SearchExactly(live: seq<Entry>, gone: seq<Entry>, limit: nat)
    requires InDisk(live, limit) && AllGone(gone, limit) && 1 <= limit && 2 * limit < MODULUS
    ensures (forall n :: 1 <= n ==> RightFor(live, gone, n, limit)) <==>
            Ordered(live, 1, limit) && Roomy(live, gone, limit)
  {
    if !Ordered(live, 1, limit) {
      StepBackOverflows(live, gone, 1, limit);
      assert !RightFor(live, gone, limit, limit);
    } else if Roomy(live, gone, limit) {
      forall n | 1 <= n ensures RightFor(live, gone, n, limit) {
        RoomyGuards(live, gone, n, limit);
        OrderedExactly(live, gone, n, limit);
      }
    } else {
      var d :| d in gone && End(d) < limit && !HasPlace(live, limit - End(d), limit);
      OrderedExactly(live, gone, limit - End(d), limit);
      assert !RightFor(live, gone, limit - End(d), limit);
    }
  }

  // ---- The sorted copy

  ghost predicate Apart(a: Entry, b: Entry) { End(a) <= b.start || End(b) <= a.start }

  ghost predicate Solid(e: Entry, limit: nat) {
    IsLive(e) && 1 <= e.start && 1 <= e.reserved && End(e) <= limit
  }

  ghost predicate Spaced(s: seq<Entry>, i: nat)
    requires i + 1 < |s|
  {
    End(s[i]) <= s[i + 1].start
  }

  ghost predicate AllSpaced(s: seq<Entry>) { forall i: nat :: i + 1 < |s| ==> Spaced(s, i) }

  /** A record goes between those that begin no later and those that begin later. */
  lemma {:induction false} InsertedAt(s: seq<Entry>, e: Entry) returns (p: nat)
    requires IsLive(e) && forall x :: x in s ==> IsLive(x)
    ensures p <= |s| && Inserted(s, e) == s[..p] + [e] + s[p..]
    ensures p > 0 ==> s[p - 1].start <= e.start
    ensures p < |s| ==> e.start < s[p].start
  {
    if s == [] || !Later(s[|s| - 1], e) {
      p := |s|;
    } else {
      var n := |s| - 1;
      assert s[n] in s;
      p := InsertedAt(s[..n], e);
      assert s[..n][..p] == s[..p] && s[..n][p..] + [s[n]] == s[p..];
    }
  }

  lemma InsertedSpaced(s: seq<Entry>, e: Entry, limit: nat)
    requires AllSpaced(s) && Solid(e, limit) && forall x :: x in s ==> Solid(x, limit) && Apart(x, e)
    ensures AllSpaced(Inserted(s, e)) && forall x :: x in Inserted(s, e) <==> x in s || x == e
  {
    var p := InsertedAt(s, e);
    var t := Inserted(s, e);
    assert s == s[..p] + s[p..];
    forall i: nat | i + 1 < |t| ensures Spaced(t, i) {
      if i + 1 < p {
        assert Spaced(s, i);
      } else if i + 1 == p {
        assert s[i] in s && t[i] == s[i] && t[i + 1] == e;
      } else if i == p {
        assert s[p] in s && t[i] == e && t[i + 1] == s[p];
      } else {
        assert Spaced(s, i - 1) && t[i] == s[i - 1] && t[i + 1] == s[i];
      }
    }
  }

  lemma {:induction false} SpacedOrdered(s: seq<Entry>, prevEnd: nat, limit: nat)
    requires AllSpaced(s) && (forall x :: x in s ==> Solid(x, limit)) && prevEnd <= limit
    requires s != [] ==> prevEnd <= s[0].start
    ensures Ordered(s, prevEnd, limit)
    decreases |s|
  {
    if s != [] {
      var rest := s[1..];
      assert s[0] in s;
      forall i: nat | i + 1 < |rest| ensures Spaced(rest, i) {
        assert Spaced(s, i + 1);
      }
      assert |s| > 1 ==> Spaced(s, 0);
      SpacedOrdered(rest, End(s[0]), limit);
    }
  }

  lemma InsertedByStart(s: seq<Entry>, e: Entry)
    requires ByStart(s) && IsLive(e) && forall x :: x in s ==> IsLive(x)
    ensures ByStart(Inserted(s, e))
  {
    var p := InsertedAt(s, e);
    var t := Inserted(s, e);
    assert forall i :: 0 <= i < |t| ==> t[i] == if i < p then s[i] else if i == p then e else s[i - 1];
    assert forall i :: 0 <= i < p ==> s[i].start <= e.start;
    assert forall i :: p <= i < |s| ==> e.start <= s[i].start;
  }

  lemma {:induction false} SortedByStart(dir: seq<Entry>)
    requires forall x :: x in dir ==> IsLive(x)
    ensures ByStart(SortedCopy(dir))
  {
    if dir != [] {
      var init, e := dir[..|dir| - 1], dir[|dir| - 1];
      assert forall x :: x in init ==> x in dir;
      SortedByStart(init);
      SortedElements(init);
      InsertedByStart(SortedCopy(init), e);
    }
  }

  lemma {:induction false} InsertedElements(s: seq<Entry>, e: Entry)
    ensures forall x :: x in Inserted(s, e) <==> x in s || x == e
  {
    if s != [] && Later(s[|s| - 1], e) {
      InsertedElements(s[..|s| - 1], e);
      assert s == s[..|s| - 1] + [s[|s| - 1]];
    }
  }

  lemma {:induction false} SortedElements(dir: seq<Entry>)
    ensures forall x :: x in SortedCopy(dir) <==> x in dir
  {
    if dir != [] {
      var n := |dir| - 1;
      SortedElements(dir[..n]);
      InsertedElements(SortedCopy(dir[..n]), dir[n]);
      assert dir == dir[..n] + [dir[n]];
    }
  }

  ghost predicate AllApart(dir: seq<Entry>) {
    forall i, j :: 0 <= i < j < |dir| ==> Apart(dir[i], dir[j])
  }

  /** Of files that lie apart, none of them empty, each ends in the sorted copy before the next begins. */
  lemma {:induction false} SortedCopySpaced(dir: seq<Entry>, limit: nat)
    requires AllApart(dir) && forall x :: x in dir ==> Solid(x, limit)
    ensures AllSpaced(SortedCopy(dir))
  {
    if dir != [] {
      var n := |dir| - 1;
      var e := dir[n];
      assert dir == dir[..n] + [e];
      SortedCopySpaced(dir[..n], limit);
      SortedElements(dir[..n]);
      forall x | x in SortedCopy(dir[..n]) ensures Solid(x, limit) && Apart(x, e) {
        var i :| 0 <= i < n && dir[i] == x;
      }
      InsertedSpaced(SortedCopy(dir[..n]), e, limit);
    }
  }

  lemma SolidOrdered(dir: seq<Entry>, limit: nat)
    requires AllApart(dir) && (forall x :: x in dir ==> Solid(x, limit)) && 1 <= limit
    ensures Ordered(SortedCopy(dir), 1, limit)
  {
    SortedCopySpaced(dir, limit);
    SortedElements(dir);
    var s := SortedCopy(dir);
    assert s != [] ==> s[0] in s;
    SpacedOrdered(s, 1, limit);
  }

  function LiveOf(dir: seq<Entry>): seq<Entry> {
    if dir == [] then []
    else LiveOf(dir[..|dir| - 1]) + if IsLive(dir[|dir| - 1]) then [dir[|dir| - 1]] else []
  }

  function GoneOf(dir: seq<Entry>): seq<Entry> {
    if dir == [] then []
    else GoneOf(dir[..|dir| - 1]) + if IsDeleted(dir[|dir| - 1]) then [dir[|dir| - 1]] else []
  }

  lemma {:induction false} LiveAndGone(dir: seq<Entry>)
    ensures forall x :: x in LiveOf(dir) <==> x in dir && IsLive(x)
    ensures forall x :: x in GoneOf(dir) <==> x in dir && IsDeleted(x)
  {
    if dir != [] {
      LiveAndGone(dir[..|dir| - 1]);
      assert dir == dir[..|dir| - 1] + [dir[|dir| - 1]];
    }
  }

  lemma {:induction false} LiveApart(dir: seq<Entry>)
    requires forall i, j :: 0 <= i < j < |dir| && IsLive(dir[i]) && IsLive(dir[j]) ==> Apart(dir[i], dir[j])
    ensures AllApart(LiveOf(dir))
  {
    if dir != [] {
      var n := |dir| - 1;
      LiveApart(dir[..n]);
      LiveAndGone(dir[..n]);
      var s := LiveOf(dir[..n]);
      forall i | 0 <= i < |s| && IsLive(dir[n]) ensures Apart(s[i], dir[n]) {
        assert s[i] in s;
        var j :| 0 <= j < n && dir[j] == s[i];
      }
    }
  }

  /** Putting a live record in leaves the deleted ones, which all come after it, alone. */
  lemma {:induction false} InsertedBefore(live: seq<Entry>, gone: seq<Entry>, e: Entry)
    requires IsLive(e) && forall x :: x in gone ==> IsDeleted(x)
    ensures Inserted(live + gone, e) == Inserted(live, e) + gone
    decreases |gone|
  {
    if gone == [] {
      assert live + gone == live;
    } else {
      var n := |gone| - 1;
      var s := live + gone;
      assert gone[n] in gone && s[..|s| - 1] == live + gone[..n] && s[|s| - 1] == gone[n];
      InsertedBefore(live, gone[..n], e);
      assert gone[..n] + [gone[n]] == gone;
    }
  }

  lemma SnocParts(s: seq<Entry>, e: Entry)
    ensures SortedCopy(s + [e]) == Inserted(SortedCopy(s), e)
    ensures LiveOf(s + [e]) == LiveOf(s) + if IsLive(e) then [e] else []
    ensures GoneOf(s + [e]) == GoneOf(s) + if IsDeleted(e) then [e] else []
  {
    assert (s + [e])[..|s|] == s;
  }

  /** The sorted copy has the live records first, sorted, and the deleted ones after them. */
  ghost predicate Splits(dir: seq<Entry>) { SortedCopy(dir) == SortedCopy(LiveOf(dir)) + GoneOf(dir) }

  lemma LiveSplitsMore(init: seq<Entry>, e: Entry)
    requires Splits(init) && IsLive(e) && forall x :: x in GoneOf(init) ==> IsDeleted(x)
    ensures Splits(init + [e])
  {
    SnocParts(init, e);
    SnocParts(LiveOf(init), e);
    InsertedBefore(SortedCopy(LiveOf(init)), GoneOf(init), e);
    assert GoneOf(init) + [] == GoneOf(init);
  }

  lemma DeletedLast(live: seq<Entry>, gone: seq<Entry>, e: Entry)
    requires IsDeleted(e)
    ensures Inserted(live + gone, e) == live + (gone + [e])
  {
    assert live + gone + [e] == live + (gone + [e]);
  }

  lemma DeletedSplitsMore(init: seq<Entry>, e: Entry)
    requires Splits(init) && IsDeleted(e)
    ensures Splits(init + [e])
  {
    SnocParts(init, e);
    DeletedLast(SortedCopy(LiveOf(init)), GoneOf(init), e);
    assert LiveOf(init) + [] == LiveOf(init);
  }

  lemma {:induction false} SortedCopySplits(dir: seq<Entry>)
    requires forall x :: x in dir ==> !IsEnd(x)
    ensures Splits(dir)
  {
    if dir != [] {
      var init, e := dir[..|dir| - 1], dir[|dir| - 1];
      assert dir == init + [e];
      SortedCopySplits(init);
      if IsLive(e) {
        LiveAndGone(init);
        LiveSplitsMore(init, e);
      } else {
        DeletedSplitsMore(init, e);
      }
    }
  }

  // ---- Directories

  function Files(dir: seq<Entry>): seq<Entry> { LiveOf(dir[..FirstEnd(dir)]) }

  function Holes(dir: seq<Entry>): seq<Entry> { GoneOf(dir[..FirstEnd(dir)]) }

  lemma SameFits(a: seq<Entry>, b: seq<Entry>, t: nat, n: nat, limit: nat)
    requires forall x :: x in a <==> x in b
    ensures Fits(a, t, n, limit) == Fits(b, t, n, limit)
  {
  }

  lemma SameAnswers(a: seq<Entry>, b: seq<Entry>, s: nat, n: nat, limit: nat)
    requires forall x :: x in a <==> x in b
    ensures Answers(a, s, n, limit) == Answers(b, s, n, limit)
    ensures HasPlace(a, n, limit) == HasPlace(b, n, limit)
  {
    forall t: nat ensures Fits(a, t, n, limit) == Fits(b, t, n, limit) {
      SameFits(a, b, t, n, limit);
    }
  }

  lemma PlaceIsScan(dir: seq<Entry>, n: nat, limit: nat)
    requires FirstEnd(dir) < |dir|
    ensures Place(dir, n, limit) == Scan(SortedCopy(Files(dir)) + Holes(dir), 1, n, limit)
    ensures forall x :: x in SortedCopy(Files(dir)) <==> x in Files(dir)
  {
    SortedCopySplits(dir[..FirstEnd(dir)]);
    SortedElements(Files(dir));
  }

  /** On a directory with an end mark create answers a request rightly, and a place that it finds is free,
      if and only if the guard holds. */
  lemma CreateRightExactly(dir: seq<Entry>, n: nat, limit: nat)
    requires FirstEnd(dir) < |dir| && 1 <= limit < MODULUS && 1 <= n && n + limit <= MODULUS
    requires InDisk(Files(dir), limit) && AllGone(Holes(dir), limit)
    ensures Answers(Files(dir), Place(dir, n, limit), n, limit) <==> Guard(SortedCopy(Files(dir)), Holes(dir), n, limit)
    ensures (Place(dir, n, limit) != 0 ==> Fits(Files(dir), Place(dir, n, limit), n, limit))
            <==> Guard(SortedCopy(Files(dir)), Holes(dir), n, limit)
  {
    var sorted := SortedCopy(Files(dir));
    PlaceIsScan(dir, n, limit);
    SortedByStart(Files(dir));
    RequestExactly(sorted, Holes(dir), n, limit);
    SameAnswers(Files(dir), sorted, Place(dir, n, limit), n, limit);
    SameFits(Files(dir), sorted, Place(dir, n, limit), n, limit);
  }

  /** It is right for all requests if and only if the live files never step back when sorted and leave room
      for what each deleted record offers. */
  lemma DirectoryExactly(dir: seq<Entry>, limit: nat)
    requires FirstEnd(dir) < |dir| && 1 <= limit && 2 * limit < MODULUS
    requires InDisk(Files(dir), limit) && AllGone(Holes(dir), limit)
    ensures (forall n :: 1 <= n ==> Answers(Files(dir), Place(dir, n, limit), n, limit)) <==>
            Ordered(SortedCopy(Files(dir)), 1, limit) && Roomy(Files(dir), Holes(dir), limit)
  {
    var sorted, gone := SortedCopy(Files(dir)), Holes(dir);
    PlaceIsScan(dir, 1, limit);
    SearchExactly(sorted, gone, limit);
    forall n: nat ensures Answers(Files(dir), Place(dir, n, limit), n, limit) == RightFor(sorted, gone, n, limit) {
      PlaceIsScan(dir, n, limit);
      SameAnswers(Files(dir), sorted, Place(dir, n, limit), n, limit);
    }
    forall n: nat ensures HasPlace(Files(dir), n, limit) == HasPlace(sorted, n, limit) {
      SameAnswers(Files(dir), sorted, 0, n, limit);
    }
  }

  /** The live files lie apart and none of them is empty. */
  ghost predicate Clean(dir: seq<Entry>, limit: nat) {
    AllApart(Files(dir)) && forall x :: x in Files(dir) ==> Solid(x, limit)
  }

  /** On such a directory, without deleted records, create takes the lowest place where the file fits, and
      reports a lack of space only if there is none. */
  lemma CreateFirstFit(dir: seq<Entry>, request: nat, limit: nat)
    requires Clean(dir, limit) && Holes(dir) == [] && FirstEnd(dir) < |dir| && 1 <= request && 1 <= limit < MODULUS
    ensures Answers(Files(dir), Place(dir, request, limit), request, limit)
  {
    var sorted := SortedCopy(Files(dir));
    SolidOrdered(Files(dir), limit);
    PlaceIsScan(dir, request, limit);
    OrderedExactly(sorted, [], request, limit);
    SameAnswers(Files(dir), sorted, Place(dir, request, limit), request, limit);
  }

  /** A file of no blocks is always put at block 1. */
  lemma EmptyFileAtOne(dir: seq<Entry>, limit: nat)
    requires FirstEnd(dir) < |dir| && 1 <= limit
    ensures Place(dir, 0, limit) == 1
  {
  }

  /** In a directory without an end mark create sees no file at all: it takes block 1 for any file that an
      empty disk could hold. */
  lemma FullDirectoryIgnored(dir: seq<Entry>, request: nat, limit: nat)
    requires FirstEnd(dir) == |dir| && 1 <= limit
    ensures Place(dir, request, limit) == if 1 + request <= limit then 1 else 0
  {
    assert dir[..0] == [] && SortedCopy([]) == [];
  }
}
