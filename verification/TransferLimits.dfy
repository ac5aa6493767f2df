/** What the assumptions about a copy or move job are for: without each of them, when nothing is lost and when something is. */
module TransferLimits {
  import opened FileSystem
  import opened JobStatus
  import opened Volumes
  import opened TransferModel
  import opened TransferPlan

  // ----- A partial file that the job did not write -----

  /** What the copy loop makes of a partial file it finds: the rest of the source is written behind it. */
  function Resumed(found: Bytes, want: Bytes): Bytes
    requires |found| <= |want|
  {
    found + want[|found|..]
  }

  /** The size check accepts every resumed copy. It is the source if and only if what was found is a prefix of it. */
  lemma ResumedExactly(found: Bytes, want: Bytes)
    requires |found| <= |want|
    ensures |Resumed(found, want)| == |want|
    ensures Resumed(found, want) == want <==> found <= want
  {
    assert Resumed(found, want)[..|found|] == found;
    assert want == want[..|found|] + want[|found|..];
  }

  /**
   The resumed copy of a file whose partial file may hold anything: the loop from the end of what is found, the size
   check and the rename.
   */
  method ResumeOver(vol: Volume, source: Path, temp: Path, destination: Path) returns (e: Errno)
    requires vol.Valid() && !vol.dead && IsFile(vol.fs, source) && IsFile(vol.fs, temp) && source != temp
    requires |vol.fs[temp].data| <= |vol.fs[source].data| && temp != [] && !(temp <= destination)
    modifies vol
    ensures vol.Valid() && (old(vol.disturbed) ==> vol.disturbed)
    ensures e == Ok ==>
      destination in vol.fs && vol.fs[destination] == File(Resumed(old(vol.fs)[temp].data, old(vol.fs)[source].data))
    ensures e == Ok ==>
      (vol.fs[destination] == old(vol.fs)[source] <==> old(vol.fs)[temp].data <= old(vol.fs)[source].data)
    ensures source in vol.fs && vol.fs[source] == old(vol.fs)[source]
    ensures (!vol.disturbed && IsDir(old(vol.fs), Parent(destination)) && destination !in old(vol.fs)
             && vol.device(temp) == vol.device(destination)) ==> e == Ok
  {
    ghost var before, found := vol.fs, vol.fs[temp].data;
    var want := vol.fs[source].data;
    var copied := |vol.fs[temp].data|;
    ResumedExactly(found, want);
    while copied < |want|
      invariant |found| <= copied <= |want| && vol.Valid() && !vol.dead && (old(vol.disturbed) ==> vol.disturbed)
      invariant vol.fs == before[temp := File(Resumed(found, want)[..copied])]
    {
      var n: nat :| 0 < n <= |want| - copied;
      var block, written := want[copied..copied + n], 0;
      RestOfResumed(found, want, copied, n);
      SpliceOfPrefix(Resumed(found, want), copied, copied, n);
      e, written := vol.WriteAt(temp, copied, block);
      if e != Ok { return; }
      assert block[..written] == block;
      copied := copied + n;
    }
    if |vol.fs[temp].data| != |want| { return Fault; }
    ghost var late := vol.fs;
    assert vol.fs[temp] == File(Resumed(found, want)) by { assert Resumed(found, want)[..|want|] == Resumed(found, want); }
    e := vol.RenameNoReplace(temp, destination);
    if RenameErr(late, temp, destination, vol.device(temp) == vol.device(destination)) == Ok { MovedFile(late, temp, destination); }
  }

  lemma RestOfResumed(found: Bytes, want: Bytes, at: nat, n: nat)
    requires |found| <= at && at + n <= |want|
    ensures want[at..at + n] == Resumed(found, want)[at..at + n]
  {}

  /** A leftover of another job with the same destination: the wrong bytes are published. */
  method WrongBytesArePublished() returns (vol: Volume, e: Errno)
    ensures fresh(vol)
    ensures !vol.disturbed ==> e == Ok && ["t"] in vol.fs && vol.fs[["t"]] == File([7, 2]) && ["s"] in vol.fs && vol.fs[["s"]] == File([1, 2])
  {
    var temp := [TEMP_DIR, "t.partial"];
    var fs: Tree := map[[] := Dir, ["s"] := File([1, 2]), [TEMP_DIR] := Dir, temp := File([7])];
    assert Parent(["s"]) == [] && Parent([TEMP_DIR]) == [] && Parent(temp) == [TEMP_DIR] && Parent(["t"]) == [];
    vol := new Volume(fs, _ => 0);
    e := ResumeOver(vol, ["s"], temp, ["t"]);
  }

  // ----- A destination above the source -----

  /**
   The first thing an overwriting job does, after the check that its destination is not inside its source. The source
   survives if and only if it is not inside the destination.
   */
  method OverwriteFirst(vol: Volume, source: Path, destination: Path) returns (e: Errno)
    requires vol.Valid() && !vol.dead && source in vol.fs && destination != [] && !(source <= destination)
    modifies vol
    ensures vol.Valid() && (old(vol.disturbed) ==> vol.disturbed) && (!vol.disturbed ==> e == Ok)
    ensures e == Ok ==> (source in vol.fs <==> !(destination <= source))
    ensures !(destination <= source) ==>
      forall p :: source <= p ==> (p in vol.fs <==> p in old(vol.fs)) && (p in vol.fs ==> vol.fs[p] == old(vol.fs)[p])
  {
    ghost var before := vol.fs;
    e := vol.RemoveAll(destination);
    assert destination <= source && source in vol.fs ==> source in Under(vol.fs, destination);
    forall p | p in before && source <= p && !(destination <= source)
      ensures !(destination <= p)
    {
      BothAbove(source, destination, p);
    }
  }

  lemma BothAbove(a: Path, b: Path, p: Path)
    requires a <= p
    ensures b <= p ==> a <= b || b <= a
  {}

  method OverwriteRemovesItsSource() returns (vol: Volume, e: Errno)
    ensures fresh(vol)
    ensures !vol.disturbed ==> ["a", "b"] !in vol.fs
  {
    var fs: Tree := map[[] := Dir, ["a"] := Dir, ["a", "b"] := File([1])];
    assert Parent(["a", "b"]) == ["a"] && Parent(["a"]) == [];
    vol := new Volume(fs, _ => 0);
    e := OverwriteFirst(vol, ["a", "b"], ["a"]);
  }

  /** Where a job that asks puts an entry when its destination is above its source: inside the source, exactly if the names repeat. */
  lemma TargetInsideSource(source: Path, d: Path, p: Path)
    requires d <= source <= p
    ensures source <= d + p[|source|..] <==> source[|d|..] <= p[|source|..]
  {
    var rest, rel := source[|d|..], p[|source|..];
    assert source == d + rest;
    if source <= d + rel {
      assert (d + rel)[|d|..|source|] == rest;
    }
  }

  /**
   A destination above the source is safe exactly if no entry repeats the names from the destination down to the source,
   and no file has the first of them as its own.
   */
  lemma AboveIsSafeExactly(g: Setting, d: Path)
    requires d <= g.job.source
    ensures var rest := g.job.source[|d|..];
      StaysOut(g, d) <==> forall p :: p in g.origin && g.job.source <= p ==>
        !(rest <= p[|g.job.source|..]) && (g.origin[p].File? ==> !(p[|g.job.source|..] <= rest))
  {
    var rest := g.job.source[|d|..];
    forall p | p in g.origin && g.job.source <= p
      ensures TargetStaysOut(g, d, p) <==>
        !(rest <= p[|g.job.source|..]) && (g.origin[p].File? ==> !(p[|g.job.source|..] <= rest))
    {
      TargetInsideSource(g.job.source, d, p);
      TargetOnTheWay(g.job.source, d, p);
    }
    hide TargetStaysOut;
  }

  lemma TargetOnTheWay(source: Path, d: Path, p: Path)
    requires d <= source <= p
    ensures d + p[|source|..] <= source <==> p[|source|..] <= source[|d|..]
  {
    var rest, rel := source[|d|..], p[|source|..];
    assert source == d + rest;
    if d + rel <= source { assert source[|d|..|d| + |rel|] == rel; }
  }

  /** A finished move then removes the copy together with the original. */
  lemma MoveIntoItselfLoses(after: Tree, source: Path, d: Path, p: Path)
    requires d <= source <= p && source[|d|..] <= p[|source|..] && Under(after, source) == {}
    ensures p !in after && d + p[|source|..] !in after
  {
    TargetInsideSource(source, d, p);
    if p in after { BelowIsUnder(after, source, p); }
    if d + p[|source|..] in after { BelowIsUnder(after, source, d + p[|source|..]); }
  }

  // ----- A plan of which only a part was stored -----

  /** Two files to move. */
  function TwoFiles(): Setting {
    Setting(Job(true, Ask, ["s"], ["d"]), map[[] := Dir, ["s"] := Dir, ["s", "a"] := File([1]), ["s", "b"] := File([2])])
  }

  function OneRow(): Row {
    Row(["s", "a"], ["d", "a"], TempFor(["d", "a"]), 1, 1, Completed, false)
  }

  function OneCopy(): Tree {
    map[[] := Dir, ["d"] := Dir, ["d", "a"] := File([1])]
  }

  /** One row was stored: the move completes, and the other file is gone. */
  lemma PartialPlanLosesAFile()
    ensures var g, fs, rows := TwoFiles(), OneCopy(), [OneRow()];
      && Sound(g, fs, rows, {}) && Finished(rows) && Under(fs, g.job.source) == {}
      && IsFile(g.origin, ["s", "b"]) && !Safe(g, fs, rows, ["s", "b"])
  {
    var g, fs, rows := TwoFiles(), OneCopy(), [OneRow()];
    TwoFilesFit();
    OneRowIsGood();
    OneCopyAccounted();
    hide Fit, GoodRow, FilesAccounted, WellFormed, TempFor;
    assert rows[0] == OneRow();
    forall p | p in fs
      ensures !(g.job.source <= p)
    {
      assert p != [] ==> p[0] == "d";
    }
    assert !IsFile(fs, OneRow().temp) by { TempIsNoCopy(); }
  }

  lemma TempIsNoCopy()
    ensures OneRow().temp == ["d", TEMP_DIR, "a.partial"] && OneRow().temp !in OneCopy() && OneRow().temp !in TwoFiles().origin
  {
    assert Parent(["d", "a"]) == ["d"] && "a" + ".partial" == "a.partial";
    assert TempFor(["d", "a"]) == ["d"] + [TEMP_DIR, "a.partial"];
  }

  lemma TwoFilesFit()
    ensures Fit(TwoFiles())
  {
    NothingLeftOver();
    TwoFilesWellFormed();
    hide LeftoversArePrefixes, TempOf, WellFormed;
    assert "s" != TEMP_DIR && "a" != TEMP_DIR && "b" != TEMP_DIR && "d" != TEMP_DIR;
    assert forall p :: p in TwoFiles().origin ==> TEMP_DIR !in p;
    assert ["d"][0] != ["s"][0] && !(["d"] <= ["s"]);
  }

  lemma TwoFilesWellFormed()
    ensures WellFormed(TwoFiles().origin)
  {
    assert Parent(["s", "a"]) == ["s"] && Parent(["s", "b"]) == ["s"] && Parent(["s"]) == [];
  }

  lemma NothingLeftOver()
    ensures LeftoversArePrefixes(TwoFiles())
  {
    var g := TwoFiles();
    forall p, temp | TempOf(g, temp, p)
      ensures temp !in g.origin
    {
      TempsAreInside(g, temp, p, g);
      NoTempName(temp);
    }
    hide TempOf;
  }

  lemma NoTempName(p: Path)
    requires TEMP_DIR in Parent(p)
    ensures p !in TwoFiles().origin
  {
    assert TEMP_DIR in p;
  }

  lemma OneRowIsGood()
    ensures GoodRow(TwoFiles(), OneRow()) && Original(TwoFiles(), OneRow()) == [1]
  {
    TempIsBeside(["d", "a"]);
    TempIsNoCopy();
    assert ["d"] + OneRow().source[1..] == ["d", "a"];
    assert TempOf(TwoFiles(), OneRow().temp, OneRow().source);
    hide TempOf, TempFor, Beside, InTempDir;
    assert OneRow().temp[0] == "d" && OneRow().destination[0] == "d";
    assert ["s"] <= ["s", "a"] && !(["s"] <= OneRow().temp);
  }

  lemma OneCopyAccounted()
    ensures WellFormed(OneCopy()) && FilesAccounted(TwoFiles(), OneCopy(), [OneRow()])
  {
    OneRowIsGood();
    assert Parent(["d", "a"]) == ["d"] && Parent(["d"]) == [];
    assert [OneRow()][0] == OneRow();
    hide Original, TempFor, GoodRow;
    assert IsCopy(TwoFiles(), [OneRow()], ["d", "a"], OneCopy()[["d", "a"]]);
  }

  // ----- A copy in place whose row is open -----

  /**
   A crash between the rename of a copy and the update of its row, in whatever state that is: the copy is whole, nothing
   is lost, and the plan cannot be finished any more.
   */
  lemma RenameWithoutMark(g: Setting, fs: Tree, after: Tree, rows: seq<Row>, cleared: set<Path>, i: nat, device: Path -> nat)
    requires Sound(g, fs, rows, cleared) && i < |rows| && WellFormed(after) && rows[i].status !in {Completed, Conflict}
    requires rows[i].temp in fs && fs[rows[i].temp] == File(Original(g, rows[i])) && rows[i].destination !in fs
    requires after == (fs - {rows[i].temp})[rows[i].destination := fs[rows[i].temp]]
    ensures Sound(g, after, rows, cleared) && after[rows[i].destination] == File(Original(g, rows[i]))
    ensures !CanFinish(after, device, rows)
  {
    hide Sound, Original;
    RenameKeepsSound(g, fs, after, rows, cleared, i);
    CopyInTheWay(after, device, rows, i);
  }

  function OpenRow(): Row {
    OneRow().(status := Running)
  }

  function OneRenamed(): Tree {
    TwoFiles().origin[["d"] := Dir][["d", "a"] := File([1])]
  }

  /** Such a state: the first of two files is copied, its row still running. */
  lemma CopiedButOpen(device: Path -> nat)
    ensures var g, fs, rows := TwoFiles(), OneRenamed(), [OpenRow()];
      && Sound(g, fs, rows, {}) && fs[["d", "a"]] == g.origin[["s", "a"]] && !CanFinish(fs, device, rows)
  {
    var g, fs, rows := TwoFiles(), OneRenamed(), [OpenRow()];
    TwoFilesFit();
    OneRowIsGood();
    OpenRowIsGood();
    OneRenamedAccounted();
    TempIsNoCopy();
    hide Fit, GoodRow, FilesAccounted, WellFormed, TempFor;
    assert rows[0] == OpenRow();
    assert OpenRow().temp == ["d", TEMP_DIR, "a.partial"] && OpenRow().temp !in fs;
    forall p | p in fs && p !in g.origin
      ensures !(g.job.source <= p)
    {
      assert p[0] == "d";
    }
    CopyInTheWay(fs, device, rows, 0);
  }

  lemma OpenRowIsGood()
    ensures GoodRow(TwoFiles(), OpenRow())
  {
    OneRowIsGood();
    SameOriginal(TwoFiles(), OneRow(), OpenRow());
    hide TempOf, TempFor, Beside, InTempDir, Original, GoodTarget;
  }

  lemma OneRenamedAccounted()
    ensures WellFormed(OneRenamed()) && FilesAccounted(TwoFiles(), OneRenamed(), [OpenRow()])
  {
    OneRowIsGood();
    SameOriginal(TwoFiles(), OneRow(), OpenRow());
    TwoFilesWellFormed();
    assert Parent(["d", "a"]) == ["d"] && Parent(["d"]) == [];
    assert [OpenRow()][0] == OpenRow();
    hide Original, TempFor, GoodRow;
    assert IsCopy(TwoFiles(), [OpenRow()], ["d", "a"], OneRenamed()[["d", "a"]]);
  }

  // ----- A finished move that is retried -----

  /**
   The retry of a move that failed while it removed its source, under "overwrite": what was copied and is no longer at
   its source survives the removal of the destination if and only if it does not lie there, which it does.
   */
  lemma OverwriteAfterMove(g: Setting, fs: Tree, rows: seq<Row>, cleared: set<Path>, after: Tree, i: nat)
    requires Sound(g, fs, rows, cleared) && i < |rows| && CopiedRow(rows[i]) && Apart(g.job.source, g.job.destination)
    requires Pruned(fs, after, g.job.destination) && Under(after, g.job.destination) == {}
    ensures rows[i].source in g.origin
    ensures Safe(g, after, rows, rows[i].source) <==> rows[i].source in fs || !(g.job.destination <= rows[i].destination)
  {
    var p, d := rows[i].source, rows[i].destination;
    assert GoodRow(g, rows[i]);
    assert d in after ==> (g.job.destination <= d ==> d in Under(after, g.job.destination));
    assert g.job.destination <= p ==> g.job.destination <= g.job.source || g.job.source <= g.job.destination;
    if !(g.job.destination <= d) { assert CopiedRow(rows[i]) && rows[i].source == p && d in after && after[d] == g.origin[p]; }
  }
}
