/** Where an archive entry is written: the check of its name, and the walk to its directory, one component at a time. */
module Extract {
  import opened FileSystem
  import opened Volumes
  import opened Names
  import opened Lexical

  datatype Opened = Open(path: Path) | Unsafe | Failed(errno: Errno)

  function CleanExtractEntry(entry: string): Option<string> {
    var rel := Clean(entry);
    if IsAbs(rel) || rel == ".." || "../" <= rel then None else Some(rel)
  }

  lemma CleanedStart(entry: string)
    requires !IsAbs(entry)
    ensures var parts := Split(entry);
      (Clean(entry) == ".." || "../" <= Clean(entry)) <==> LeastDepth(parts) < 0
    ensures !IsAbs(Clean(entry))
  {
    var parts := Split(entry);
    var out, ups := Reduce(parts, false), -LeastDepth(parts);
    ReduceShape(parts);
    UpsAreSlashFree(out, ups);
    RelativeIsClean(out, ups);
    if out != [] {
      JoinStarts(out);
      if "../" <= Join(out) && out[0] != ".." { StartsWithUp(out); }
    }
  }

  /** A joined path starts with `../` only if its first part is `..`. */
  lemma StartsWithUp(out: seq<string>)
    requires out != [] && SlashFree(out) && "../" <= Join(out)
    ensures out[0] == ".."
  {
    JoinStarts(out);
    assert out[0] in out;
    var j, n := Join(out), |out[0]|;
    assert j[0] == '.' && j[1] == '.' && j[2] == '/';
    assert forall i :: 0 <= i < n ==> j[i] == out[0][i] && out[0][i] != '/';
    assert n <= 2 && |out| > 1;
    assert j[n] == (out[0] + "/")[n];
  }

  /** A name is accepted exactly when it is relative and never leads above its start. */
  lemma AcceptedExactly(entry: string)
    ensures CleanExtractEntry(entry).Some? <==>
      !IsAbs(entry) && forall i :: 0 <= i <= |Split(entry)| ==> Depth(Split(entry)[..i]) >= 0
  {
    if IsAbs(entry) {
      assert IsAbs(Clean(entry));
    } else {
      CleanedStart(entry);
      LeastDepthIsLeast(Split(entry));
    }
  }

  /** A path that never leads above its start leads to the same place as its cleaned form, and stays inside all the way. */
  lemma {:induction false} CleanedLeadsThere(start: Path, parts: seq<string>)
    requires SlashFree(parts) && LeastDepth(parts) >= 0
    ensures Target(start, parts) == start + Reduce(parts, false)
    ensures AllNames(Reduce(parts, false))
    ensures forall i :: 0 <= i <= |parts| ==> start <= Target(start, parts[..i])
  {
    ReduceShape(parts);
    if parts == [] {
      assert start + [] == start;
    } else {
      hide AllNames, Step;
      var init, part := parts[..|parts| - 1], parts[|parts| - 1];
      assert forall p :: p in init ==> p in parts;
      CleanedLeadsThere(start, init);
      ReduceShape(init);
      StepLeadsThere(start, Reduce(init, false), part);
      forall i | 0 <= i <= |parts|
        ensures start <= Target(start, parts[..i])
      {
        if i < |parts| { assert parts[..i] == init[..i]; } else { assert parts[..i] == parts; }
      }
    }
  }

  lemma StepLeadsThere(start: Path, out: seq<string>, part: string)
    requires AllNames(out) && (part == ".." ==> out != [])
    ensures start + Step(out, part, false) ==
      if part == "" || part == "." then start + out else if part == ".." then Parent(start + out) else start + out + [part]
  {
    if part == ".." {
      assert IsName(out[|out| - 1]);
      assert Parent(start + out) == start + out[..|out| - 1];
    } else if part != "" && part != "." {
      assert start + out + [part] == start + (out + [part]);
    }
  }

  /** The parts of an accepted, cleaned name. */
  lemma AcceptedParts(entry: string)
    requires CleanExtractEntry(entry).Some?
    ensures var rel := CleanExtractEntry(entry).value;
      && (rel == "." <==> Reduce(Split(entry), false) == [])
      && (rel != "." ==> Split(rel) == Reduce(Split(entry), false) && AllNames(Split(rel)))
    ensures LeastDepth(Split(entry)) >= 0 && !IsAbs(entry)
  {
    AcceptedDepth(entry);
    hide Reduce, LeastDepth, Split, Join, Depth, SlashFree, IsName;
    ReduceShape(Split(entry));
    var out := Reduce(Split(entry), false);
    if out != [] { NamesJoined(out); }
  }

  /** What is accepted is accepted again, and cleaned already. */
  lemma AcceptedAgain(entry: string)
    requires CleanExtractEntry(entry).Some?
    ensures CleanExtractEntry(CleanExtractEntry(entry).value) == CleanExtractEntry(entry)
  {
    hide Clean;
    CleanTwice(entry);
  }

  lemma AcceptedDepth(entry: string)
    requires CleanExtractEntry(entry).Some?
    ensures LeastDepth(Split(entry)) == 0 && !IsAbs(entry)
  {
    hide Reduce, LeastDepth, Split, Join;
    if !IsAbs(entry) { CleanedStart(entry); }
  }

  lemma NamesJoined(out: seq<string>)
    requires out != [] && AllNames(out)
    ensures Join(out) != "." && Split(Join(out)) == out
  {
    NamesAreSlashFree(out);
    SplitJoin(out);
    assert IsName(out[0]);
    if Join(out) == "." { SplitName("."); }
  }

  /** What may change below `dest`: directories appear on the way, nothing that was there changes. */
  ghost predicate GrownBelow(before: Tree, after: Tree, dest: Path) {
    && (forall q :: q in before ==> q in after && after[q] == before[q])
    && (forall q :: q in after && q !in before ==> dest <= q && q != dest && after[q] == Dir)
  }

  /** Opens the directories of `parts` below `dest` in turn, making those that are missing. */
  method OpenExtractDirs(vol: Volume, dest: Path, parts: seq<string>) returns (e: Errno, dir: Path)
    requires vol.Valid() && !vol.dead && IsDir(vol.fs, dest)
    modifies vol
    ensures vol.Valid() && (e == Crashed <==> vol.dead)
    ensures GrownBelow(old(vol.fs), vol.fs, dest)
    ensures e == Ok ==> ".." !in parts && dir == dest + Reduce(parts, false) && IsDir(vol.fs, dir)
    ensures !vol.disturbed && ".." !in parts && !FileOnPath(old(vol.fs), dest + Reduce(parts, false)) ==> e == Ok
    ensures e == Ok ==> forall q :: q in vol.fs && q !in old(vol.fs) ==> |q| <= |dir|
    ensures old(vol.disturbed) ==> vol.disturbed
  {
    hide WellFormed, Reduce;
    dir := dest;
    var i := 0;
    NothingReduced(dest, parts);
    while i < |parts|
      invariant 0 <= i <= |parts| && vol.Valid() && !vol.dead
      invariant old(vol.disturbed) ==> vol.disturbed
      invariant forall q :: q in vol.fs && q !in old(vol.fs) ==> |q| <= |dir|
      invariant ".." !in parts[..i] && dir == dest + Reduce(parts[..i], false) && IsDir(vol.fs, dir)
      invariant GrownBelow(old(vol.fs), vol.fs, dest)
    {
      var part := parts[i];
      OneMorePart(dest, parts, i);
      if ".." !in parts { OnTheWayDown(old(vol.fs), dest, parts, i + 1); }
      if part == "" || part == "." {
        i := i + 1;
        continue;
      }
      if part == ".." { return Invalid, dir; }  // the kernel resolves beneath the open directory only
      if dir + [part] !in vol.fs {
        assert Parent(dir + [part]) == dir;
        e := vol.Mkdir(dir + [part]);
        if e != Ok { return e, dir; }
      }
      if vol.fs[dir + [part]].File? { return NotDir, dir; }
      dir := dir + [part];
      i := i + 1;
    }
    assert parts[..i] == parts;
    return Ok, dir;
  }

  /** Without steps up, every directory opened on the way is on the way to the last one. */
  lemma OnTheWayDown(fs: Tree, dest: Path, parts: seq<string>, i: nat)
    requires i <= |parts| && ".." !in parts
    ensures IsFile(fs, dest + Reduce(parts[..i], false)) ==> FileOnPath(fs, dest + Reduce(parts, false))
  {
    ReducedPrefix(parts, i);
    var p, q := dest + Reduce(parts, false), dest + Reduce(parts[..i], false);
    assert p[..|q|] == q;
  }

  lemma {:induction false} ReducedPrefix(parts: seq<string>, i: nat)
    requires i <= |parts| && ".." !in parts
    ensures Reduce(parts[..i], false) <= Reduce(parts, false)
    decreases |parts|
  {
    if i < |parts| {
      var init := parts[..|parts| - 1];
      assert parts[|parts| - 1] in parts && forall p :: p in init ==> p in parts;
      ReducedPrefix(init, i);
      assert init[..i] == parts[..i];
    } else {
      assert parts[..i] == parts;
    }
  }

  lemma NoUps(parts: seq<string>)
    requires AllNames(parts)
    ensures ".." !in parts && ".." !in parts[..|parts|] && (parts != [] ==> ".." !in parts[..|parts| - 1])
  {
    forall i | 0 <= i < |parts|
      ensures parts[i] != ".."
    {
      assert IsName(parts[i]);
    }
  }

  lemma NothingReduced(dest: Path, parts: seq<string>)
    ensures parts[..0] == [] && dest + Reduce(parts[..0], false) == dest
  {}

  lemma OneMorePart(dest: Path, parts: seq<string>, i: nat)
    requires i < |parts|
    ensures Reduce(parts[..i + 1], false) == Step(Reduce(parts[..i], false), parts[i], false)
    ensures dest + Reduce(parts[..i], false) + [parts[i]] == dest + (Reduce(parts[..i], false) + [parts[i]])
    ensures ".." !in parts[..i] && parts[i] != ".." ==> ".." !in parts[..i + 1]
  {
    assert parts[..i + 1][..i] == parts[..i] && parts[..i + 1] == parts[..i] + [parts[i]];
  }

  /** An accepted name for a file below `dest`, with nothing in its way. */
  ghost predicate NamesFile(fs: Tree, dest: Path, entry: string) {
    && CleanExtractEntry(entry).Some? && CleanExtractEntry(entry).value != "."
    && var p := Target(dest, Split(entry)); !FileOnPath(fs, Parent(p)) && !IsDir(fs, p)
  }

  /**
   Opens the file an entry is extracted to. It is the place the entry's own name leads to from the destination, and
   nothing outside the destination is touched.
   */
  method OpenExtractFile(vol: Volume, dest: Path, entry: string) returns (r: Opened)
    requires vol.Valid() && !vol.dead && IsDir(vol.fs, dest)
    modifies vol
    ensures vol.Valid()
    ensures CleanExtractEntry(entry).None? ==> r == Unsafe && vol.fs == old(vol.fs)
    ensures r.Open? ==>
      r.path == Target(dest, Split(entry)) && dest <= r.path && r.path != dest && r.path in vol.fs && vol.fs[r.path] == File([])
    ensures !vol.disturbed && NamesFile(old(vol.fs), dest, entry) ==> r.Open?
    ensures forall q :: !(dest <= q) ==> (q in vol.fs <==> q in old(vol.fs)) && (q in vol.fs ==> vol.fs[q] == old(vol.fs)[q])
  {
    hide CleanExtractEntry, Target, WellFormed, Reduce, Split, LeastDepth, Depth, FileOnPath;
    var rel := CleanExtractEntry(entry);
    if rel.None? || rel.value == "." { return Unsafe; }
    AcceptedParts(entry);
    CleanedLeadsThere(dest, Split(entry));
    var parts := Split(rel.value);
    var filename := parts[|parts| - 1];
    ReduceNames(parts[..|parts| - 1], false);
    NoUps(parts);
    assert Parent(dest + parts) == dest + parts[..|parts| - 1];
    var e, parent := OpenExtractDirs(vol, dest, parts[..|parts| - 1]);
    if e != Ok { return Failed(e); }
    var file := parent + [filename];
    assert file == dest + parts;
    e := vol.OpenFile(file, true);
    if e != Ok { return Failed(e); }
    return Open(file);
  }
}
