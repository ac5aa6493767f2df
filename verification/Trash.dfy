/** Moving an entry to the trash, restoring it, and deleting it for good, each callable again after a crash. */
module Trash {
  import opened FileSystem
  import opened JobStatus
  import opened Volumes
  import opened Copies
  import opened TrashModel

  datatype Cause = RootOperation | InsideTrash | NotFound | UnreadableEntry | DestinationExists | Io(errno: Errno)
  datatype Result = Done | Error(cause: Cause)
  datatype Lookup = Readable | Missing | Unreadable

  /** One entry of the trash: an original path, and the id that names its trash copy and metadata. */
  class Entry {
    const vol: Volume
    const root: Path
    const original: Path
    const id: string
    const isRoot: bool
    const record: Bytes  // the metadata, encoded; no proper prefix of it can be read back

    ghost predicate Inv()
      reads vol
    {
      && vol.Valid() && original != [] && root <= original && record != []
      && (original == root ==> isRoot)
      && original[|original| - 1] != TEMP_DIR
      && vol.device(At().temp) == vol.device(original)
    }

    function At(): Places
      requires original != []
    {
      PlacesOf(root, original, id)
    }

    /** The entry is one the trash accepts. */
    predicate Accepted() {
      !isRoot && !(TrashRoot(root) <= original)
    }

    lemma AcceptedIsSeparate()
      requires Inv() && Accepted()
      ensures Separate(At()) && At().original == original
    {
      PlacesAreSeparate(root, original, id);
    }

    constructor (vol: Volume, root: Path, original: Path, id: string, isRoot: bool, record: Bytes)
      requires vol.Valid() && original != [] && root <= original && record != []
      requires original == root ==> isRoot
      requires original[|original| - 1] != TEMP_DIR
      requires vol.device(PlacesOf(root, original, id).temp) == vol.device(original)
      ensures Inv() && this.vol == vol && this.root == root && this.original == original
      ensures this.id == id && this.isRoot == isRoot && this.record == record
    {
      this.vol, this.root, this.original, this.id, this.isRoot, this.record := vol, root, original, id, isRoot, record;
    }

    function Meta(fs: Tree): Lookup
      requires original != []
    {
      if At().meta !in fs then Missing else if fs[At().meta] == File(record) then Readable else Unreadable
    }

    /** The metadata is written through a new file; cut short it cannot be read. */
    method WriteEntry() returns (e: Errno)
      requires Inv() && Accepted() && !vol.dead
      modifies vol
      ensures Inv() && (old(vol.disturbed) ==> vol.disturbed) && (e == Crashed <==> vol.dead)
      ensures OnlyHere(old(vol.fs), vol.fs, At()) && Steady(old(vol.fs), vol.fs, At())
      ensures e == Ok ==> At().meta !in old(vol.fs) && Meta(vol.fs) == Readable
      ensures e == Ok ==> vol.fs == old(vol.fs)[At().meta := File(record)]
      ensures At().meta in old(vol.fs) ==> e != Ok && vol.fs == old(vol.fs)
      ensures !vol.disturbed && At().meta !in old(vol.fs) && IsDir(old(vol.fs), MetaDir(root)) ==> e == Ok
    {
      hide WellFormed, OnlyHere, Steady;
      ghost var before := vol.fs;
      var meta := At().meta;
      assert Parent(meta) == MetaDir(root);
      MetaWritten(before, before);
      e := vol.CreateFile(meta);
      MetaWritten(before, vol.fs);
      if e != Ok { return; }
      var n;
      e, n := vol.WriteAt(meta, 0, record);
      MetaWritten(before, vol.fs);
      assert record[..|record|] == record;
      SpliceOfPrefix(record, 0, 0, |record|);
      assert record[..0] == [];
    }

    /** A change of the metadata file alone. */
    lemma MetaWritten(before: Tree, after: Tree)
      requires Inv() && Accepted()
      ensures (after == before || after == before - {At().meta} || (At().meta in after && after == before[At().meta := after[At().meta]])) ==>
        OnlyHere(before, after, At()) && Steady(before, after, At())
    {
      hide PlacesOf;
      AcceptedIsSeparate();
      var w := At();
      OnePathSame(before, after, w.meta, w.original);
      OnePathSame(before, after, w.meta, w.trash);
      OnePathSame(before, after, w.meta, w.temp);
    }

    lemma OnePathSame(before: Tree, after: Tree, p: Path, x: Path)
      requires !(x <= p)
      ensures (after == before || after == before - {p} || (p in after && after == before[p := after[p]])) ==> SameUnder(before, after, x)
    {}

    // ----- Trashing -----

    /** Copies across devices where a rename will not do; the source goes only after the copy is complete. */
    method MoveToTrash(ghost k: Tree) returns (e: Errno)
      requires Inv() && Accepted() && !vol.dead && original in vol.fs && IsDir(vol.fs, Parent(At().trash))
      requires Kept(vol.fs, At(), k)
      modifies vol
      ensures Inv() && (old(vol.disturbed) ==> vol.disturbed) && (e == Crashed <==> vol.dead)
      ensures Kept(vol.fs, At(), k) && OnlyHere(old(vol.fs), vol.fs, At())
      ensures SameUnder(old(vol.fs), vol.fs, At().meta)
      ensures e == Ok ==> original !in vol.fs && Holds(vol.fs, At().trash, Content(old(vol.fs), original))
      ensures e == Ok && At().trash !in old(vol.fs) ==> Whole(vol.fs, At().trash, Content(old(vol.fs), original))
      ensures !vol.disturbed ==> (e == Ok <==> NotInTheWay(old(vol.fs)))
      ensures Across() || vol.fs == old(vol.fs) || InTrash(vol.fs, At(), Content(old(vol.fs), original))
      ensures SameUnder(old(vol.fs), vol.fs, original) || e == Ok || vol.dead || (e == Fault && Across())
    {
      hide Content, Kept, Holds, FileOnPath, WellFormed, OnlyHere, SameUnder, Mergeable;
      SameAsItself(vol.fs);
      var trash := At().trash;
      e := RenameToTrash(k);
      if e != CrossDevice { return; }
      ghost var c := Content(vol.fs, original);
      FreeGround(vol.fs, trash);
      if trash !in vol.fs { FreeIsMergeable(vol.fs, original, trash); }
      ghost var before := vol.fs;
      e := CopyToTrash(k);
      if e != Ok { return; }
      ghost var mid := vol.fs;
      e := RemoveOriginal(k, c);
      FramesMeet(before, mid);
    }

    /** What lies in the trash already does not stop the move: nothing, or, across devices, nothing that is at the original too. */
    ghost predicate NotInTheWay(fs: Tree)
      requires original != []
    {
      At().trash in fs ==> Across() && Mergeable(fs, original, At().trash)
    }

    lemma FreeGround(fs: Tree, p: Path)
      requires WellFormed(fs) && p != []
      ensures p !in fs ==> Under(fs, p) == {}
      ensures IsDir(fs, Parent(p)) ==> !FileOnPath(fs, Parent(p))
    {
      if p !in fs { AbsentHasNothingUnder(fs, p); }
      forall i | 0 <= i <= |Parent(p)| && IsDir(fs, Parent(p))
        ensures !IsFile(fs, Parent(p)[..i])
      {
        AncestorIsDir(fs, Parent(p)[..i], Parent(p));
      }
    }

    method RenameToTrash(ghost k: Tree) returns (e: Errno)
      requires Inv() && Accepted() && !vol.dead && original in vol.fs && IsDir(vol.fs, Parent(At().trash))
      requires Kept(vol.fs, At(), k)
      modifies vol
      ensures Inv() && (old(vol.disturbed) ==> vol.disturbed) && (e == Crashed <==> vol.dead)
      ensures Kept(vol.fs, At(), k) && OnlyHere(old(vol.fs), vol.fs, At())
      ensures SameUnder(old(vol.fs), vol.fs, At().meta)
      ensures e == CrossDevice ==> vol.fs == old(vol.fs) && Across()
      ensures vol.fs == old(vol.fs) || e == Ok || vol.dead
      ensures vol.fs == old(vol.fs) ||
        (Whole(vol.fs, At().trash, Content(old(vol.fs), original)) && original !in vol.fs)
      ensures e == Ok ==> original !in vol.fs && Holds(vol.fs, At().trash, Content(old(vol.fs), original))
      ensures e == Ok ==> Whole(vol.fs, At().trash, Content(old(vol.fs), original))
      ensures !vol.disturbed ==> e == if Across() then CrossDevice else if At().trash in old(vol.fs) then Exists else Ok
    {
      hide Content, Moved, WellFormed;
      AcceptedIsSeparate();
      ghost var before := vol.fs;
      e := vol.RenameNoReplace(original, At().trash);
      if vol.fs != before || e == Ok { RenamedToTrash(before, k); }
    }

    lemma RenamedToTrash(before: Tree, k: Tree)
      requires Inv() && Accepted() && WellFormed(before) && Kept(before, At(), k)
      requires RenameErr(before, original, At().trash, true) == Ok
      ensures var after := Moved(before, original, At().trash);
        && Kept(after, At(), k) && OnlyHere(before, after, At()) && SameUnder(before, after, At().meta)
        && original !in after && Whole(after, At().trash, Content(before, original))
        && Holds(after, At().trash, Content(before, original))
    {
      AcceptedIsSeparate();
      var trash := At().trash;
      MovedElsewhere(before, original, trash, At());
      MovedSameUnder(before, original, trash, At().meta);
      MovedWhole(before, original, trash);
      WholeHolds(Moved(before, original, trash), trash, Content(before, original));
      MovedIsKept(before, k);
    }

    lemma MovedIsKept(before: Tree, k: Tree)
      requires Inv() && Accepted() && WellFormed(before) && Kept(before, At(), k)
      requires At().trash !in before
      requires Content(Moved(before, original, At().trash), At().trash) == Content(before, original)
      ensures Kept(Moved(before, original, At().trash), At(), k)
    {
      var trash := At().trash;
      if Holds(before, original, k) {
        forall rel {:trigger rel in k} | rel in k
          ensures trash + rel in Moved(before, original, trash) && Moved(before, original, trash)[trash + rel] == k[rel]
        {
          assert rel in Content(before, original);
        }
      } else {
        NothingKeptInNothing(before, trash, k);
      }
    }

    lemma NothingKeptInNothing(fs: Tree, p: Path, k: Tree)
      requires WellFormed(fs) && Holds(fs, p, k) && p !in fs
      ensures k == map[]
      ensures forall q: Path, t: Tree {:trigger Holds(t, q, k)} :: Holds(t, q, k)
    {
      AbsentHasNothingUnder(fs, p);
      assert forall rel {:trigger rel in k} :: rel in k ==> p + rel in Under(fs, p);
      assert k.Keys == {};
    }

    method CopyToTrash(ghost k: Tree) returns (e: Errno)
      requires Inv() && Accepted() && !vol.dead && original in vol.fs && Kept(vol.fs, At(), k)
      modifies vol
      ensures Inv() && (old(vol.disturbed) ==> vol.disturbed) && (e == Crashed <==> vol.dead)
      ensures Kept(vol.fs, At(), k) && OnlyHere(old(vol.fs), vol.fs, At())
      ensures SameUnder(old(vol.fs), vol.fs, At().meta) && SameUnder(old(vol.fs), vol.fs, original)
      ensures e == Ok ==> Holds(vol.fs, At().trash, k) && Holds(vol.fs, At().trash, Content(old(vol.fs), original))
      ensures e == Ok && Under(old(vol.fs), At().trash) == {} ==> Whole(vol.fs, At().trash, Content(old(vol.fs), original))
      ensures !vol.disturbed ==> (e == Ok <==> Mergeable(old(vol.fs), original, At().trash))
    {
      hide FileOnPath, Mergeable;
      AcceptedIsSeparate();
      ghost var before := vol.fs;
      var trash := At().trash;
      e := CopyPath(vol, original, trash);
      AddedElsewhere(before, vol.fs, trash, At());
      assert SameUnder(before, vol.fs, At().meta) && SameUnder(before, vol.fs, original);
      HoldsStays(before, vol.fs, trash, original, k);
      HoldsStays(before, vol.fs, trash, trash, k);
      if e == Ok { CopyHoldsMore(before, vol.fs, k); }
    }

    lemma HoldsStays(before: Tree, after: Tree, dst: Path, p: Path, k: Tree)
      requires Added(before, after, dst)
      ensures Holds(before, p, k) ==> Holds(after, p, k)
    {}

    lemma CopyHoldsMore(before: Tree, after: Tree, k: Tree)
      requires Inv() && original in before && Holds(after, At().trash, Content(before, original))
      ensures Holds(before, original, k) ==> Holds(after, At().trash, k)
      ensures At().trash in after
    {
      assert original + [] == original && At().trash + [] == At().trash;
      assert [] in Content(before, original);
      if Holds(before, original, k) {
        forall rel {:trigger rel in k} | rel in k
          ensures At().trash + rel in after && after[At().trash + rel] == k[rel]
        {
          assert rel in Content(before, original);
        }
      }
    }

    method RemoveOriginal(ghost k: Tree, ghost c: Tree) returns (e: Errno)
      requires Inv() && Accepted() && !vol.dead && Holds(vol.fs, At().trash, k) && Holds(vol.fs, At().trash, c)
      modifies vol
      ensures Inv() && (old(vol.disturbed) ==> vol.disturbed) && (e == Crashed <==> vol.dead)
      ensures Kept(vol.fs, At(), k) && OnlyHere(old(vol.fs), vol.fs, At()) && Holds(vol.fs, At().trash, c)
      ensures SameUnder(old(vol.fs), vol.fs, At().meta)
      ensures Whole(old(vol.fs), At().trash, c) ==> Whole(vol.fs, At().trash, c)
      ensures e == Ok ==> original !in vol.fs
      ensures (e == Ok || e == Fault || e == Crashed) && (e == Fault ==> vol.disturbed)
    {
      hide Content, Holds;
      AcceptedIsSeparate();
      ghost var before := vol.fs;
      e := vol.RemoveAll(original);
      PrunedElsewhere(before, vol.fs, original, At());
      assert SameUnder(before, vol.fs, At().trash) && SameUnder(before, vol.fs, At().meta);
      SameUnderSameContent(before, vol.fs, At().trash);
      SameUnderHolds(before, vol.fs, At().trash, k);
      SameUnderHolds(before, vol.fs, At().trash, c);
      assert original in vol.fs ==> original in Under(vol.fs, original);
    }

    /** What a first call needs. */
    ghost predicate CanTrash(fs: Tree)
      requires original != []
    {
      && Accepted() && original in fs && At().meta !in fs
      && !FileOnPath(fs, FilesDir(root)) && !FileOnPath(fs, MetaDir(root))
    }

    /** The metadata is there and the trash copy, or a part of it, is too: a repeated call answers at once. */
    ghost predicate Answered(fs: Tree)
      requires original != []
    {
      Meta(fs) == Readable && At().trash in fs
    }

    /**
     Moves the entry to the trash. Whatever state an earlier call left, nothing of `k` is lost: at every moment the
     original or the trash copy has all of it.
     */
    method TrashWithID(ghost k: Tree) returns (r: Result)
      requires Inv() && !vol.dead && Kept(vol.fs, At(), k)
      modifies vol
      ensures Inv() && Kept(vol.fs, At(), k) && OnlyHere(old(vol.fs), vol.fs, At())
      ensures old(vol.disturbed) ==> vol.disturbed
      ensures Answered(old(vol.fs)) ==> r == Done && vol.fs == old(vol.fs)
      ensures !Answered(old(vol.fs)) && (!Accepted() || original !in old(vol.fs)) ==>
        && vol.fs == old(vol.fs)
        && r == Error(if isRoot then RootOperation else if original !in old(vol.fs) then NotFound else InsideTrash)
      ensures r == Done && !Answered(old(vol.fs)) ==>
        && original !in vol.fs && Meta(vol.fs) == Readable && Holds(vol.fs, At().trash, Content(old(vol.fs), original))
        && (At().trash !in old(vol.fs) ==> Whole(vol.fs, At().trash, Content(old(vol.fs), original)))
      ensures At().meta in old(vol.fs) && !Answered(old(vol.fs)) ==> r.Error? && Steady(old(vol.fs), vol.fs, At())
      ensures !vol.disturbed ==> (r == Done <==> Answered(old(vol.fs)) || (CanTrash(old(vol.fs)) && NotInTheWay(old(vol.fs))))
      ensures !vol.disturbed && r.Error? ==> Meta(vol.fs) == Meta(old(vol.fs))
      ensures !Across() && original in old(vol.fs) ==>
        || InTrash(vol.fs, At(), Content(old(vol.fs), original))
        || Steady(old(vol.fs), vol.fs, At())
      ensures Across() || SameUnder(old(vol.fs), vol.fs, original) || Meta(vol.fs) == Readable
      ensures SameUnder(old(vol.fs), vol.fs, original) || Meta(vol.fs) == Readable || r == Error(Io(Fault))
    {
      hide Kept, Holds, Content, FileOnPath, WellFormed, Steady, SameUnder, OnlyHere, InTrash, Entry.NotInTheWay;
      ghost var before := vol.fs;
      FramesStart(before);
      SameAsItself(before);
      if Meta(vol.fs) == Readable && At().trash in vol.fs { return Done; }
      if isRoot { return Error(RootOperation); }
      if original !in vol.fs { return Error(NotFound); }
      if TrashRoot(root) <= original { return Error(InsideTrash); }
      var e := MakeDirs(k);
      SteadyKeepsContent(before, vol.fs);
      SteadyOriginal(before, vol.fs);
      StillInTheWay(before, vol.fs);
      SameUnderSameContent(before, vol.fs, At().meta);
      MetaSame(before);
      if e != Ok { return Error(Io(e)); }
      ghost var mid := vol.fs;
      r := WriteAndMove(k);
      OnlyHereTransitive(before, mid, vol.fs, At());
      AllSame(before, mid, vol.fs);
      if SameUnder(mid, vol.fs, original) { SameUnderTransitive(before, mid, vol.fs, original); }
    }

    /** What is in the way in the trash stays so while the original and the trash copy are as they were. */
    lemma StillInTheWay(a: Tree, b: Tree)
      requires Inv() && Accepted() && WellFormed(a) && WellFormed(b) && Steady(a, b, At())
      ensures NotInTheWay(a) <==> NotInTheWay(b)
    {
      hide FileOnPath;
      assert At().trash in a <==> At().trash in b by { assert SameUnder(a, b, At().trash); }
      if At().trash in a {
        MergesAlike(a, b);
        MergesAlike(b, a);
      }
    }

    lemma MergesAlike(a: Tree, b: Tree)
      requires Inv() && WellFormed(a) && WellFormed(b) && At().trash in a && At().trash in b
      requires SameUnder(a, b, original) && SameUnder(a, b, At().trash)
      ensures Mergeable(a, original, At().trash) ==> Mergeable(b, original, At().trash)
    {
      var trash := At().trash;
      forall p | Mergeable(a, original, trash) && p in b && original <= p
        ensures FitsAt(b, original, trash, p)
      {
        assert FitsAt(a, original, trash, p);
        var t := trash + p[|original|..];
        SameFilesOnPath(a, b, t);
        SameFilesOnPath(a, b, Parent(t));
      }
    }

    /** At and below the trash copy, and on the way to it, the two trees have the same files. */
    lemma SameFilesOnPath(a: Tree, b: Tree, t: Path)
      requires WellFormed(a) && WellFormed(b) && original != [] && At().trash in a && At().trash in b && SameUnder(a, b, At().trash)
      requires At().trash <= t || t == Parent(At().trash)
      ensures FileOnPath(b, t) ==> FileOnPath(a, t)
    {
      var trash := At().trash;
      forall i | 0 <= i <= |t| && IsFile(b, t[..i])
        ensures IsFile(a, t[..i])
      {
        if !(trash <= t[..i]) {
          assert t[..i] <= trash && t[..i] != trash;
          AncestorIsDir(b, t[..i], trash);
        }
      }
    }

    lemma SteadyOriginal(a: Tree, b: Tree)
      requires original != [] && Steady(a, b, At())
      ensures SameUnder(a, b, original)
    {}

    lemma SteadyKeepsContent(a: Tree, b: Tree)
      requires original != [] && Steady(a, b, At())
      ensures Content(a, original) == Content(b, original)
      ensures (At().trash in a <==> At().trash in b) && (original in a <==> original in b)
    {
      SameUnderSameContent(a, b, original);
      SameUnderSameContent(a, b, At().trash);
    }

    /** The metadata, then the move; a move that fails takes the metadata back. */
    method WriteAndMove(ghost k: Tree) returns (r: Result)
      requires Inv() && Accepted() && !vol.dead && original in vol.fs && Kept(vol.fs, At(), k)
      requires IsDir(vol.fs, FilesDir(root)) && IsDir(vol.fs, MetaDir(root))
      modifies vol
      ensures Inv() && Kept(vol.fs, At(), k) && OnlyHere(old(vol.fs), vol.fs, At())
      ensures old(vol.disturbed) ==> vol.disturbed
      ensures r == Done ==>
        && original !in vol.fs && Meta(vol.fs) == Readable && Holds(vol.fs, At().trash, Content(old(vol.fs), original))
        && (At().trash !in old(vol.fs) ==> Whole(vol.fs, At().trash, Content(old(vol.fs), original)))
      ensures At().meta in old(vol.fs) ==> r.Error? && Steady(old(vol.fs), vol.fs, At())
      ensures !vol.disturbed ==> (r == Done <==> At().meta !in old(vol.fs) && NotInTheWay(old(vol.fs)))
      ensures !vol.disturbed && r.Error? ==> Meta(vol.fs) == Meta(old(vol.fs))
      ensures r == Done || r.Error?
      ensures Across() || InTrash(vol.fs, At(), Content(old(vol.fs), original)) || Steady(old(vol.fs), vol.fs, At())
      ensures SameUnder(old(vol.fs), vol.fs, original) || Meta(vol.fs) == Readable || (r == Error(Io(Fault)) && Across())
    {
      hide Kept, Holds, Content, WellFormed, Steady, SameUnder, OnlyHere, InTrash, Whole, Entry.NotInTheWay;
      ghost var before := vol.fs;
      assert Parent(At().trash) == FilesDir(root);
      var e := WriteEntry();
      AfterWrite(before, k);
      SteadyOriginal(before, vol.fs);
      if e == Ok { StillInTheWay(before, vol.fs); }
      if e != Ok { return Error(Io(e)); }
      ghost var late := vol.fs;
      e := MoveToTrash(k);
      FramesMeet(before, late);
      OneDevice(before, late);
      if e != Ok {
        ghost var failed := vol.fs;
        MetaSame(late);
        DropMeta(k);
        FramesMeet(before, failed);
        AllSame(before, failed, vol.fs);
        MetaOrOriginal(before, late, failed);
        SteadyRests(failed, vol.fs, At(), Content(before, original));
        return Error(Io(e));
      }
      MetaStays(late);
      return Done;
    }

    /** On one device the entry has moved, or nothing has. */
    lemma OneDevice(before: Tree, late: Tree)
      requires Inv() && Steady(before, late, At()) && Content(late, original) == Content(before, original)
      requires Across() || vol.fs == late || InTrash(vol.fs, At(), Content(late, original))
      ensures Across() || Steady(before, vol.fs, At()) || InTrash(vol.fs, At(), Content(before, original))
    {}

    /** After a move that failed and the removal of the metadata. */
    lemma MetaOrOriginal(before: Tree, late: Tree, failed: Tree)
      requires original != [] && Steady(before, late, At()) && Steady(failed, vol.fs, At())
      ensures SameUnder(late, failed, original) ==> SameUnder(before, vol.fs, original)
      ensures Meta(late) == Readable && SameUnder(late, failed, At().meta) && vol.fs == failed ==> Meta(vol.fs) == Readable
    {
      assert At().meta <= At().meta;
    }

    lemma MetaSame(a: Tree)
      requires original != [] && SameUnder(a, vol.fs, At().meta)
      ensures Meta(a) == Meta(vol.fs)
    {
      assert At().meta <= At().meta;
    }

    lemma MetaStays(late: Tree)
      requires Inv() && Meta(late) == Readable && SameUnder(late, vol.fs, At().meta)
      ensures Meta(vol.fs) == Readable
    {
      assert At().meta <= At().meta;
    }

    method MakeDirs(ghost k: Tree) returns (e: Errno)
      requires Inv() && Accepted() && !vol.dead && original in vol.fs && Kept(vol.fs, At(), k)
      modifies vol
      ensures Inv() && Kept(vol.fs, At(), k) && (old(vol.disturbed) ==> vol.disturbed) && (e == Crashed <==> vol.dead)
      ensures OnlyHere(old(vol.fs), vol.fs, At()) && Steady(old(vol.fs), vol.fs, At())
      ensures SameUnder(old(vol.fs), vol.fs, At().meta)
      ensures e == Ok ==> IsDir(vol.fs, FilesDir(root)) && IsDir(vol.fs, MetaDir(root))
      ensures e == Ok ==> !FileOnPath(old(vol.fs), FilesDir(root)) && !FileOnPath(old(vol.fs), MetaDir(root))
      ensures !vol.disturbed && !FileOnPath(old(vol.fs), FilesDir(root)) && !FileOnPath(old(vol.fs), MetaDir(root)) ==> e == Ok
    {
      hide FileOnPath, OnlyHere, SameUnder, Kept, WellFormed, Grown;
      ghost var before := vol.fs;
      e := vol.MkdirAll(FilesDir(root));
      DirsElsewhere(before, vol.fs, FilesDir(root), k);
      if e != Ok { return; }
      ghost var mid := vol.fs;
      e := vol.MkdirAll(MetaDir(root));
      DirsElsewhere(mid, vol.fs, MetaDir(root), k);
      StaysDir(mid, vol.fs, FilesDir(root), MetaDir(root));
      AllSame(before, mid, vol.fs);
      if e == Ok { NoFileAbove(vol.fs, FilesDir(root)); NoFileAbove(vol.fs, MetaDir(root)); }
    }

    lemma StaysDir(before: Tree, after: Tree, d: Path, p: Path)
      requires Grown(before, after, p)
      ensures IsDir(before, d) ==> IsDir(after, d)
    {}

    lemma NoFileAbove(fs: Tree, d: Path)
      requires WellFormed(fs) && IsDir(fs, d)
      ensures !FileOnPath(fs, d)
    {
      forall i | 0 <= i <= |d|
        ensures !IsFile(fs, d[..i])
      {
        AncestorIsDir(fs, d[..i], d);
      }
    }

    lemma AllSame(a: Tree, b: Tree, c: Tree)
      requires original != []
      ensures OnlyHere(a, b, At()) && OnlyHere(b, c, At()) ==> OnlyHere(a, c, At())
      ensures Steady(a, b, At()) && Steady(b, c, At()) ==> Steady(a, c, At())
      ensures SameUnder(a, b, At().meta) && SameUnder(b, c, At().meta) ==> SameUnder(a, c, At().meta)
    {}

    /** The trash's own directories are on no place's way but the trash's and the metadata's. */
    lemma DirsElsewhere(a: Tree, b: Tree, d: Path, k: Tree)
      requires Inv() && Accepted() && d in {FilesDir(root), MetaDir(root)} && Grown(a, b, d)
      ensures OnlyHere(a, b, At()) && Steady(a, b, At()) && SameUnder(a, b, At().meta)
      ensures Kept(a, At(), k) ==> Kept(b, At(), k)
      ensures forall p {:trigger FileOnPath(b, p)} :: FileOnPath(a, p) <==> FileOnPath(b, p)
    {
      AcceptedIsSeparate();
      var w := At();
      assert FilesDir(root) <= w.trash && MetaDir(root) <= w.meta;
      GrownElsewhere(a, b, d, w);
      assert SameUnder(a, b, w.original) && SameUnder(a, b, w.trash) && SameUnder(a, b, w.temp) && SameUnder(a, b, w.meta);
      SameUnderHolds(a, b, w.original, k);
      SameUnderHolds(a, b, w.trash, k);
      assert forall q :: IsFile(a, q) <==> IsFile(b, q);
    }

    lemma AfterWrite(before: Tree, k: Tree)
      requires Inv() && Steady(before, vol.fs, At()) && Kept(before, At(), k)
      ensures Kept(vol.fs, At(), k) && Content(vol.fs, original) == Content(before, original)
      ensures (At().trash in vol.fs <==> At().trash in before) && (original in vol.fs <==> original in before)
    {
      SteadyKeepsContent(before, vol.fs);
      SteadyKeeps(before, vol.fs, k);
    }

    /** Removes the metadata; the outcome is ignored. */
    method DropMeta(ghost k: Tree)
      requires Inv() && Accepted() && Kept(vol.fs, At(), k)
      modifies vol
      ensures Inv() && Kept(vol.fs, At(), k) && (old(vol.disturbed) ==> vol.disturbed)
      ensures OnlyHere(old(vol.fs), vol.fs, At()) && Steady(old(vol.fs), vol.fs, At())
      ensures old(vol.dead) ==> vol.dead && vol.fs == old(vol.fs)
      ensures At().meta in old(vol.fs) && old(vol.fs)[At().meta].File? && !vol.disturbed ==> At().meta !in vol.fs
    {
      hide OnlyHere, Steady, Kept;
      ghost var before := vol.fs;
      var _ := vol.Remove(At().meta);
      MetaWritten(before, vol.fs);
      SteadyKeeps(before, vol.fs, k);
      if IsFile(before, At().meta) { FileIsLeaf(before, At().meta); }
    }

    lemma SteadyKeeps(before: Tree, after: Tree, k: Tree)
      requires original != [] && Steady(before, after, At())
      ensures Kept(before, At(), k) ==> Kept(after, At(), k)
    {
      SameUnderHolds(before, after, At().original, k);
      SameUnderHolds(before, after, At().trash, k);
    }

    // ----- Restoring -----

    predicate Across() {
      original != [] && vol.device(At().trash) != vol.device(original)
    }

    /** Something is at the original path while there is something to restore. */
    ghost predicate Occupied(fs: Tree)
      requires original != []
    {
      original in fs && (At().trash in fs || At().temp in fs)
    }

    /** There is nothing to restore, and nothing has been. */
    ghost predicate Nothing(fs: Tree)
      requires original != []
    {
      original !in fs && At().trash !in fs && At().temp !in fs
    }

    /** What a call needs to bring the entry back. */
    ghost predicate CanRestore(fs: Tree)
      requires original != []
    {
      && Meta(fs) == Readable && !Occupied(fs) && !Nothing(fs)
      && (original !in fs ==>
           !FileOnPath(fs, Parent(original)) && (At().trash in fs && Across() ==> !IsFile(fs, Parent(At().temp))))
    }

    /** The content is back, and nothing of it is left in the trash. */
    ghost predicate Restored(fs: Tree, k: Tree)
      requires original != []
    {
      Back(fs, At(), k) && At().meta !in fs
    }

    /** What every step of a restore before the last keeps. */
    twostate predicate StepKept(e: Errno)
      requires original != []
      reads vol
    {
      && Inv() && (old(vol.disturbed) ==> vol.disturbed) && (e == Crashed <==> vol.dead)
      && OnlyHere(old(vol.fs), vol.fs, At()) && SameUnder(old(vol.fs), vol.fs, At().meta)
    }

    /** A directory on the way to the original or to the temporary copy. */
    lemma WaysElsewhere(a: Tree, b: Tree, d: Path)
      requires Inv() && Accepted() && d in {Parent(original), Parent(At().temp)} && Grown(a, b, d)
      ensures OnlyHere(a, b, At()) && Steady(a, b, At()) && SameUnder(a, b, At().meta)
      ensures IsFile(a, Parent(At().temp)) <==> IsFile(b, Parent(At().temp))
    {
      AcceptedIsSeparate();
      var w := At();
      assert Parent(w.temp) == Parent(original) + [TEMP_DIR];
      assert Parent(original) <= original && Parent(w.temp) <= w.temp && Parent(original) <= Parent(w.temp);
      GrownElsewhere(a, b, d, w);
      assert SameUnder(a, b, w.original) && SameUnder(a, b, w.trash) && SameUnder(a, b, w.temp) && SameUnder(a, b, w.meta);
    }

    method MakeWay(ghost k: Tree) returns (e: Errno)
      requires Inv() && Accepted() && !vol.dead
      modifies vol
      ensures StepKept(e) && Steady(old(vol.fs), vol.fs, At())
      ensures Resting(old(vol.fs), At(), k) ==> Resting(vol.fs, At(), k)
      ensures Nothing(old(vol.fs)) ==> Nothing(vol.fs)
      ensures e == Ok ==> IsDir(vol.fs, Parent(original)) && !FileOnPath(old(vol.fs), Parent(original))
      ensures !vol.disturbed && !FileOnPath(old(vol.fs), Parent(original)) ==> e == Ok
      ensures IsFile(old(vol.fs), Parent(At().temp)) <==> IsFile(vol.fs, Parent(At().temp))
    {
      hide InTrash, InTemp, Back, Steady, OnlyHere, SameUnder, WellFormed, FileOnPath, Grown;
      ghost var before := vol.fs;
      e := vol.MkdirAll(Parent(original));
      WaysElsewhere(before, vol.fs, Parent(original));
      SteadyRests(before, vol.fs, At(), k);
      SteadyPlaces(before, vol.fs);
      if e == Ok {
        NoFileAbove(vol.fs, Parent(original));
        GrownFiles(before, vol.fs, Parent(original));
      }
    }

    lemma SteadyPlaces(a: Tree, b: Tree)
      requires original != [] && Steady(a, b, At())
      ensures Nothing(a) <==> Nothing(b)
    {
      SameUnderSameContent(a, b, original);
      SameUnderSameContent(a, b, At().trash);
      SameUnderSameContent(a, b, At().temp);
    }

    /** The trash copy is gone and the temporary copy is not there: the rename finds nothing. */
    method RenameNothing() returns (e: Errno)
      requires Inv() && Accepted() && !vol.dead && Nothing(vol.fs)
      modifies vol
      ensures StepKept(e) && e != Ok && vol.fs == old(vol.fs)
    {
      FramesStart(vol.fs);
      e := vol.RenameNoReplace(At().trash, original);
    }

    lemma GrownFiles(a: Tree, b: Tree, d: Path)
      requires Grown(a, b, d)
      ensures FileOnPath(a, d) <==> FileOnPath(b, d)
    {
      assert forall q :: IsFile(a, q) <==> IsFile(b, q);
    }

    /** The temporary copy becomes the original. */
    method RenameTemp(ghost k: Tree) returns (e: Errno)
      requires Inv() && Accepted() && !vol.dead && InTemp(vol.fs, At(), k)
      modifies vol
      ensures StepKept(e)
      ensures InTemp(vol.fs, At(), k) || Back(vol.fs, At(), k)
      ensures e == Ok ==> Back(vol.fs, At(), k)
      ensures !vol.disturbed && IsDir(old(vol.fs), Parent(original)) ==> e == Ok
    {
      hide WellFormed, Moved, Content;
      AcceptedIsSeparate();
      ghost var before := vol.fs;
      e := vol.RenameNoReplace(At().temp, original);
      if vol.fs != before || e == Ok {
        MovedElsewhere(before, At().temp, original, At());
        MovedSameUnder(before, At().temp, original, At().meta);
        MovedSameUnder(before, At().temp, original, At().trash);
        MovedWhole(before, At().temp, original);
        SameUnderSameContent(before, vol.fs, At().trash);
      }
    }

    /** An unfinished temporary copy is removed before a new one is made. */
    method ClearTemp(ghost k: Tree) returns (e: Errno)
      requires Inv() && Accepted() && !vol.dead && InTrash(vol.fs, At(), k)
      modifies vol
      ensures StepKept(e) && InTrash(vol.fs, At(), k)
      ensures (e == Ok ==> At().temp !in vol.fs) && (!vol.disturbed ==> e == Ok)
      ensures IsDir(old(vol.fs), Parent(original)) ==> IsDir(vol.fs, Parent(original))
      ensures IsFile(old(vol.fs), Parent(At().temp)) <==> IsFile(vol.fs, Parent(At().temp))
    {
      hide WellFormed, Content;
      AcceptedIsSeparate();
      ghost var before := vol.fs;
      var temp := At().temp;
      e := vol.RemoveAll(temp);
      PrunedElsewhere(before, vol.fs, temp, At());
      assert SameUnder(before, vol.fs, original) && SameUnder(before, vol.fs, At().trash) && SameUnder(before, vol.fs, At().meta);
      SameUnderSameContent(before, vol.fs, original);
      SameUnderSameContent(before, vol.fs, At().trash);
      assert temp in vol.fs ==> temp in Under(vol.fs, temp);
      assert !(temp <= Parent(temp)) && !(temp <= Parent(original));
    }

    /** On one device the trash copy itself goes back. */
    method RenameTrash(ghost k: Tree) returns (e: Errno)
      requires Inv() && Accepted() && !vol.dead && InTrash(vol.fs, At(), k) && At().temp !in vol.fs && IsDir(vol.fs, Parent(original))
      modifies vol
      ensures StepKept(e)
      ensures InTrash(vol.fs, At(), k) || Back(vol.fs, At(), k)
      ensures e == Ok ==> Back(vol.fs, At(), k) && !Across()
      ensures e == CrossDevice ==> vol.fs == old(vol.fs) && Across()
      ensures !vol.disturbed ==> e == if Across() then CrossDevice else Ok
    {
      hide WellFormed, Moved, Content;
      AcceptedIsSeparate();
      ghost var before := vol.fs;
      e := vol.RenameNoReplace(At().trash, original);
      if vol.fs != before || e == Ok {
        MovedElsewhere(before, At().trash, original, At());
        MovedSameUnder(before, At().trash, original, At().meta);
        MovedSameUnder(before, At().trash, original, At().temp);
        MovedWhole(before, At().trash, original);
        SameUnderSameContent(before, vol.fs, At().temp);
      }
    }

    /** Across devices the trash copy is first copied beside the original. */
    method CopyToTemp(ghost k: Tree) returns (e: Errno)
      requires Inv() && Accepted() && !vol.dead && InTrash(vol.fs, At(), k) && At().temp !in vol.fs && IsDir(vol.fs, Parent(original))
      modifies vol
      ensures StepKept(e) && InTrash(vol.fs, At(), k)
      ensures e == Ok ==> Whole(vol.fs, At().temp, k) && !IsFile(old(vol.fs), Parent(At().temp))
      ensures !vol.disturbed && !IsFile(old(vol.fs), Parent(At().temp)) ==> e == Ok
      ensures IsDir(vol.fs, Parent(original))
    {
      hide WellFormed, InTrash, OnlyHere, SameUnder, Steady, FileOnPath, Whole;
      ghost var before := vol.fs;
      e := vol.MkdirAll(Parent(At().temp));
      WaysElsewhere(before, vol.fs, Parent(At().temp));
      SteadyRests(before, vol.fs, At(), k);
      OneMoreStep(before, Parent(original), Parent(At().temp));
      if e != Ok { return; }
      ghost var mid := vol.fs;
      e := FillTemp(k);
      OnlyHereTransitive(before, mid, vol.fs, At());
      SameUnderTransitive(before, mid, vol.fs, At().meta);
    }

    lemma SameUnderTransitive(a: Tree, b: Tree, c: Tree, p: Path)
      requires SameUnder(a, b, p) && SameUnder(b, c, p)
      ensures SameUnder(a, c, p)
    {}

    lemma OneMoreStep(fs: Tree, d: Path, sub: Path)
      requires WellFormed(fs) && IsDir(fs, d) && sub != [] && d == Parent(sub)
      ensures FileOnPath(fs, sub) ==> IsFile(fs, sub)
    {
      if FileOnPath(fs, sub) {
        var i :| 0 <= i <= |sub| && IsFile(fs, sub[..i]);
        if i < |sub| {
          assert sub[..i] == d[..i];
          AncestorIsDir(fs, d[..i], d);
        } else {
          assert sub[..i] == sub;
        }
      }
    }

    method FillTemp(ghost k: Tree) returns (e: Errno)
      requires Inv() && Accepted() && !vol.dead && InTrash(vol.fs, At(), k) && At().temp !in vol.fs && IsDir(vol.fs, Parent(At().temp))
      modifies vol
      ensures StepKept(e) && InTrash(vol.fs, At(), k)
      ensures e == Ok ==> Whole(vol.fs, At().temp, k)
      ensures !vol.disturbed ==> e == Ok
      ensures IsDir(old(vol.fs), Parent(original)) ==> IsDir(vol.fs, Parent(original))
    {
      hide FileOnPath, Content, WellFormed;
      AcceptedIsSeparate();
      ghost var before := vol.fs;
      FreeGround(before, At().temp);
      e := CopyPath(vol, At().trash, At().temp);
      AddedElsewhere(before, vol.fs, At().temp, At());
      assert SameUnder(before, vol.fs, original) && SameUnder(before, vol.fs, At().trash) && SameUnder(before, vol.fs, At().meta);
      SameUnderSameContent(before, vol.fs, original);
      SameUnderSameContent(before, vol.fs, At().trash);
      if e == Ok { CopyHoldsRoot(before, vol.fs); }
    }

    lemma CopyHoldsRoot(before: Tree, after: Tree)
      requires Inv() && At().trash in before && Holds(after, At().temp, Content(before, At().trash))
      ensures At().temp in after
    {
      assert At().trash + [] == At().trash && At().temp + [] == At().temp;
      assert [] in Content(before, At().trash);
    }

    /** The removal of the trash copy, once the temporary copy is whole. Cut short, it tears a directory, never a file. */
    method RemoveTrash(ghost k: Tree) returns (e: Errno)
      requires Inv() && Accepted() && !vol.dead && InTrash(vol.fs, At(), k) && Whole(vol.fs, At().temp, k)
      modifies vol
      ensures StepKept(e)
      ensures InTrash(vol.fs, At(), k) || InTemp(vol.fs, At(), k) || (Torn(vol.fs, At(), k) && |k| != 1)
      ensures e == Ok ==> InTemp(vol.fs, At(), k)
      ensures !vol.disturbed ==> e == Ok
      ensures IsDir(old(vol.fs), Parent(original)) ==> IsDir(vol.fs, Parent(original))
    {
      hide Content, WellFormed;
      AcceptedIsSeparate();
      ghost var before := vol.fs;
      var trash := At().trash;
      e := vol.RemoveAll(trash);
      PrunedElsewhere(before, vol.fs, trash, At());
      assert SameUnder(before, vol.fs, original) && SameUnder(before, vol.fs, At().temp) && SameUnder(before, vol.fs, At().meta);
      SameUnderSameContent(before, vol.fs, original);
      SameUnderSameContent(before, vol.fs, At().temp);
      PrunedSingle(before, vol.fs, trash, k);
      assert trash in vol.fs ==> trash in Under(vol.fs, trash);
      assert trash <= Parent(original) ==> trash <= original;
    }

    /** From the trash to the original path: one rename, or a copy, a removal and a rename. */
    method BringBack(ghost k: Tree) returns (e: Errno)
      requires Inv() && Accepted() && !vol.dead && InTrash(vol.fs, At(), k) && IsDir(vol.fs, Parent(original))
      modifies vol
      ensures StepKept(e)
      ensures Resting(vol.fs, At(), k) || (Torn(vol.fs, At(), k) && |k| != 1 && Across())
      ensures e == Ok ==> Back(vol.fs, At(), k)
      ensures !vol.disturbed ==> (e == Ok <==> !(Across() && IsFile(old(vol.fs), Parent(At().temp))))
    {
      hide InTrash, InTemp, Back, Torn, Whole, OnlyHere, SameUnder, WellFormed;
      ghost var a := vol.fs;
      FramesStart(a);
      InTrashThere(k);
      e := Ok;
      if At().temp in vol.fs { e := ClearTemp(k); }
      if e != Ok { return; }
      ghost var b := vol.fs;
      e := RenameTrash(k);
      FramesMeet(a, b);
      if e != CrossDevice { return; }
      e := CopyToTemp(k);
      FramesMeet(a, b);
      if e != Ok { return; }
      ghost var c := vol.fs;
      e := RemoveTrash(k);
      FramesMeet(a, c);
      if e != Ok { return; }
      ghost var d := vol.fs;
      e := RenameTemp(k);
      FramesMeet(a, d);
    }

    lemma InTrashThere(k: Tree)
      requires original != [] && InTrash(vol.fs, At(), k)
      ensures At().trash in vol.fs && original !in vol.fs
    {}

    lemma FramesStart(a: Tree)
      requires original != []
      ensures OnlyHere(a, a, At()) && SameUnder(a, a, At().meta) && Steady(a, a, At())
    {}

    lemma FramesMeet(a: Tree, b: Tree)
      requires original != []
      ensures OnlyHere(a, b, At()) && OnlyHere(b, vol.fs, At()) ==> OnlyHere(a, vol.fs, At())
      ensures SameUnder(a, b, At().meta) && SameUnder(b, vol.fs, At().meta) ==> SameUnder(a, vol.fs, At().meta)
    {}

    /** The last step: the metadata goes. */
    method DropEntry(ghost k: Tree) returns (r: Result)
      requires Inv() && Accepted() && !vol.dead && Back(vol.fs, At(), k) && Meta(vol.fs) == Readable
      modifies vol
      ensures Inv() && (old(vol.disturbed) ==> vol.disturbed)
      ensures Back(vol.fs, At(), k) && OnlyHere(old(vol.fs), vol.fs, At())
      ensures r == Done ==> At().meta !in vol.fs
      ensures Meta(vol.fs) == Readable || At().meta !in vol.fs
      ensures !vol.disturbed ==> r == Done
      ensures r == Done || r.Error?
    {
      hide OnlyHere, Steady, Back;
      ghost var before := vol.fs;
      var e := vol.Remove(At().meta);
      MetaWritten(before, vol.fs);
      SteadyRests(before, vol.fs, At(), k);
      FileIsLeaf(before, At().meta);
      return if e == Ok then Done else Error(Io(e));
    }

    /**
     Restores the entry from any state. What occupies the original path is never replaced, and without a copy nothing
     is done. Otherwise all of `k` stays in one of the three places at every moment, but for one case: a directory that
     crosses devices can be torn by a crash inside the removal of the trash copy.
     */
    method Restore(ghost k: Tree) returns (r: Result)
      requires Inv() && Accepted() && !vol.dead
      modifies vol
      ensures Inv() && OnlyHere(old(vol.fs), vol.fs, At()) && (old(vol.disturbed) ==> vol.disturbed)
      ensures Meta(old(vol.fs)) == Missing ==> r == Error(NotFound)
      ensures Meta(old(vol.fs)) == Unreadable ==> r == Error(UnreadableEntry)
      ensures Meta(old(vol.fs)) != Readable ==> vol.fs == old(vol.fs)
      ensures Meta(old(vol.fs)) == Readable && Occupied(old(vol.fs)) ==> r == Error(DestinationExists) && vol.fs == old(vol.fs)
      ensures Meta(old(vol.fs)) == Readable && Nothing(old(vol.fs)) ==> r.Error? && Nothing(vol.fs) && Meta(vol.fs) == Readable
      ensures Resting(old(vol.fs), At(), k) ==>
        && (Resting(vol.fs, At(), k) || (Torn(vol.fs, At(), k) && |k| != 1 && Across()))
        && (r == Done ==> Back(vol.fs, At(), k) && At().meta !in vol.fs)
        && (Meta(old(vol.fs)) == Readable ==> Meta(vol.fs) == Readable || Restored(vol.fs, k))
        && (Back(old(vol.fs), At(), k) ==> Back(vol.fs, At(), k))
      ensures !vol.disturbed ==> (r == Done <==> CanRestore(old(vol.fs)))
    {
      hide InTrash, InTemp, Back, Torn, OnlyHere, SameUnder, Steady, WellFormed, FileOnPath, Resting, Content;
      ghost var a, f := vol.fs, Found(vol.fs, k);
      FramesStart(a);
      FoundRests(k);
      if Meta(vol.fs) == Missing { return Error(NotFound); }
      if Meta(vol.fs) == Unreadable { return Error(UnreadableEntry); }
      var trashExists, tempExists := At().trash in vol.fs, At().temp in vol.fs;
      if original in vol.fs {
        if trashExists || tempExists { return Error(DestinationExists); }
        WhereItIs(f);
        r := DropEntry(f);
        BackRests(f);
        return;
      }
      var e := MakeWay(f);
      SteadyRests(a, vol.fs, At(), f);
      MetaStays(a);
      NotYetBack(a, f);
      if e != Ok { return Error(Io(e)); }
      ghost var b := vol.fs;
      if !tempExists && !trashExists {
        e := RenameNothing();
      } else {
        WhereItIs(f);
        SteadyThere(a);
        if tempExists && !trashExists { e := RenameTemp(f); } else { e := BringBack(f); }
        PlacesRest(f);
      }
      FramesMeet(a, b);
      MetaStays(a);
      if e != Ok { return Error(Io(e)); }
      ghost var c := vol.fs;
      r := DropEntry(f);
      BackRests(f);
      FramesMeet(a, c);
    }

    /** What a restore takes for the content of the entry: `k` if it is there, otherwise what it finds. */
    ghost function Found(fs: Tree, k: Tree): Tree
      requires original != []
    {
      if Resting(fs, At(), k) then k
      else Content(fs, if original in fs then original else if At().trash in fs then At().trash else At().temp)
    }

    lemma FoundRests(k: Tree)
      requires original != []
      ensures Resting(vol.fs, At(), k) ==> Found(vol.fs, k) == k && !Occupied(vol.fs) && !Nothing(vol.fs)
      ensures Resting(vol.fs, At(), Found(vol.fs, k)) || Occupied(vol.fs) || Nothing(vol.fs)
    {
      hide Content;
    }

    lemma NotYetBack(a: Tree, k: Tree)
      requires original != [] && original !in a
      ensures !Back(a, At(), k)
    {}

    lemma BackRests(k: Tree)
      requires original != [] && Back(vol.fs, At(), k)
      ensures Resting(vol.fs, At(), k)
    {}

    lemma PlacesRest(k: Tree)
      requires original != []
      ensures InTemp(vol.fs, At(), k) || Back(vol.fs, At(), k) ==> Resting(vol.fs, At(), k)
    {}

    lemma SteadyThere(a: Tree)
      requires original != [] && Steady(a, vol.fs, At())
      ensures (original in a <==> original in vol.fs) && (At().trash in a <==> At().trash in vol.fs)
      ensures At().temp in a <==> At().temp in vol.fs
    {
      SameUnderSameContent(a, vol.fs, original);
      SameUnderSameContent(a, vol.fs, At().trash);
      SameUnderSameContent(a, vol.fs, At().temp);
    }

    lemma WhereItIs(k: Tree)
      requires original != [] && Resting(vol.fs, At(), k)
      ensures original in vol.fs <==> Back(vol.fs, At(), k)
      ensures original in vol.fs ==> At().trash !in vol.fs && At().temp !in vol.fs
      ensures original !in vol.fs && At().trash !in vol.fs ==> At().temp in vol.fs && InTemp(vol.fs, At(), k)
      ensures original !in vol.fs && At().trash in vol.fs ==> InTrash(vol.fs, At(), k)
    {}

    // ----- Deleting for good -----

    /** The metadata goes only after the trash copy is gone, so a deletion that was cut short can be repeated. */
    method DeleteTrash() returns (r: Result)
      requires Inv() && Accepted() && !vol.dead
      modifies vol
      ensures Inv() && OnlyHere(old(vol.fs), vol.fs, At()) && (old(vol.disturbed) ==> vol.disturbed)
      ensures SameUnder(old(vol.fs), vol.fs, original) && SameUnder(old(vol.fs), vol.fs, At().temp)
      ensures r == Done ==> At().trash !in vol.fs && At().meta !in vol.fs
      ensures Meta(vol.fs) == Meta(old(vol.fs)) || (At().trash !in vol.fs && At().meta !in vol.fs)
      ensures Meta(old(vol.fs)) == Missing ==> r == Error(NotFound)
      ensures Meta(old(vol.fs)) == Unreadable ==> r == Error(UnreadableEntry)
      ensures Meta(old(vol.fs)) != Readable ==> vol.fs == old(vol.fs)
      ensures !vol.disturbed ==> (r == Done <==> Meta(old(vol.fs)) == Readable)
    {
      hide WellFormed, OnlyHere, SameUnder;
      ghost var a := vol.fs;
      FramesStart(a);
      SameAsItself(a);
      if Meta(vol.fs) == Missing { return Error(NotFound); }
      if Meta(vol.fs) == Unreadable { return Error(UnreadableEntry); }
      var e := RemoveCopy();
      MetaStays(a);
      if e != Ok { return Error(Io(e)); }
      ghost var b := vol.fs;
      e := RemoveEntry();
      FramesMeet(a, b);
      SameUnderTransitive(a, b, vol.fs, original);
      SameUnderTransitive(a, b, vol.fs, At().temp);
      return if e == Ok then Done else Error(Io(e));
    }

    lemma SameAsItself(a: Tree)
      ensures forall p {:trigger SameUnder(a, a, p)} :: SameUnder(a, a, p)
    {}

    method RemoveCopy() returns (e: Errno)
      requires Inv() && Accepted() && !vol.dead
      modifies vol
      ensures StepKept(e) && (e == Ok || e == Fault || e == Crashed) && (e == Fault ==> vol.disturbed)
      ensures SameUnder(old(vol.fs), vol.fs, original) && SameUnder(old(vol.fs), vol.fs, At().temp)
      ensures e == Ok ==> At().trash !in vol.fs
    {
      hide WellFormed;
      AcceptedIsSeparate();
      var trash := At().trash;
      e := vol.RemoveAll(trash);
      PrunedElsewhere(old(vol.fs), vol.fs, trash, At());
      assert trash in vol.fs ==> trash in Under(vol.fs, trash);
    }

    method RemoveEntry() returns (e: Errno)
      requires Inv() && Accepted() && !vol.dead && Meta(vol.fs) == Readable && At().trash !in vol.fs
      modifies vol
      ensures Inv() && (old(vol.disturbed) ==> vol.disturbed) && OnlyHere(old(vol.fs), vol.fs, At())
      ensures SameUnder(old(vol.fs), vol.fs, original) && SameUnder(old(vol.fs), vol.fs, At().temp)
      ensures At().trash !in vol.fs && (e == Ok ==> At().meta !in vol.fs) && (!vol.disturbed ==> e == Ok)
      ensures Meta(vol.fs) == Readable || At().meta !in vol.fs
    {
      ghost var b := vol.fs;
      FileIsLeaf(b, At().meta);
      e := vol.Remove(At().meta);
      MetaWritten(b, vol.fs);
      SteadyRests(b, vol.fs, At(), map[]);
    }

    // ----- Runs -----

    /** Any number of calls, each cut short anywhere or not, with the server started again in between. */
    method TrashAgainAndAgain(times: nat, ghost k: Tree)
      requires Inv() && Kept(vol.fs, At(), k)
      modifies vol
      ensures Inv() && Kept(vol.fs, At(), k) && OnlyHere(old(vol.fs), vol.fs, At())
    {
      hide Kept, OnlyHere, WellFormed;
      FramesStart(vol.fs);
      var n := 0;
      while n < times
        invariant Inv() && Kept(vol.fs, At(), k) && OnlyHere(old(vol.fs), vol.fs, At())
      {
        ghost var mid := vol.fs;
        if vol.dead { vol.Restart(); }
        var _ := TrashWithID(k);
        OnlyHereTransitive(old(vol.fs), mid, vol.fs, At());
        n := n + 1;
      }
    }

    /**
     The same for restores: however often a restore is cut short, the content is whole in one of its three places, and
     the next restore can still finish. It holds for everything on one device, and for single files across devices.
     */
    method RestoreAgainAndAgain(times: nat, ghost k: Tree)
      requires Inv() && Accepted() && Resting(vol.fs, At(), k) && (Across() ==> |k| == 1)
      modifies vol
      ensures Inv() && Resting(vol.fs, At(), k) && OnlyHere(old(vol.fs), vol.fs, At())
      ensures CanRestore(old(vol.fs)) ==> CanRestore(vol.fs) || Restored(vol.fs, k)
    {
      hide Resting, OnlyHere, WellFormed, Torn, CanRestore, Back;
      FramesStart(vol.fs);
      var n := 0;
      while n < times
        invariant Inv() && Resting(vol.fs, At(), k) && OnlyHere(old(vol.fs), vol.fs, At())
        invariant CanRestore(old(vol.fs)) ==> CanRestore(vol.fs) || Restored(vol.fs, k)
      {
        ghost var mid := vol.fs;
        if vol.dead { vol.Restart(); }
        var _ := Restore(k);
        OnlyHereTransitive(old(vol.fs), mid, vol.fs, At());
        StillCan(mid, k);
        n := n + 1;
      }
    }

    /** A call that was cut short leaves a state from which a restore can finish, or it had finished. */
    lemma StillCan(a: Tree, k: Tree)
      requires Inv() && Accepted() && WellFormed(a) && Resting(a, At(), k) && OnlyHere(a, vol.fs, At())
      requires Resting(vol.fs, At(), k) && (Meta(a) == Readable ==> Meta(vol.fs) == Readable || Restored(vol.fs, k))
      requires Meta(a) != Readable ==> vol.fs == a
      requires Back(a, At(), k) ==> Back(vol.fs, At(), k)
      ensures CanRestore(a) ==> CanRestore(vol.fs) || Restored(vol.fs, k)
      ensures Restored(a, k) ==> Restored(vol.fs, k)
    {
      if CanRestore(a) && original !in a { OpenWays(a, k); }
    }

    /** What is not in the way of one restore is not in the way of the next. */
    lemma OpenWays(a: Tree, k: Tree)
      requires Inv() && Accepted() && WellFormed(a) && Resting(a, At(), k) && OnlyHere(a, vol.fs, At())
      requires CanRestore(a) && original !in a
      ensures !FileOnPath(vol.fs, Parent(original)) && (Across() ==> !IsFile(vol.fs, Parent(At().temp)))
    {
      AcceptedIsSeparate();
      var w := At();
      assert Parent(original) <= original && Parent(w.temp) <= w.temp && !(w.temp <= Parent(w.temp));
      assert Parent(w.temp) == Parent(original) + [TEMP_DIR];
      forall i | 0 <= i <= |Parent(original)|
        ensures !IsFile(vol.fs, Parent(original)[..i])
      {
        var q := Parent(original)[..i];
        assert !IsFile(a, q);
        assert q <= original && !(original <= q);
      }
    }

    /** However often a restore has been cut short, one that is not ends with the content back and nothing left over. */
    method RestoreInTheEnd(times: nat, ghost k: Tree)
      requires Inv() && Accepted() && Resting(vol.fs, At(), k) && (Across() ==> |k| == 1) && CanRestore(vol.fs)
      modifies vol
      ensures Inv() && Resting(vol.fs, At(), k) && OnlyHere(old(vol.fs), vol.fs, At())
      ensures !vol.disturbed ==> Restored(vol.fs, k)
    {
      hide Resting, OnlyHere, WellFormed, Torn, FileOnPath, Back, Content;
      RestoreAgainAndAgain(times, k);
      ghost var mid := vol.fs;
      FramesStart(mid);
      vol.Restart();
      if Meta(vol.fs) == Readable { var _ := Restore(k); }
      OnlyHereTransitive(old(vol.fs), mid, vol.fs, At());
    }

    /** A deletion that was cut short, however often, is made good by the first one that is not. */
    method DeleteInTheEnd(times: nat)
      requires Inv() && Accepted() && Meta(vol.fs) == Readable
      modifies vol
      ensures Inv() && OnlyHere(old(vol.fs), vol.fs, At())
      ensures SameUnder(old(vol.fs), vol.fs, original) && SameUnder(old(vol.fs), vol.fs, At().temp)
      ensures !vol.disturbed ==> At().trash !in vol.fs && At().meta !in vol.fs
    {
      hide OnlyHere, WellFormed, SameUnder;
      FramesStart(vol.fs);
      SameAsItself(vol.fs);
      var n := 0;
      while n <= times
        invariant Inv() && OnlyHere(old(vol.fs), vol.fs, At())
        invariant SameUnder(old(vol.fs), vol.fs, original) && SameUnder(old(vol.fs), vol.fs, At().temp)
        invariant Meta(vol.fs) == Readable || (At().trash !in vol.fs && At().meta !in vol.fs)
        invariant n > times && !vol.disturbed ==> At().trash !in vol.fs && At().meta !in vol.fs
      {
        ghost var mid := vol.fs;
        vol.Restart();
        var _ := DeleteTrash();
        OnlyHereTransitive(old(vol.fs), mid, vol.fs, At());
        SameUnderTransitive(old(vol.fs), mid, vol.fs, original);
        SameUnderTransitive(old(vol.fs), mid, vol.fs, At().temp);
        n := n + 1;
      }
    }

    /** A restore after a torn removal takes what is left in the trash for the whole, and the whole copy is gone. */
    method RestoreAfterTear(ghost k: Tree) returns (r: Result)
      requires Inv() && Accepted() && !vol.dead && Torn(vol.fs, At(), k)
      modifies vol
      ensures Inv() && OnlyHere(old(vol.fs), vol.fs, At())
      ensures r == Done ==> Back(vol.fs, At(), Content(old(vol.fs), At().trash)) && !Whole(vol.fs, original, k)
      ensures !vol.disturbed ==> (r == Done <==> CanRestore(old(vol.fs)))
    {
      hide Content, WellFormed, OnlyHere;
      r := Restore(Content(vol.fs, At().trash));
    }

    /** An entry that goes to the trash and comes back undisturbed is the same entry in the same place. */
    method TrashThenRestore() returns (r: Result)
      requires Inv() && !vol.dead && CanTrash(vol.fs) && At().trash !in vol.fs
      requires Across() ==> !IsFile(vol.fs, Parent(At().temp))
      modifies vol
      ensures Inv() && OnlyHere(old(vol.fs), vol.fs, At())
      ensures !vol.disturbed ==> r == Done && Back(vol.fs, At(), Content(old(vol.fs), original)) && At().meta !in vol.fs
    {
      hide Content, WellFormed, FileOnPath, OnlyHere;
      ghost var a, k := vol.fs, Content(vol.fs, original);
      WholeHolds(a, original, k);
      r := TrashWithID(k);
      if r != Done || vol.dead { return; }
      WaysStay(a, vol.fs);
      ghost var b := vol.fs;
      r := Restore(k);
      FramesMeet(a, b);
    }

    /** While only the four places change, no file gets in the way of a restore. */
    lemma WaysStay(a: Tree, b: Tree)
      requires Inv() && Accepted() && WellFormed(a) && original in a && OnlyHere(a, b, At())
      ensures !FileOnPath(b, Parent(original))
      ensures IsFile(b, Parent(At().temp)) ==> IsFile(a, Parent(At().temp))
    {
      AcceptedIsSeparate();
      var w := At();
      assert Parent(original) <= original && Parent(w.temp) <= w.temp && !(w.temp <= Parent(w.temp));
      assert Parent(w.temp) == Parent(original) + [TEMP_DIR];
      forall i | 0 <= i <= |Parent(original)|
        ensures !IsFile(b, Parent(original)[..i])
      {
        var q := Parent(original)[..i];
        AncestorIsDir(a, q, original);
        assert q <= original && !(original <= q);
      }
    }
  }

  /** A trash or restore job: the files are moved, then the job is marked. A crash leaves it running. */
  method ProcessTrash(entry: Entry, restore: bool, ghost k: Tree) returns (status: Status)
    requires entry.Inv() && !entry.vol.dead
    requires !restore ==> Kept(entry.vol.fs, entry.At(), k)
    requires restore ==> entry.Accepted()
    modifies entry.vol
    ensures entry.Inv() && (status == Running ==> entry.vol.dead) && (!entry.vol.dead ==> status in OTHER_ENDS)
    ensures !restore ==> Kept(entry.vol.fs, entry.At(), k)
    ensures restore && Resting(old(entry.vol.fs), entry.At(), k) ==>
      && (Resting(entry.vol.fs, entry.At(), k) || (Torn(entry.vol.fs, entry.At(), k) && |k| != 1 && entry.Across()))
      && (status == Completed ==> entry.Restored(entry.vol.fs, k))
    ensures restore && entry.Meta(old(entry.vol.fs)) == Readable && entry.Occupied(old(entry.vol.fs)) ==>
      status != Completed && entry.vol.fs == old(entry.vol.fs)
    ensures restore && !entry.vol.disturbed ==> (status == Completed <==> entry.CanRestore(old(entry.vol.fs)))
    ensures !restore && !entry.vol.disturbed ==>
      (status == Completed <==>
        entry.Answered(old(entry.vol.fs)) || (entry.CanTrash(old(entry.vol.fs)) && entry.NotInTheWay(old(entry.vol.fs))))
  {
    hide Kept, Resting, Torn, WellFormed, OnlyHere, SameUnder, Content;
    hide Entry.CanRestore, Entry.Occupied, Entry.Nothing, Entry.CanTrash, Entry.NotInTheWay, Entry.Answered, Back;
    var r;
    if restore { r := entry.Restore(k); } else { r := entry.TrashWithID(k); }
    status := Running;
    var done := entry.vol.Survive();
    if done { status := if r == Done then Completed else Failed; }
  }
}
