/** Copying a file or a whole tree to a new place, as the trash does across devices. */
module Copies {
  import opened FileSystem
  import opened Volumes

  const CHUNK: nat := 32768

  /** Nothing that was there changed; what is new is a directory on the way to `dst`, or lies at or below `dst`. */
  ghost predicate Added(before: Tree, after: Tree, dst: Path) {
    && (forall q :: q in before ==> q in after && after[q] == before[q])
    && (forall q :: q in after && q !in before ==> dst <= q || (q <= dst && after[q] == Dir))
  }

  /** `p` holds at least the entries of `k`, with their bytes. */
  ghost predicate Holds(fs: Tree, p: Path, k: Tree) {
    forall rel {:trigger rel in k} :: rel in k ==> p + rel in fs && fs[p + rel] == k[rel]
  }

  lemma AddedTransitive(a: Tree, b: Tree, c: Tree, dst: Path)
    requires Added(a, b, dst) && Added(b, c, dst)
    ensures Added(a, c, dst)
  {}

  lemma GrownIsAdded(before: Tree, after: Tree, p: Path, dst: Path)
    requires Grown(before, after, p) && (p <= dst || dst <= p)
    ensures Added(before, after, dst)
  {
    forall q | q in after && q !in before
      ensures dst <= q || (q <= dst && after[q] == Dir)
    {
      assert q <= p;
    }
  }

  /** What the copy of one file leaves: directories on the way and, exclusively created, the file. */
  ghost predicate FileAdded(before: Tree, after: Tree, dst: Path) {
    && (forall q :: q in before ==> q in after && after[q] == before[q])
    && (forall q :: q in after && q !in before ==> q <= dst && (q != dst ==> after[q] == Dir) && (q == dst ==> after[q].File?))
  }

  /** The read-write loop into an empty file. Stopped early, it leaves a prefix. */
  method CopyBytes(vol: Volume, dst: Path, bytes: Bytes) returns (e: Errno, ghost n: nat)
    requires vol.Valid() && !vol.dead && dst in vol.fs && vol.fs[dst] == File([])
    modifies vol
    ensures vol.Valid() && (old(vol.disturbed) ==> vol.disturbed)
    ensures (e == Crashed <==> vol.dead) && (!vol.disturbed ==> e == Ok)
    ensures n <= |bytes| && vol.fs == old(vol.fs)[dst := File(bytes[..n])]
    ensures e == Ok ==> n == |bytes|
  {
    var at := 0;
    while at < |bytes|
      invariant 0 <= at <= |bytes| && vol.Valid() && !vol.dead && (old(vol.disturbed) ==> vol.disturbed)
      invariant vol.fs == old(vol.fs)[dst := File(bytes[..at])]
    {
      var faulty := vol.ReadFault();
      if faulty { return Fault, at; }
      var block: nat :| 0 < block <= CHUNK && at + block <= |bytes|;
      var written;
      e, written := vol.WriteAt(dst, at, bytes[at..at + block]);
      assert bytes[at..at + block][..written] == bytes[at..at + written];
      SpliceOfPrefix(bytes, at, at, written);
      if e != Ok { return e, at + written; }
      at := at + block;
    }
    var faulty := vol.ReadFault();
    return if faulty then Fault else Ok, at;
  }

  /** A copy through a new file: an existing destination is never touched. */
  method CopyFile(vol: Volume, src: Path, dst: Path) returns (e: Errno)
    requires vol.Valid() && !vol.dead && IsFile(vol.fs, src) && dst != [] && !(src <= dst)
    modifies vol
    ensures vol.Valid() && (old(vol.disturbed) ==> vol.disturbed)
    ensures e == Crashed <==> vol.dead
    ensures FileAdded(old(vol.fs), vol.fs, dst)
    ensures e == Ok ==> dst !in old(vol.fs) && dst in vol.fs && vol.fs[dst] == old(vol.fs)[src]
    ensures !vol.disturbed && dst !in old(vol.fs) && !FileOnPath(old(vol.fs), Parent(dst)) ==> e == Ok
    ensures e == Ok ==> !FileOnPath(old(vol.fs), Parent(dst))
  {
    hide FileOnPath, WellFormed;
    ghost var before := vol.fs;
    var bytes := vol.fs[src].data;
    e := vol.MkdirAll(Parent(dst));
    if e != Ok { return; }
    ghost var mid := vol.fs;
    e := vol.CreateFile(dst);
    if e != Ok { return; }
    assert dst !in mid && dst !in before;
    ghost var n;
    WayWasOpen(before, vol.fs, dst);
    e, n := CopyBytes(vol, dst, bytes);
    assert bytes[..|bytes|] == bytes;
  }

  /** What exists now, while nothing has gone, had no file on its way before. */
  lemma WayWasOpen(before: Tree, after: Tree, t: Path)
    requires WellFormed(after) && t in after && forall q :: q in before ==> q in after && after[q] == before[q]
    ensures !FileOnPath(before, Parent(t)) && (after[t] == Dir ==> !FileOnPath(before, t))
  {
    forall i | 0 <= i <= |t| && IsFile(before, t[..i])
      ensures i == |t| && after[t].File?
    {
      AncestorIsDir(after, t[..i], t);
    }
    forall i | 0 <= i <= |Parent(t)|
      ensures !IsFile(before, Parent(t)[..i])
    {
      if t != [] { assert Parent(t)[..i] == t[..i]; }
    }
  }

  // ----- Trees -----

  /** The entry `p` of the source can be copied to its place below `dst`. */
  ghost predicate FitsAt(fs: Tree, src: Path, dst: Path, p: Path)
    requires p in fs && src <= p
  {
    var t := dst + p[|src|..];
    if fs[p] == Dir then !FileOnPath(fs, t) else t !in fs && !FileOnPath(fs, Parent(t))
  }

  /** Every entry can: no file is in the way, and no file of the source is at `dst` already. */
  ghost predicate Mergeable(fs: Tree, src: Path, dst: Path) {
    forall p :: p in fs && src <= p ==> FitsAt(fs, src, dst, p)
  }

  lemma MisfitBlocks(fs: Tree, src: Path, dst: Path, p: Path)
    requires p in fs && src <= p && !FitsAt(fs, src, dst, p)
    ensures !Mergeable(fs, src, dst)
  {}

  lemma FreeIsMergeable(fs: Tree, src: Path, dst: Path)
    requires dst != [] && Under(fs, dst) == {} && !FileOnPath(fs, Parent(dst))
    ensures Mergeable(fs, src, dst)
  {
    NoFileThere(fs, dst);
    forall p | p in fs && src <= p
      ensures FitsAt(fs, src, dst, p)
    {
      var t := dst + p[|src|..];
      forall i | 0 <= i <= |t|
        ensures t[..i] in fs ==> i < |dst| && t[..i] == dst[..i]
      {
        if i >= |dst| && t[..i] in fs { BelowIsUnder(fs, dst, t[..i]); }
      }
      assert t[..|t|] == t;
      forall i | 0 <= i <= |Parent(t)|
        ensures Parent(t)[..i] == t[..i]
      {}
    }
  }

  /** How far the copy of the tree at `src` has come: exactly the entries `done` are copied. */
  ghost predicate CopySoFar(fs0: Tree, fs: Tree, src: Path, dst: Path, done: seq<Path>) {
    && Added(fs0, fs, dst)
    && (forall p :: p in done ==> src <= p && p in fs0 && dst + p[|src|..] in fs && fs[dst + p[|src|..]] == fs0[p])
    && (forall q :: q in fs && q !in fs0 && dst <= q ==>
          && src + q[|dst|..] in fs0 && (fs[q].File? <==> fs0[src + q[|dst|..]].File?)
          && (fs[q].File? ==> src + q[|dst|..] in done))
    && (forall p :: p in done ==> FitsAt(fs0, src, dst, p))
  }

  lemma CopyStarts(fs0: Tree, fs: Tree, src: Path, dst: Path)
    requires WellFormed(fs0) && IsDir(fs0, src) && Grown(fs0, fs, dst) && IsDir(fs, dst)
    ensures CopySoFar(fs0, fs, src, dst, [])
  {
    GrownIsAdded(fs0, fs, dst, dst);
    forall q | q in fs && dst <= q && q !in fs0
      ensures q == dst && src + q[|dst|..] == src
    {
      assert q <= dst;
    }
  }

  lemma TargetOf(src: Path, dst: Path, p: Path)
    requires src <= p
    ensures dst <= dst + p[|src|..] && (dst + p[|src|..])[|dst|..] == p[|src|..] && src + p[|src|..] == p
  {}

  /** A copied directory. */
  lemma DirCopied(fs0: Tree, fs: Tree, after: Tree, src: Path, dst: Path, done: seq<Path>, p: Path)
    requires CopySoFar(fs0, fs, src, dst, done) && WellFormed(fs0) && src <= p && IsDir(fs0, p)
    requires Grown(fs, after, dst + p[|src|..]) && IsDir(after, dst + p[|src|..]) && WellFormed(after)
    ensures CopySoFar(fs0, after, src, dst, done + [p])
  {
    var t := dst + p[|src|..];
    TargetOf(src, dst, p);
    GrownIsAdded(fs, after, t, dst);
    AddedTransitive(fs0, fs, after, dst);
    WayWasOpen(fs0, after, t);
    hide FileOnPath;
    forall q | q in after && dst <= q && q !in fs
      ensures src + q[|dst|..] in fs0 && fs0[src + q[|dst|..]] == Dir && after[q] == Dir
    {
      OnTheWay(fs0, src, dst, p, q);
    }
  }

  lemma OnTheWay(fs0: Tree, src: Path, dst: Path, p: Path, q: Path)
    requires WellFormed(fs0) && src <= p && p in fs0 && dst <= q && q <= dst + p[|src|..]
    ensures src + q[|dst|..] in fs0 && src + q[|dst|..] <= p
    ensures q != dst + p[|src|..] ==> fs0[src + q[|dst|..]] == Dir
    ensures q == dst + p[|src|..] ==> src + q[|dst|..] == p
  {
    TargetOf(src, dst, p);
    assert q[|dst|..] <= p[|src|..];
    assert src + q[|dst|..] <= src + p[|src|..] == p;
    AncestorIsDir(fs0, src + q[|dst|..], p);
    assert src + q[|dst|..] == p ==> q == dst + p[|src|..];
  }

  lemma FileAddedIsAdded(fs: Tree, after: Tree, dst: Path, t: Path)
    requires FileAdded(fs, after, t) && dst <= t
    ensures Added(fs, after, dst)
  {
    forall q | q in after && q !in fs
      ensures dst <= q || (q <= dst && after[q] == Dir)
    {
      assert q <= t;
    }
  }

  /** A copied file. */
  lemma FileCopied(fs0: Tree, fs: Tree, after: Tree, src: Path, dst: Path, done: seq<Path>, p: Path)
    requires CopySoFar(fs0, fs, src, dst, done) && WellFormed(fs0) && src <= p && IsFile(fs0, p)
    requires FileAdded(fs, after, dst + p[|src|..])
    requires dst + p[|src|..] in after && after[dst + p[|src|..]] == fs0[p] && dst + p[|src|..] !in fs && WellFormed(after)
    ensures CopySoFar(fs0, after, src, dst, done + [p])
  {
    var t := dst + p[|src|..];
    TargetOf(src, dst, p);
    FileAddedIsAdded(fs, after, dst, t);
    AddedTransitive(fs0, fs, after, dst);
    WayWasOpen(fs0, after, t);
    hide FileOnPath;
    forall q | q in after && dst <= q && q !in fs
      ensures src + q[|dst|..] in fs0 && (after[q].File? <==> fs0[src + q[|dst|..]].File?)
      ensures after[q].File? ==> src + q[|dst|..] in done + [p]
    {
      OnTheWay(fs0, src, dst, p, q);
    }
  }

  /** What the copy has made is not in the way of the next entry of the walk. */
  lemma NextFits(fs0: Tree, fs: Tree, src: Path, dst: Path, done: seq<Path>, p: Path)
    requires CopySoFar(fs0, fs, src, dst, done) && WellFormed(fs0) && src <= p && p in fs0 && p !in done
    requires FitsAt(fs0, src, dst, p)
    ensures !FileOnPath(fs, Parent(dst + p[|src|..]))
    ensures fs0[p] == Dir ==> !FileOnPath(fs, dst + p[|src|..])
    ensures fs0[p].File? ==> dst + p[|src|..] !in fs
  {
    var t := dst + p[|src|..];
    TargetOf(src, dst, p);
    NoNewFileOnPath(fs0, fs, src, dst, done, p);
    forall i | 0 <= i <= |Parent(t)|
      ensures Parent(t)[..i] == t[..i]
    {}
    assert forall i :: 0 <= i <= |Parent(t)| ==> IsFile(fs0, Parent(t)[..i]) ==> FileOnPath(fs0, Parent(t));
  }

  lemma NoNewFileOnPath(fs0: Tree, fs: Tree, src: Path, dst: Path, done: seq<Path>, p: Path)
    requires CopySoFar(fs0, fs, src, dst, done) && WellFormed(fs0) && src <= p && p in fs0 && p !in done
    ensures forall i :: 0 <= i <= |dst + p[|src|..]| && IsFile(fs, (dst + p[|src|..])[..i]) ==> IsFile(fs0, (dst + p[|src|..])[..i])
    ensures fs0[p].File? && dst + p[|src|..] in fs ==> dst + p[|src|..] in fs0
  {
    var t := dst + p[|src|..];
    TargetOf(src, dst, p);
    forall i | 0 <= i <= |t| && IsFile(fs, t[..i])
      ensures IsFile(fs0, t[..i])
    {
      var q := t[..i];
      if q !in fs0 {
        assert dst <= q;
        OnTheWay(fs0, src, dst, p, q);
      }
    }
  }

  lemma CopyEnds(fs0: Tree, fs: Tree, src: Path, dst: Path, order: seq<Path>)
    requires WellFormed(fs0) && IsWalk(fs0, src, order) && CopySoFar(fs0, fs, src, dst, order)
    ensures Holds(fs, dst, Content(fs0, src))
    ensures Under(fs0, dst) == {} ==> Content(fs, dst) == Content(fs0, src)
    ensures Mergeable(fs0, src, dst)
  {
    hide FileOnPath;
    assert forall p :: p in fs0 && src <= p ==> p in Under(fs0, src);
    var k := Content(fs0, src);
    forall rel {:trigger rel in k} | rel in k
      ensures dst + rel in fs && fs[dst + rel] == k[rel]
    {
      var p := src + rel;
      assert p in Under(fs0, src) && p in order && p[|src|..] == rel;
    }
    if Under(fs0, dst) == {} {
      var c := Content(fs, dst);
      forall rel {:trigger rel in c} | rel in c
        ensures rel in k
      {
        assert dst + rel in fs && (dst + rel)[|dst|..] == rel && dst + rel !in Under(fs0, dst);
      }
    }
  }

  method CopyPath(vol: Volume, src: Path, dst: Path) returns (e: Errno)
    requires vol.Valid() && !vol.dead && src in vol.fs && dst != [] && !(src <= dst) && !(dst <= src)
    modifies vol
    ensures vol.Valid() && (old(vol.disturbed) ==> vol.disturbed)
    ensures e == Crashed <==> vol.dead
    ensures Added(old(vol.fs), vol.fs, dst)
    ensures e == Ok ==> Holds(vol.fs, dst, Content(old(vol.fs), src))
    ensures e == Ok && Under(old(vol.fs), dst) == {} ==> Content(vol.fs, dst) == Content(old(vol.fs), src)
    ensures e == Ok ==> Mergeable(old(vol.fs), src, dst)
    ensures !vol.disturbed && Mergeable(old(vol.fs), src, dst) ==> e == Ok
    ensures !vol.disturbed && Under(old(vol.fs), dst) == {} && !FileOnPath(old(vol.fs), Parent(dst)) ==> e == Ok
  {
    hide FileOnPath, Mergeable, WellFormed;
    ghost var fs0 := vol.fs;
    if Under(fs0, dst) == {} && !FileOnPath(fs0, Parent(dst)) { FreeIsMergeable(fs0, src, dst); }
    RootFits(fs0, src, dst);
    if vol.fs[src].File? {
      e := CopyFile(vol, src, dst);
      SingleCopied(fs0, vol.fs, src, dst);
      return;
    }
    e := vol.MkdirAll(dst);
    GrownIsAdded(fs0, vol.fs, dst, dst);
    if e != Ok { return; }
    CopyStarts(fs0, vol.fs, src, dst);
    e := CopyTree(vol, src, dst, fs0);
  }

  /** A single file fits if its one place does; and a tree fits only if its root does. */
  lemma RootFits(fs: Tree, src: Path, dst: Path)
    requires WellFormed(fs) && src in fs
    ensures Mergeable(fs, src, dst) ==>
      if fs[src] == Dir then !FileOnPath(fs, dst) else dst !in fs && !FileOnPath(fs, Parent(dst))
    ensures fs[src].File? && dst !in fs && !FileOnPath(fs, Parent(dst)) ==> Mergeable(fs, src, dst)
  {
    hide FileOnPath;
    assert dst + src[|src|..] == dst;
    if Mergeable(fs, src, dst) { assert FitsAt(fs, src, dst, src); }
    if fs[src].File? {
      FileIsLeaf(fs, src);
      assert forall p :: p in fs && src <= p ==> p in Under(fs, src);
    }
  }

  lemma NoFileThere(fs: Tree, dst: Path)
    requires dst != []
    ensures Under(fs, dst) == {} && !FileOnPath(fs, Parent(dst)) ==> !FileOnPath(fs, dst) && dst !in fs
  {
    if Under(fs, dst) == {} && !FileOnPath(fs, Parent(dst)) {
      assert dst in fs ==> dst in Under(fs, dst);
      forall i | 0 <= i <= |dst|
        ensures !IsFile(fs, dst[..i])
      {
        if i < |dst| { assert dst[..i] == Parent(dst)[..i]; } else { assert dst[..i] == dst; }
      }
    }
  }

  lemma SingleCopied(fs0: Tree, fs: Tree, src: Path, dst: Path)
    requires WellFormed(fs0) && WellFormed(fs) && IsFile(fs0, src) && FileAdded(fs0, fs, dst)
    ensures Added(fs0, fs, dst)
    ensures dst in fs && fs[dst] == fs0[src] ==> Holds(fs, dst, Content(fs0, src)) && Content(fs, dst) == Content(fs0, src)
  {
    FileAddedIsAdded(fs0, fs, dst, dst);
    if dst in fs && fs[dst] == fs0[src] {
      OneEntry(fs0, src);
      OneEntry(fs, dst);
      assert dst + [] == dst;
    }
  }

  /** A file's content is its one entry. */
  lemma OneEntry(fs: Tree, p: Path)
    requires WellFormed(fs) && IsFile(fs, p)
    ensures Content(fs, p) == map[[] := fs[p]]
  {
    FileIsLeaf(fs, p);
    var c := Content(fs, p);
    assert p + [] == p;
    forall rel {:trigger rel in c} | rel in c
      ensures rel == []
    {
      assert p + rel in Under(fs, p);
    }
  }

  /** The walk over the source: a directory is made, a file is copied. */
  method CopyTree(vol: Volume, src: Path, dst: Path, ghost fs0: Tree) returns (e: Errno)
    requires vol.Valid() && !vol.dead && WellFormed(fs0) && IsDir(fs0, src) && dst != [] && !(src <= dst) && !(dst <= src)
    requires CopySoFar(fs0, vol.fs, src, dst, [])
    modifies vol
    ensures vol.Valid() && (old(vol.disturbed) ==> vol.disturbed)
    ensures e == Crashed <==> vol.dead
    ensures Added(fs0, vol.fs, dst)
    ensures e == Ok ==> Holds(vol.fs, dst, Content(fs0, src))
    ensures e == Ok && Under(fs0, dst) == {} ==> Content(vol.fs, dst) == Content(fs0, src)
    ensures e == Ok ==> Mergeable(fs0, src, dst)
    ensures !vol.disturbed && Mergeable(fs0, src, dst) ==> e == Ok
  {
    hide CopySoFar, IsWalk, WalkSoFar, FileOnPath, Content, WellFormed, FitsAt;
    SourceUntouched(fs0, vol.fs, src, dst, []);
    var order := WalkDir(vol.fs, src);
    SameWalk(fs0, vol.fs, src, order);
    var i := 0;
    e := Ok;
    assert order[..0] == [];
    while i < |order|
      invariant 0 <= i <= |order| && vol.Valid() && !vol.dead && (old(vol.disturbed) ==> vol.disturbed) && e == Ok
      invariant CopySoFar(fs0, vol.fs, src, dst, order[..i])
    {
      WalkAt(fs0, src, order, i);
      SourceUntouched(fs0, vol.fs, src, dst, order[..i]);
      e := CopyEntry(vol, src, dst, order[i], fs0, order[..i]);
      if e != Ok { return; }
      i := i + 1;
    }
    assert order[..i] == order;
    SourceUntouched(fs0, vol.fs, src, dst, order);
    CopyEnds(fs0, vol.fs, src, dst, order);
  }

  /** While the copy grows, the source reads as it did. */
  lemma SourceUntouched(fs0: Tree, fs: Tree, src: Path, dst: Path, done: seq<Path>)
    requires CopySoFar(fs0, fs, src, dst, done) && WellFormed(fs0) && IsDir(fs0, src) && !(src <= dst) && !(dst <= src)
    ensures Added(fs0, fs, dst)
    ensures forall q :: src <= q ==> (q in fs0 <==> q in fs) && (q in fs ==> fs[q] == fs0[q])
  {
    forall q | src <= q && q in fs
      ensures q in fs0
    {
      assert dst <= q ==> dst <= src || src <= dst;
      assert q <= dst ==> src <= dst;
    }
  }

  lemma SameWalk(fs0: Tree, fs: Tree, src: Path, order: seq<Path>)
    requires IsWalk(fs, src, order)
    requires forall q :: src <= q ==> (q in fs0 <==> q in fs)
    ensures IsWalk(fs0, src, order)
  {
    assert Under(fs0, src) == Under(fs, src);
  }

  method CopyEntry(vol: Volume, src: Path, dst: Path, p: Path, ghost fs0: Tree, ghost done: seq<Path>) returns (e: Errno)
    requires vol.Valid() && !vol.dead && WellFormed(fs0) && dst != [] && !(src <= dst) && !(dst <= src)
    requires src <= p && p in fs0 && p in vol.fs && vol.fs[p] == fs0[p] && p !in done && CopySoFar(fs0, vol.fs, src, dst, done)
    modifies vol
    ensures vol.Valid() && (old(vol.disturbed) ==> vol.disturbed)
    ensures e == Crashed <==> vol.dead
    ensures Added(fs0, vol.fs, dst)
    ensures e == Ok ==> CopySoFar(fs0, vol.fs, src, dst, done + [p])
    ensures !vol.disturbed && FitsAt(fs0, src, dst, p) ==> e == Ok
  {
    hide FileOnPath, WellFormed, CopySoFar, FitsAt;
    ghost var before := vol.fs;
    var target := dst + p[|src|..];
    TargetOf(src, dst, p);
    SoFarAdds(fs0, before, src, dst, done);
    if FitsAt(fs0, src, dst, p) { NextFits(fs0, before, src, dst, done, p); }
    if vol.fs[p] == Dir {
      e := vol.MkdirAll(target);
      GrownIsAdded(before, vol.fs, target, dst);
      if e == Ok { DirCopied(fs0, before, vol.fs, src, dst, done, p); }
    } else {
      assert p <= target ==> src <= dst || dst <= src;
      e := CopyFile(vol, p, target);
      FileAddedIsAdded(before, vol.fs, dst, target);
      if e == Ok { FileCopied(fs0, before, vol.fs, src, dst, done, p); }
    }
    AddedTransitive(fs0, before, vol.fs, dst);
  }

  lemma SoFarAdds(fs0: Tree, fs: Tree, src: Path, dst: Path, done: seq<Path>)
    requires CopySoFar(fs0, fs, src, dst, done)
    ensures Added(fs0, fs, dst)
  {}
}
