/**
 Disk usage: one walk adds file sizes to the directories that hold them, one pass over the directories, deepest
 first, adds each directory to its parent, and the rows are stored.
 */
module DiskUsage {
  import opened FileSystem
  import opened JobStatus
  import opened Volumes
  import opened Names
  import opened Sums

  datatype Accum = Accum(size: nat, files: nat, dirs: nat)

  /** Names that start with a dot are left out, the source's own included. */
  predicate Hidden(p: Path) {
    p != [] && p[|p| - 1] != "" && p[|p| - 1][0] == '.'
  }

  /** The number of separators: one for the file system's root as for its entries. */
  function Depth(p: Path): nat {
    if p == [] then 1 else |p|
  }

  /** What the walk is called for: not hidden, and listed by a directory that is visited and can be read. */
  predicate Visited(source: Path, unreadable: set<Path>, p: Path)
    decreases |p|
  {
    source <= p && !Hidden(p) && (p == source || (Visited(source, unreadable, Parent(p)) && Parent(p) !in unreadable))
  }

  /** From the source down, its own name included, no name starts with a dot, and every directory on the way can be read. */
  ghost predicate Shown(source: Path, unreadable: set<Path>, p: Path) {
    && source <= p
    && (forall i :: 0 <= i < |p| && |source| <= i + 1 && p[i] != "" ==> p[i][0] != '.')
    && (forall i :: |source| <= i < |p| ==> p[..i] !in unreadable)
  }

  lemma {:induction false} VisitedExactly(source: Path, unreadable: set<Path>, p: Path)
    ensures Visited(source, unreadable, p) <==> Shown(source, unreadable, p)
    decreases |p|
  {
    if source <= p && p != source {
      var q := Parent(p);
      VisitedExactly(source, unreadable, q);
      assert forall i :: 0 <= i < |q| ==> q[i] == p[i];
      assert forall i :: 0 <= i <= |q| ==> q[..i] == p[..i];
      assert p[..|q|] == q;
    }
  }

  ghost function VisibleDirs(fs: Tree, source: Path, unreadable: set<Path>): set<Path> {
    set p | p in fs && Visited(source, unreadable, p) && fs[p] == Dir
  }

  ghost function VisibleFiles(fs: Tree, source: Path, unreadable: set<Path>): set<Path> {
    set p | p in fs && Visited(source, unreadable, p) && fs[p].File?
  }

  function FileSize(fs: Tree): Path -> nat {
    (p: Path) => if p in fs && fs[p].File? then |fs[p].data| else 0
  }

  /** The files and directories a bottom-up pass works on: a tree that hangs from `source`. */
  ghost predicate Forest(source: Path, dirs: set<Path>, files: set<Path>) {
    && dirs !! files
    && (forall q :: q in dirs + files ==> source <= q && (q != source ==> Parent(q) in dirs))
    && source !in files
  }

  lemma VisibleIsForest(fs: Tree, source: Path, unreadable: set<Path>)
    requires WellFormed(fs) && IsDir(fs, source)
    ensures Forest(source, VisibleDirs(fs, source, unreadable), VisibleFiles(fs, source, unreadable))
  {}

  // ----- What has reached a directory once the directories in `done` have been added to their parents -----

  ghost function FilesReached(files: set<Path>, d: Path, done: set<Path>): set<Path> {
    set f | f in files && d <= f && d != f && (Parent(f) == d || f[..|d| + 1] in done)
  }

  ghost function DirsReached(dirs: set<Path>, d: Path, done: set<Path>): set<Path> {
    set q | q in dirs && d <= q && d != q && q[..|d| + 1] in done
  }

  ghost function FilesBelow(files: set<Path>, d: Path): set<Path> {
    set f | f in files && d <= f
  }

  ghost function DirsBelow(dirs: set<Path>, d: Path): set<Path> {
    set q | q in dirs && d <= q && d != q
  }

  /** On the way from a directory of the forest to anything below it there are directories of the forest only. */
  lemma {:induction false} OnTheWayIsDir(source: Path, dirs: set<Path>, files: set<Path>, d: Path, q: Path)
    requires Forest(source, dirs, files) && d in dirs && q in dirs + files && d <= q && d != q
    ensures q[..|d| + 1] in dirs + files && Parent(q[..|d| + 1]) == d
    ensures q[..|d| + 1] in dirs || Parent(q) == d
    decreases |q|
  {
    if |q| > |d| + 1 {
      OnTheWayIsDir(source, dirs, files, d, Parent(q));
      assert Parent(q)[..|d| + 1] == q[..|d| + 1];
      assert q != source;
      if |Parent(q)| == |d| + 1 { assert Parent(q)[..|d| + 1] == Parent(q); }
      ParentsAreDirs(source, dirs, files, q, |d| + 1);
    } else {
      assert q[..|d| + 1] == q;
    }
  }

  lemma {:induction false} ParentsAreDirs(source: Path, dirs: set<Path>, files: set<Path>, q: Path, i: nat)
    requires Forest(source, dirs, files) && q in dirs + files && |source| <= i < |q|
    ensures q[..i] in dirs
    decreases |q|
  {
    if i < |q| - 1 {
      ParentsAreDirs(source, dirs, files, Parent(q), i);
      assert Parent(q)[..i] == q[..i];
    }
  }

  lemma OnlyChildOfParent(d: Path, c: Path, q: Path)
    requires c != []
    ensures d <= q && d != q && q[..|d| + 1] == c ==> d == Parent(c)
    ensures d == Parent(c) ==> (d <= q && d != q && q[..|d| + 1] == c <==> c <= q)
  {
    if d <= q && d != q && q[..|d| + 1] == c { assert q[..|d| + 1][..|d|] == d; }
    if d == Parent(c) && c <= q { assert q[..|d| + 1] == c; }
  }

  /** All directories listed by `c` have been added to it. */
  ghost predicate Ready(source: Path, dirs: set<Path>, done: set<Path>, c: Path) {
    c in dirs && forall x {:trigger Parent(x)} :: x in dirs && x != source && Parent(x) == c ==> x in done
  }

  /** A directory whose own directories have all been added holds everything below it. */
  lemma ReadyIsComplete(source: Path, dirs: set<Path>, files: set<Path>, done: set<Path>, c: Path)
    requires Forest(source, dirs, files) && Ready(source, dirs, done, c)
    ensures FilesReached(files, c, done) == FilesBelow(files, c)
    ensures DirsReached(dirs, c, done) == DirsBelow(dirs, c)
  {
    forall q | q in dirs + files && c <= q && c != q
      ensures (q in files && Parent(q) == c) || q[..|c| + 1] in done
    {
      OnTheWayIsDir(source, dirs, files, c, q);
      assert q[..|c| + 1] != source;
      assert Parent(q) == c && q != [] ==> q[..|c| + 1] == q;
    }
    assert forall f :: f in files && c <= f ==> f != c;
  }

  lemma FilesStep(dirs: set<Path>, files: set<Path>, done: set<Path>, c: Path, d: Path)
    requires c in dirs && c !in done && c != [] && dirs !! files
    ensures d != Parent(c) ==> FilesReached(files, d, done + {c}) == FilesReached(files, d, done)
    ensures d == Parent(c) ==> FilesReached(files, d, done + {c}) == FilesReached(files, d, done) + FilesBelow(files, c)
    ensures d == Parent(c) ==> FilesReached(files, d, done) !! FilesBelow(files, c)
  {
    forall q | q in files
      ensures d <= q && d != q && q[..|d| + 1] == c ==> d == Parent(c)
      ensures d == Parent(c) ==> (d <= q && d != q && q[..|d| + 1] == c <==> c <= q)
      ensures d == Parent(c) && c <= q ==> Parent(q) != d
    {
      OnlyChildOfParent(d, c, q);
      assert c <= q && q != c ==> |q| > |c| && |Parent(q)| == |q| - 1;
    }
  }

  lemma DirsStep(dirs: set<Path>, done: set<Path>, c: Path, d: Path)
    requires c in dirs && c !in done && c != []
    ensures d != Parent(c) ==> DirsReached(dirs, d, done + {c}) == DirsReached(dirs, d, done)
    ensures d == Parent(c) ==> DirsReached(dirs, d, done + {c}) == DirsReached(dirs, d, done) + ({c} + DirsBelow(dirs, c))
    ensures d == Parent(c) ==> DirsReached(dirs, d, done) !! ({c} + DirsBelow(dirs, c)) && c !in DirsBelow(dirs, c)
  {
    forall q | q in dirs
      ensures d <= q && d != q && q[..|d| + 1] == c ==> d == Parent(c)
      ensures d == Parent(c) ==> (d <= q && d != q && q[..|d| + 1] == c <==> c <= q)
    {
      OnlyChildOfParent(d, c, q);
    }
  }

  lemma {:induction false} Disjoint<T>(a: set<T>, b: set<T>)
    requires a !! b
    ensures |a + b| == |a| + |b|
  {}

  ghost function Reached(dirs: set<Path>, files: set<Path>, size: Path -> nat, d: Path, done: set<Path>): Accum {
    Accum(SumOver(FilesReached(files, d, done), size), |FilesReached(files, d, done)|, |DirsReached(dirs, d, done)|)
  }

  ghost function Below(dirs: set<Path>, files: set<Path>, size: Path -> nat, d: Path): Accum {
    Accum(SumOver(FilesBelow(files, d), size), |FilesBelow(files, d)|, |DirsBelow(dirs, d)|)
  }

  function Plus(a: Accum, b: Accum): Accum {
    Accum(a.size + b.size, a.files + b.files, a.dirs + b.dirs + 1)
  }

  /** What adding one complete directory to its parent does to every directory's share. */
  lemma ReachedStep(source: Path, dirs: set<Path>, files: set<Path>, size: Path -> nat, done: set<Path>, c: Path, d: Path)
    requires Forest(source, dirs, files) && c in dirs && c !in done && c != []
    ensures Reached(dirs, files, size, d, done + {c}) ==
      if d == Parent(c) then Plus(Reached(dirs, files, size, d, done), Below(dirs, files, size, c))
      else Reached(dirs, files, size, d, done)
  {
    hide FilesReached, DirsReached, FilesBelow, DirsBelow;
    FilesStep(dirs, files, done, c, d);
    DirsStep(dirs, done, c, d);
    if d == Parent(c) {
      SumUnion(FilesReached(files, d, done), FilesBelow(files, c), size);
      Disjoint(FilesReached(files, d, done), FilesBelow(files, c));
      Disjoint(DirsReached(dirs, d, done), {c} + DirsBelow(dirs, c));
      Disjoint({c}, DirsBelow(dirs, c));
    }
  }

  // ----- The pass over the directories -----

  ghost function Elements(s: seq<Path>): set<Path> {
    set p | p in s
  }

  ghost predicate ByDepth(order: seq<Path>, dirs: set<Path>) {
    && (forall p :: p in order <==> p in dirs)
    && (forall i, j :: 0 <= i < j < |order| ==> order[i] != order[j] && Depth(order[i]) >= Depth(order[j]))
  }

  /**
   What the pass keeps. The file system's root is its own parent and adds itself to itself, so of its entry only a
   lower bound is known.
   */
  ghost predicate Summed(source: Path, dirs: set<Path>, files: set<Path>, size: Path -> nat, accum: map<Path, Accum>, done: set<Path>) {
    && accum.Keys == dirs
    && (forall d :: d in dirs && d != [] ==> accum[d] == Reached(dirs, files, size, d, done))
    && ([] in dirs ==> accum[[]].dirs >= |DirsReached(dirs, [], done)| + if [] in done then 1 else 0)
  }

  function AddToParent(accum: map<Path, Accum>, p: Path): map<Path, Accum>
    requires p in accum
  {
    if Parent(p) in accum then accum[Parent(p) := Plus(accum[Parent(p)], accum[p])] else accum
  }

  lemma DeeperIsDone(source: Path, order: seq<Path>, dirs: set<Path>, files: set<Path>, i: nat)
    requires Forest(source, dirs, files) && ByDepth(order, dirs) && i < |order| && order[i] != []
    ensures Ready(source, dirs, Elements(order[..i]), order[i])
  {
    var c := order[i];
    forall x {:trigger Parent(x)} | x in dirs && x != source && Parent(x) == c
      ensures x in order[..i]
    {
      var k :| 0 <= k < |order| && order[k] == x;
      assert Depth(x) > Depth(c);
    }
  }

  lemma SummedStep(source: Path, dirs: set<Path>, files: set<Path>, size: Path -> nat, accum: map<Path, Accum>, done: set<Path>, c: Path)
    requires Forest(source, dirs, files) && Summed(source, dirs, files, size, accum, done)
    requires c in dirs && c !in done && (c != [] ==> Ready(source, dirs, done, c))
    ensures Summed(source, dirs, files, size, AddToParent(accum, c), done + {c})
  {
    hide Reached, Below, DirsReached;
    if c == [] {
      forall d | d in dirs
        ensures Reached(dirs, files, size, d, done + {[]}) == Reached(dirs, files, size, d, done)
        ensures DirsReached(dirs, d, done + {[]}) == DirsReached(dirs, d, done)
      {
        RootIsNoChild(dirs, files, size, done, d);
      }
    } else {
      ReachedIsBelow(source, dirs, files, size, done, c);
      forall d | d in dirs
        ensures Reached(dirs, files, size, d, done + {c}) ==
          if d == Parent(c) then Plus(Reached(dirs, files, size, d, done), Below(dirs, files, size, c))
          else Reached(dirs, files, size, d, done)
        ensures |DirsReached(dirs, d, done)| == Reached(dirs, files, size, d, done).dirs
        ensures |DirsReached(dirs, d, done + {c})| == Reached(dirs, files, size, d, done + {c}).dirs
      {
        ReachedStep(source, dirs, files, size, done, c, d);
        DirsOfReached(dirs, files, size, d, done);
        DirsOfReached(dirs, files, size, d, done + {c});
      }
    }
  }

  lemma DirsOfReached(dirs: set<Path>, files: set<Path>, size: Path -> nat, d: Path, done: set<Path>)
    ensures Reached(dirs, files, size, d, done).dirs == |DirsReached(dirs, d, done)|
  {}

  lemma ReachedIsBelow(source: Path, dirs: set<Path>, files: set<Path>, size: Path -> nat, done: set<Path>, c: Path)
    requires Forest(source, dirs, files) && Ready(source, dirs, done, c)
    ensures Reached(dirs, files, size, c, done) == Below(dirs, files, size, c)
  {
    ReadyIsComplete(source, dirs, files, done, c);
  }

  lemma RootIsNoChild(dirs: set<Path>, files: set<Path>, size: Path -> nat, done: set<Path>, d: Path)
    ensures Reached(dirs, files, size, d, done + {[]}) == Reached(dirs, files, size, d, done)
    ensures DirsReached(dirs, d, done + {[]}) == DirsReached(dirs, d, done)
  {
    assert FilesReached(files, d, done + {[]}) == FilesReached(files, d, done);
    assert DirsReached(dirs, d, done + {[]}) == DirsReached(dirs, d, done);
  }

  /** The accumulators after the pass are the sums over everything below each directory, unless the source is `/`. */
  method BottomUp(start: map<Path, Accum>, order: seq<Path>, ghost source: Path, ghost files: set<Path>, ghost size: Path -> nat)
    returns (accum: map<Path, Accum>)
    requires Forest(source, start.Keys, files) && ByDepth(order, start.Keys)
    requires forall d :: d in start ==> start[d] == Reached(start.Keys, files, size, d, {})
    ensures accum.Keys == start.Keys
    ensures (forall d :: d in accum ==> accum[d] == Below(start.Keys, files, size, d)) <==> source != [] || start == map[]
  {
    hide Reached, Below, Summed, Forest, ByDepth;
    accum := start;
    var i := 0;
    ghost var dirs := start.Keys;
    StartIsSummed(source, dirs, files, size, start);
    assert Elements(order[..0]) == {};
    while i < |order|
      invariant 0 <= i <= |order|
      invariant Summed(source, dirs, files, size, accum, Elements(order[..i]))
    {
      PassStep(source, order, dirs, files, size, accum, i);
      accum := AddToParent(accum, order[i]);
      i := i + 1;
    }
    assert order[..i] == order;
    assert Elements(order) == dirs by { AllListed(order, dirs); }
    SummedEnds(source, dirs, files, size, accum, Elements(order));
    SummedKeys(source, dirs, files, size, accum, Elements(order));
  }

  lemma AllListed(order: seq<Path>, dirs: set<Path>)
    requires ByDepth(order, dirs)
    ensures Elements(order) == dirs
  {}

  lemma SummedKeys(source: Path, dirs: set<Path>, files: set<Path>, size: Path -> nat, accum: map<Path, Accum>, done: set<Path>)
    requires Summed(source, dirs, files, size, accum, done)
    ensures accum.Keys == dirs
  {}

  lemma PassStep(source: Path, order: seq<Path>, dirs: set<Path>, files: set<Path>, size: Path -> nat, accum: map<Path, Accum>, i: nat)
    requires Forest(source, dirs, files) && ByDepth(order, dirs) && i < |order|
    requires Summed(source, dirs, files, size, accum, Elements(order[..i]))
    ensures order[i] in accum
    ensures Summed(source, dirs, files, size, AddToParent(accum, order[i]), Elements(order[..i + 1]))
  {
    hide Reached, Below, Forest, DirsReached;
    var done := Elements(order[..i]);
    assert order[i] in order;
    assert order[i] !in done;
    if order[i] != [] { DeeperIsDone(source, order, dirs, files, i); }
    hide Summed;
    SummedKeys(source, dirs, files, size, accum, done);
    SummedStep(source, dirs, files, size, accum, done, order[i]);
    assert Elements(order[..i + 1]) == done + {order[i]};
  }

  lemma StartIsSummed(source: Path, dirs: set<Path>, files: set<Path>, size: Path -> nat, start: map<Path, Accum>)
    requires start.Keys == dirs && forall d :: d in start ==> start[d] == Reached(dirs, files, size, d, {})
    ensures Summed(source, dirs, files, size, start, {})
  {}

  lemma SummedEnds(source: Path, dirs: set<Path>, files: set<Path>, size: Path -> nat, accum: map<Path, Accum>, done: set<Path>)
    requires Forest(source, dirs, files) && Summed(source, dirs, files, size, accum, done) && done == dirs
    ensures (forall d :: d in accum ==> accum[d] == Below(dirs, files, size, d)) <==> source != [] || dirs == {}
  {
    hide Reached, Below, DirsReached, FilesReached, DirsBelow, FilesBelow;
    if dirs == {} { return; }
    SourceIsThere(source, dirs, files);
    forall d | d in dirs
      ensures Reached(dirs, files, size, d, done) == Below(dirs, files, size, d)
      ensures DirsReached(dirs, d, done) == DirsBelow(dirs, d) && Below(dirs, files, size, d).dirs == |DirsBelow(dirs, d)|
    {
      AllAdded(source, dirs, files, size, d);
    }
    if source == [] {
      assert accum[[]] != Below(dirs, files, size, []);
    } else {
      assert forall d :: d in dirs ==> d in dirs + files;
      assert [] !in dirs;
    }
  }

  lemma AllAdded(source: Path, dirs: set<Path>, files: set<Path>, size: Path -> nat, d: Path)
    requires Forest(source, dirs, files) && d in dirs
    ensures Reached(dirs, files, size, d, dirs) == Below(dirs, files, size, d)
    ensures DirsReached(dirs, d, dirs) == DirsBelow(dirs, d) && Below(dirs, files, size, d).dirs == |DirsBelow(dirs, d)|
  {
    ReachedIsBelow(source, dirs, files, size, dirs, d);
    ReadyIsComplete(source, dirs, files, dirs, d);
  }

  lemma SourceIsThere(source: Path, dirs: set<Path>, files: set<Path>)
    requires Forest(source, dirs, files) && dirs != {}
    ensures source in dirs
  {
    var q :| q in dirs;
    if q != source {
      ParentsAreDirs(source, dirs, files, q, |source|);
      assert q[..|source|] == source;
    }
  }

  // ----- The walk -----

  /** The directories sorted by depth, the deepest first; equal depths come in any order. */
  method SortByDepth(dirs: set<Path>) returns (order: seq<Path>)
    ensures ByDepth(order, dirs)
  {
    order := [];
    var rest := dirs;
    while rest != {}
      invariant rest <= dirs && forall p :: p in order <==> p in dirs - rest
      invariant forall i, j :: 0 <= i < j < |order| ==> order[i] != order[j] && Depth(order[i]) >= Depth(order[j])
      invariant forall i, p :: 0 <= i < |order| && p in rest ==> Depth(order[i]) >= Depth(p)
      decreases rest
    {
      ghost var deepest := Deepest(rest);
      var p :| p in rest && forall q :: q in rest ==> Depth(p) >= Depth(q);
      assert p !in order;
      order, rest := order + [p], rest - {p};
    }
  }

  lemma {:induction false} Deepest(s: set<Path>) returns (p: Path)
    requires s != {}
    ensures p in s && forall q :: q in s ==> Depth(p) >= Depth(q)
    decreases s
  {
    p :| p in s;
    if s != {p} {
      var r := Deepest(s - {p});
      if Depth(r) > Depth(p) { p := r; }
    }
  }

  /** What the walk has collected after the entries in `seen`. */
  ghost predicate Collected(fs: Tree, source: Path, unreadable: set<Path>, seen: set<Path>,
      accum: map<Path, Accum>, files: seq<Path>, entered: set<Path>) {
    && seen <= Under(fs, source)
    && accum.Keys == VisibleDirs(fs, source, unreadable) * seen
    && entered == accum.Keys - unreadable
    && (forall f :: f in files <==> f in VisibleFiles(fs, source, unreadable) * seen)
    && (forall i, j :: 0 <= i < j < |files| ==> files[i] != files[j])
    && (forall d :: d in accum ==>
          accum[d] == Reached({}, VisibleFiles(fs, source, unreadable) * seen, FileSize(fs), d, {}))
  }

  /** A walk lists a directory before its entries. */
  ghost predicate ParentsSeen(source: Path, seen: set<Path>) {
    forall q {:trigger Parent(q)} :: q in seen && q != source ==> Parent(q) in seen
  }

  lemma VisitedByParent(fs: Tree, source: Path, unreadable: set<Path>, seen: set<Path>,
      accum: map<Path, Accum>, files: seq<Path>, entered: set<Path>, p: Path)
    requires WellFormed(fs) && IsDir(fs, source) && p in Under(fs, source) && (p != source ==> Parent(p) in seen)
    requires Collected(fs, source, unreadable, seen, accum, files, entered)
    ensures Visited(source, unreadable, p) <==> !Hidden(p) && (p == source || Parent(p) in entered)
    ensures Visited(source, unreadable, p) && p != source ==> Parent(p) in accum
  {
    if p != source {
      assert p != [] && Parent(p) in fs && fs[Parent(p)] == Dir;
    }
  }

  lemma VisibleGrows(fs: Tree, source: Path, unreadable: set<Path>, seen: set<Path>, p: Path)
    requires p in fs && p !in seen
    ensures var d, f := VisibleDirs(fs, source, unreadable), VisibleFiles(fs, source, unreadable);
      && d * (seen + {p}) == (if Visited(source, unreadable, p) && fs[p] == Dir then d * seen + {p} else d * seen)
      && f * (seen + {p}) == (if Visited(source, unreadable, p) && fs[p].File? then f * seen + {p} else f * seen)
      && p !in f * seen
  {}

  /** An entry the walk is not called for, and one it does not count. */
  lemma CollectSkips(fs: Tree, source: Path, unreadable: set<Path>, seen: set<Path>,
      accum: map<Path, Accum>, files: seq<Path>, entered: set<Path>, p: Path)
    requires p in Under(fs, source) - seen && Collected(fs, source, unreadable, seen, accum, files, entered)
    requires !Visited(source, unreadable, p)
    ensures Collected(fs, source, unreadable, seen + {p}, accum, files, entered)
  {
    hide VisibleDirs, VisibleFiles, Reached;
    VisibleGrows(fs, source, unreadable, seen, p);
  }

  lemma CollectDir(fs: Tree, source: Path, unreadable: set<Path>, seen: set<Path>,
      accum: map<Path, Accum>, files: seq<Path>, entered: set<Path>, p: Path)
    requires p in Under(fs, source) - seen && Collected(fs, source, unreadable, seen, accum, files, entered)
    requires Visited(source, unreadable, p) && fs[p] == Dir && ParentsSeen(source, seen)
    ensures Collected(fs, source, unreadable, seen + {p}, accum[p := Accum(0, 0, 0)], files,
                      if p in unreadable then entered else entered + {p})
  {
    hide VisibleDirs, VisibleFiles, Reached;
    VisibleGrows(fs, source, unreadable, seen, p);
    NothingYet(fs, source, VisibleFiles(fs, source, unreadable) * seen, seen, p);
  }

  lemma NothingYet(fs: Tree, source: Path, files: set<Path>, seen: set<Path>, p: Path)
    requires files <= seen && ParentsSeen(source, seen) && p !in seen && (forall f :: f in seen ==> source <= f) && source <= p
    ensures Reached({}, files, FileSize(fs), p, {}) == Accum(0, 0, 0)
  {
    forall f | f in files && p <= f && p != f
      ensures Parent(f) != p
    {
      assert f != source;
    }
    assert FilesReached(files, p, {}) == {};
  }

  lemma CollectFile(fs: Tree, source: Path, unreadable: set<Path>, seen: set<Path>,
      accum: map<Path, Accum>, files: seq<Path>, entered: set<Path>, p: Path)
    requires p in Under(fs, source) - seen && Collected(fs, source, unreadable, seen, accum, files, entered)
    requires Visited(source, unreadable, p) && fs[p].File? && p != [] && Parent(p) in accum
    ensures Collected(fs, source, unreadable, seen + {p}, accum[Parent(p) := WithFile(accum[Parent(p)], |fs[p].data|)],
                      files + [p], entered)
  {
    hide VisibleDirs, VisibleFiles, Reached;
    VisibleGrows(fs, source, unreadable, seen, p);
    forall d | d in accum
      ensures Reached({}, VisibleFiles(fs, source, unreadable) * seen + {p}, FileSize(fs), d, {}) ==
        if d == Parent(p) then WithFile(accum[d], |fs[p].data|) else accum[d]
    {
      OneMoreFile(fs, VisibleFiles(fs, source, unreadable) * seen, p, d);
    }
    assert p !in files;
  }

  function WithFile(a: Accum, size: nat): Accum {
    a.(size := a.size + size, files := a.files + 1)
  }

  lemma OneMoreFile(fs: Tree, files: set<Path>, p: Path, d: Path)
    requires p in fs && fs[p].File? && p !in files && p != []
    ensures Reached({}, files + {p}, FileSize(fs), d, {}) ==
      if d == Parent(p) then WithFile(Reached({}, files, FileSize(fs), d, {}), |fs[p].data|)
      else Reached({}, files, FileSize(fs), d, {})
  {
    OwnGrows(files, p, d);
    hide FilesReached, DirsReached;
    if d == Parent(p) { SumPick(FilesReached(files + {p}, d, {}), FileSize(fs), p); }
  }

  lemma OwnGrows(files: set<Path>, p: Path, d: Path)
    requires p !in files && p != []
    ensures var was, now := FilesReached(files, d, {}), FilesReached(files + {p}, d, {});
      if d == Parent(p) then p in now && now - {p} == was && |now| == |was| + 1 else now == was
    ensures DirsReached({}, d, {}) == {}
  {
    var was, now := FilesReached(files, d, {}), FilesReached(files + {p}, d, {});
    if d == Parent(p) { assert now == was + {p}; } else { assert now == was; }
  }

  /** The walk: hidden entries are left out with everything in them, and so is what an unreadable directory holds. */
  method Collect(fs: Tree, source: Path, unreadable: set<Path>) returns (accum: map<Path, Accum>, files: seq<Path>)
    requires WellFormed(fs) && IsDir(fs, source)
    ensures Collected(fs, source, unreadable, Under(fs, source), accum, files, accum.Keys - unreadable)
  {
    hide Collected, VisibleDirs, VisibleFiles, Reached, IsWalk, WellFormed, Visited;
    var order := WalkDir(fs, source);
    accum, files := map[], [];
    var entered := {};
    var i := 0;
    CollectStarts(fs, source, unreadable);
    assert Elements(order[..0]) == {};
    while i < |order|
      invariant 0 <= i <= |order|
      invariant Collected(fs, source, unreadable, Elements(order[..i]), accum, files, entered)
    {
      ghost var seen := Elements(order[..i]);
      var p := order[i];
      WalkStepFacts(fs, source, order, i);
      WalkSeesParents(fs, source, order, i);
      VisitedByParent(fs, source, unreadable, seen, accum, files, entered, p);
      if (p == source || Parent(p) in entered) && !Hidden(p) {
        if fs[p] == Dir {
          CollectDir(fs, source, unreadable, seen, accum, files, entered, p);
          accum := accum[p := Accum(0, 0, 0)];
          entered := if p in unreadable then entered else entered + {p};
        } else {
          CollectFile(fs, source, unreadable, seen, accum, files, entered, p);
          accum := accum[Parent(p) := WithFile(accum[Parent(p)], |fs[p].data|)];
          files := files + [p];
        }
      } else {
        CollectSkips(fs, source, unreadable, seen, accum, files, entered, p);
      }
      i := i + 1;
    }
    assert order[..i] == order;
    WalkIsAll(fs, source, order);
    CollectedEntered(fs, source, unreadable, Under(fs, source), accum, files, entered);
  }

  lemma CollectStarts(fs: Tree, source: Path, unreadable: set<Path>)
    ensures Collected(fs, source, unreadable, {}, map[], [], {})
  {}

  lemma CollectedEntered(fs: Tree, source: Path, unreadable: set<Path>, seen: set<Path>,
      accum: map<Path, Accum>, files: seq<Path>, entered: set<Path>)
    requires Collected(fs, source, unreadable, seen, accum, files, entered)
    ensures entered == accum.Keys - unreadable
  {}

  lemma WalkStepFacts(fs: Tree, root: Path, order: seq<Path>, i: nat)
    requires IsWalk(fs, root, order) && i < |order| && WellFormed(fs)
    ensures order[i] in Under(fs, root) - Elements(order[..i])
    ensures order[i] != root ==> order[i] != [] && Parent(order[i]) in Elements(order[..i])
    ensures Elements(order[..i + 1]) == Elements(order[..i]) + {order[i]}
  {
    hide IsWalk, WellFormed;
    WalkAt(fs, root, order, i);
    assert order[i] in order[..i + 1];
  }

  lemma WalkSeesParents(fs: Tree, root: Path, order: seq<Path>, i: nat)
    requires IsWalk(fs, root, order) && i <= |order|
    ensures ParentsSeen(root, Elements(order[..i]))
  {
    forall q {:trigger Parent(q)} | q in Elements(order[..i]) && q != root
      ensures Parent(q) in Elements(order[..i])
    {
      var k :| 0 <= k < i && order[k] == q;
      assert Parent(order[k]) in order[..k];
    }
  }

  lemma WalkIsAll(fs: Tree, root: Path, order: seq<Path>)
    requires IsWalk(fs, root, order)
    ensures Elements(order) == Under(fs, root)
  {}

  // ----- The stored rows -----

  /** A row; the source's own row has no parent. */
  datatype UsageRow = UsageRow(path: Path, parent: Option<Path>, isDir: bool, counts: Accum)

  function PublicPath(public: Path, source: Path, p: Path): Path
    requires source <= p
  {
    public + p[|source|..]
  }

  function ParentPath(public: Path, source: Path, p: Path): Option<Path>
    requires source <= p
  {
    if p == source then None else Some(PublicPath(public, source, Parent(p)))
  }

  function RowFor(public: Path, source: Path, p: Path, isDir: bool, counts: Accum): UsageRow
    requires source <= p
  {
    UsageRow(PublicPath(public, source, p), ParentPath(public, source, p), isDir, counts)
  }

  /** The bytes of all rows with the given parent, as a listing of that parent shows them. */
  function ListedBytes(rows: seq<UsageRow>, parent: Option<Path>): nat {
    if rows == [] then 0
    else
      ListedBytes(rows[..|rows| - 1], parent) +
      if rows[|rows| - 1].parent == parent then rows[|rows| - 1].counts.size else 0
  }

  function FileBytes(rows: seq<UsageRow>): nat {
    if rows == [] then 0
    else FileBytes(rows[..|rows| - 1]) + if rows[|rows| - 1].isDir then 0 else rows[|rows| - 1].counts.size
  }

  lemma PublicInjective(public: Path, source: Path, p: Path, q: Path)
    requires source <= p && source <= q && PublicPath(public, source, p) == PublicPath(public, source, q)
    ensures p == q
  {
    assert PublicPath(public, source, p)[|public|..] == p[|source|..];
    assert PublicPath(public, source, q)[|public|..] == q[|source|..];
    assert p == source + p[|source|..] && q == source + q[|source|..];
  }

  /** Rows that stand for the entries `keys`, one each. */
  ghost predicate RowsOf(public: Path, source: Path, keys: seq<Path>, rows: seq<UsageRow>, isDir: bool, w: Path -> nat) {
    && |rows| == |keys|
    && (forall i :: 0 <= i < |keys| ==> source <= keys[i])
    && (forall i, j :: 0 <= i < j < |keys| ==> keys[i] != keys[j])
    && (forall i :: 0 <= i < |keys| ==>
          && rows[i] == RowFor(public, source, keys[i], isDir, rows[i].counts) && rows[i].counts.size == w(keys[i]))
  }

  ghost function ListedKeys(public: Path, source: Path, keys: seq<Path>, parent: Option<Path>): set<Path> {
    set k | k in keys && source <= k && ParentPath(public, source, k) == parent
  }

  /** All rows but the last, and what the last one says. */
  lemma RowsOfLast(public: Path, source: Path, keys: seq<Path>, rows: seq<UsageRow>, isDir: bool, w: Path -> nat)
    requires RowsOf(public, source, keys, rows, isDir, w) && keys != []
    ensures var n := |keys| - 1;
      && |rows| == n + 1 && RowsOf(public, source, keys[..n], rows[..n], isDir, w)
      && source <= keys[n] && keys[n] !in keys[..n] && Elements(keys) == Elements(keys[..n]) + {keys[n]}
      && rows[n].parent == ParentPath(public, source, keys[n]) && rows[n].isDir == isDir && rows[n].counts.size == w(keys[n])
  {
    hide PublicPath, ParentPath;
    var n := |keys| - 1;
    assert keys == keys[..n] + [keys[n]];
  }

  lemma {:induction false} ListedIsSum(public: Path, source: Path, keys: seq<Path>, rows: seq<UsageRow>, isDir: bool, w: Path -> nat, parent: Option<Path>)
    requires RowsOf(public, source, keys, rows, isDir, w)
    ensures ListedBytes(rows, parent) == SumOver(ListedKeys(public, source, keys, parent), w)
  {
    hide PublicPath, ParentPath;
    if keys == [] {
      assert ListedKeys(public, source, keys, parent) == {};
    } else {
      hide SumOver, ListedKeys;
      RowsOfLast(public, source, keys, rows, isDir, w);
      hide RowsOf;
      var n := |keys| - 1;
      ListedIsSum(public, source, keys[..n], rows[..n], isDir, w, parent);
      LastListed(public, source, keys[..n], keys[n], keys, parent);
      if rows[n].parent == parent {
        SumPick(ListedKeys(public, source, keys, parent), w, keys[n]);
      }
    }
  }

  lemma LastListed(public: Path, source: Path, init: seq<Path>, last: Path, keys: seq<Path>, parent: Option<Path>)
    requires Elements(keys) == Elements(init) + {last} && last !in init && source <= last
    ensures ParentPath(public, source, last) == parent ==>
      last in ListedKeys(public, source, keys, parent) &&
      ListedKeys(public, source, keys, parent) - {last} == ListedKeys(public, source, init, parent)
    ensures ParentPath(public, source, last) != parent ==>
      ListedKeys(public, source, keys, parent) == ListedKeys(public, source, init, parent)
  {
    hide PublicPath, ParentPath;
    forall k: Path
      ensures k in keys <==> k in init || k == last
    {
      assert k in keys <==> k in Elements(keys);
      assert k in init <==> k in Elements(init);
    }
  }

  lemma {:induction false} ListedAppend(a: seq<UsageRow>, b: seq<UsageRow>, parent: Option<Path>)
    ensures ListedBytes(a + b, parent) == ListedBytes(a, parent) + ListedBytes(b, parent)
    ensures FileBytes(a + b) == FileBytes(a) + FileBytes(b)
  {
    if b == [] {
      assert a + b == a;
    } else {
      assert (a + b)[..|a + b| - 1] == a + b[..|b| - 1];
      ListedAppend(a, b[..|b| - 1], parent);
    }
  }

  lemma NotListed(keys: seq<Path>, p: Path)
    requires p !in keys
    ensures p !in Elements(keys)
  {}

  lemma {:induction false} FileBytesIsSum(public: Path, source: Path, keys: seq<Path>, rows: seq<UsageRow>, w: Path -> nat)
    requires RowsOf(public, source, keys, rows, false, w)
    ensures FileBytes(rows) == SumOver(Elements(keys), w)
  {
    if keys == [] {
      assert Elements(keys) == {};
    } else {
      var n := |keys| - 1;
      RowsOfLast(public, source, keys, rows, false, w);
      NotListed(keys[..n], keys[n]);
      FileBytesIsSum(public, source, keys[..n], rows[..n], w);
      SumOneMore(Elements(keys[..n]), Elements(keys), keys[n], w);
    }
  }

  lemma SumOneMore(was: set<Path>, now: set<Path>, x: Path, w: Path -> nat)
    requires x !in was && now == was + {x}
    ensures SumOver(now, w) == SumOver(was, w) + w(x)
  {
    SumPick(now, w, x);
    assert now - {x} == was;
  }

  lemma {:induction false} NoFileBytes(rows: seq<UsageRow>)
    requires forall i :: 0 <= i < |rows| ==> rows[i].isDir
    ensures FileBytes(rows) == 0
  {
    if rows != [] { NoFileBytes(rows[..|rows| - 1]); }
  }

  // ----- Each directory's bytes are those of the rows it lists -----

  ghost function Kids(source: Path, dirs: set<Path>, d: Path): set<Path> {
    set c | c in dirs && c != source && Parent(c) == d
  }

  ghost function BytesBelow(dirs: set<Path>, files: set<Path>, size: Path -> nat): Path -> nat {
    (d: Path) => Below(dirs, files, size, d).size
  }

  lemma {:induction false} SomeKids(source: Path, dirs: set<Path>, files: set<Path>, size: Path -> nat, d: Path, kids: set<Path>)
    requires Forest(source, dirs, files) && kids <= Kids(source, dirs, d) && source != []
    ensures Reached(dirs, files, size, d, kids).size ==
      Reached(dirs, files, size, d, {}).size + SumOver(kids, BytesBelow(dirs, files, size))
    decreases kids
  {
    hide Reached, Below;
    if kids != {} {
      var c :| c in kids;
      SomeKids(source, dirs, files, size, d, kids - {c});
      SumPick(kids, BytesBelow(dirs, files, size), c);
      assert c in dirs + files && c != [];
      ReachedStep(source, dirs, files, size, kids - {c}, c, d);
      assert kids - {c} + {c} == kids;
    }
  }

  lemma BytesAreListed(source: Path, dirs: set<Path>, files: set<Path>, size: Path -> nat, d: Path)
    requires Forest(source, dirs, files) && d in dirs && source != []
    ensures Below(dirs, files, size, d).size ==
      SumOver(FilesReached(files, d, {}), size) + SumOver(Kids(source, dirs, d), BytesBelow(dirs, files, size))
  {
    SomeKids(source, dirs, files, size, d, Kids(source, dirs, d));
    ReachedIsBelow(source, dirs, files, size, Kids(source, dirs, d), d);
  }

  /** What the stored rows say, taken together. */
  ghost predicate RowsAddUp(rows: seq<UsageRow>) {
    && (forall i, j :: 0 <= i < j < |rows| ==> rows[i].path != rows[j].path)
    && (forall i :: 0 <= i < |rows| && rows[i].isDir ==> rows[i].counts.size == ListedBytes(rows, Some(rows[i].path)))
    && (forall i, j :: 0 <= i < |rows| && 0 <= j < |rows| && rows[i].parent.None? && rows[j].parent.None? ==> i == j)
    && ListedBytes(rows, None) == FileBytes(rows)
  }

  /** One row for every visible entry, with the sums over everything visible below it. */
  ghost predicate RowsComplete(fs: Tree, source: Path, public: Path, unreadable: set<Path>, rows: seq<UsageRow>) {
    && HasRows(fs, source, public, unreadable, rows)
    && NoOtherRows(source, public, VisibleDirs(fs, source, unreadable), VisibleFiles(fs, source, unreadable), rows)
  }

  ghost predicate HasRows(fs: Tree, source: Path, public: Path, unreadable: set<Path>, rows: seq<UsageRow>) {
    var dirs, files := VisibleDirs(fs, source, unreadable), VisibleFiles(fs, source, unreadable);
    && |rows| == |dirs| + |files|
    && (forall d :: d in dirs ==> source <= d && RowFor(public, source, d, true, Below(dirs, files, FileSize(fs), d)) in rows)
    && (forall f :: f in files ==> source <= f && RowFor(public, source, f, false, Accum(FileSize(fs)(f), 0, 0)) in rows)
  }

  ghost predicate NoOtherRows(source: Path, public: Path, dirs: set<Path>, files: set<Path>, rows: seq<UsageRow>) {
    forall i :: 0 <= i < |rows| ==> IsOf(source, public, dirs + files, rows[i].path)
  }

  ghost predicate IsOf(source: Path, public: Path, entries: set<Path>, path: Path) {
    exists p :: p in entries && source <= p && path == PublicPath(public, source, p)
  }

  /** What a row says of the entry that lies at `rel` below the source. */
  ghost predicate RowOf(public: Path, rel: Path, isDir: bool, row: UsageRow) {
    && row.path == public + rel && row.isDir == isDir
    && row.parent == if rel == [] then None else Some(public + rel[..|rel| - 1])
  }

  /** The rows are those of the shown entries, each under the source's public path followed by the entry's names. */
  lemma RowsAreTheShown(fs: Tree, source: Path, public: Path, unreadable: set<Path>, rows: seq<UsageRow>, rel: Path)
    requires RowsComplete(fs, source, public, unreadable, rows)
    ensures (exists i :: 0 <= i < |rows| && rows[i].path == public + rel) <==>
      source + rel in fs && Shown(source, unreadable, source + rel)
    ensures source + rel in fs && Shown(source, unreadable, source + rel) ==>
      exists i :: 0 <= i < |rows| && RowOf(public, rel, fs[source + rel] == Dir, rows[i])
    ensures forall i :: 0 <= i < |rows| ==> public <= rows[i].path
  {
    hide Visited, Shown, Below;
    var p := source + rel;
    VisitedExactly(source, unreadable, p);
    assert p[|source|..] == rel;
    assert rel != [] ==> Parent(p)[|source|..] == rel[..|rel| - 1];
    forall i | 0 <= i < |rows|
      ensures public <= rows[i].path
      ensures rows[i].path == public + rel ==> p in fs && Visited(source, unreadable, p)
    {
      assert IsOf(source, public, VisibleDirs(fs, source, unreadable) + VisibleFiles(fs, source, unreadable), rows[i].path);
      var q :| q in VisibleDirs(fs, source, unreadable) + VisibleFiles(fs, source, unreadable) && source <= q &&
        rows[i].path == PublicPath(public, source, q);
      if rows[i].path == public + rel { PublicInjective(public, source, p, q); }
    }
    if p in fs && Visited(source, unreadable, p) { VisitedHasRow(fs, source, public, unreadable, rows, rel); }
  }

  lemma VisitedHasRow(fs: Tree, source: Path, public: Path, unreadable: set<Path>, rows: seq<UsageRow>, rel: Path)
    requires RowsComplete(fs, source, public, unreadable, rows)
    requires source + rel in fs && Visited(source, unreadable, source + rel)
    ensures exists i :: 0 <= i < |rows| && RowOf(public, rel, fs[source + rel] == Dir, rows[i])
  {
    hide Visited, Below, NoOtherRows;
    var p := source + rel;
    assert p[|source|..] == rel;
    assert rel != [] ==> Parent(p)[|source|..] == rel[..|rel| - 1];
    assert source + [] == source;
    var dirs, files := VisibleDirs(fs, source, unreadable), VisibleFiles(fs, source, unreadable);
    assert p in dirs + files;
    var counts := if fs[p] == Dir then Below(dirs, files, FileSize(fs), p) else Accum(FileSize(fs)(p), 0, 0);
    var row := RowFor(public, source, p, fs[p] == Dir, counts);
    assert row in rows;
    var i :| 0 <= i < |rows| && rows[i] == row;
    assert RowOf(public, rel, fs[p] == Dir, rows[i]);
  }

  /** The rows as the last phase builds them: the directories in the order of the pass, then the files. */
  ghost predicate Built(public: Path, source: Path, order: seq<Path>, accum: map<Path, Accum>, files: seq<Path>,
      size: Path -> nat, rows: seq<UsageRow>) {
    && |rows| == |order| + |files|
    && (forall i :: 0 <= i < |order| ==>
          order[i] in accum && source <= order[i] && rows[i] == RowFor(public, source, order[i], true, accum[order[i]]))
    && (forall i :: 0 <= i < |files| ==>
          source <= files[i] && rows[|order| + i] == RowFor(public, source, files[i], false, Accum(size(files[i]), 0, 0)))
  }

  method BuildRows(public: Path, source: Path, order: seq<Path>, accum: map<Path, Accum>, files: seq<Path>, size: Path -> nat)
    returns (rows: seq<UsageRow>)
    requires forall p :: p in order ==> p in accum && source <= p
    requires forall f :: f in files ==> source <= f
    ensures Built(public, source, order, accum, files, size, rows)
  {
    hide RowFor;
    rows := [];
    for i := 0 to |order|
      invariant Built(public, source, order[..i], accum, [], size, rows)
    {
      rows := rows + [RowFor(public, source, order[i], true, accum[order[i]])];
    }
    for i := 0 to |files|
      invariant Built(public, source, order, accum, files[..i], size, rows)
    {
      assert files[i] in files;
      rows := rows + [RowFor(public, source, files[i], false, Accum(size(files[i]), 0, 0))];
    }
    assert files[..|files|] == files;
  }

  /** What is known of the parts the rows are built from. */
  ghost predicate Parts(source: Path, order: seq<Path>, dirs: set<Path>, accum: map<Path, Accum>, files: seq<Path>, size: Path -> nat) {
    && Forest(source, dirs, Elements(files)) && ByDepth(order, dirs) && accum.Keys == dirs && source != []
    && (forall i, j :: 0 <= i < j < |files| ==> files[i] != files[j])
    && (forall d :: d in dirs ==> accum[d] == Below(dirs, Elements(files), size, d))
  }

  lemma BuiltParts(public: Path, source: Path, order: seq<Path>, dirs: set<Path>, accum: map<Path, Accum>, files: seq<Path>,
      size: Path -> nat, rows: seq<UsageRow>)
    requires Built(public, source, order, accum, files, size, rows) && Parts(source, order, dirs, accum, files, size)
    ensures |order| <= |rows|
    ensures RowsOf(public, source, order, rows[..|order|], true, BytesBelow(dirs, Elements(files), size))
    ensures RowsOf(public, source, files, rows[|order|..], false, size)
    ensures rows == rows[..|order|] + rows[|order|..]
  {
    hide Below, PublicPath, ParentPath;
    forall i | 0 <= i < |order|
      ensures order[i] in dirs
    {
      assert order[i] in order;
    }
  }

  lemma ListedHere(public: Path, source: Path, order: seq<Path>, dirs: set<Path>, accum: map<Path, Accum>, files: seq<Path>,
      size: Path -> nat, rows: seq<UsageRow>, parent: Option<Path>)
    requires Built(public, source, order, accum, files, size, rows) && Parts(source, order, dirs, accum, files, size)
    ensures ListedBytes(rows, parent) ==
      SumOver(ListedKeys(public, source, order, parent), BytesBelow(dirs, Elements(files), size)) +
      SumOver(ListedKeys(public, source, files, parent), size)
    ensures FileBytes(rows) == SumOver(Elements(files), size)
  {
    hide RowsOf, Built, Parts, BytesBelow, ListedKeys;
    BuiltParts(public, source, order, dirs, accum, files, size, rows);
    var a, b := rows[..|order|], rows[|order|..];
    ListedAppend(a, b, parent);
    ListedIsSum(public, source, order, a, true, BytesBelow(dirs, Elements(files), size), parent);
    ListedIsSum(public, source, files, b, false, size, parent);
    NoDirBytes(public, source, order, a, BytesBelow(dirs, Elements(files), size));
    FileBytesIsSum(public, source, files, b, size);
  }

  lemma NoDirBytes(public: Path, source: Path, keys: seq<Path>, rows: seq<UsageRow>, w: Path -> nat)
    requires RowsOf(public, source, keys, rows, true, w)
    ensures FileBytes(rows) == 0
  {
    NoFileBytes(rows);
  }

  lemma ListedUnder(public: Path, source: Path, dirs: set<Path>, files: set<Path>, keys: seq<Path>, d: Path)
    requires Forest(source, dirs, files) && d in dirs && source != [] && source <= d
    requires forall k :: k in keys ==> k in dirs + files
    ensures ListedKeys(public, source, keys, Some(PublicPath(public, source, d))) ==
      set k | k in keys && k != source && Parent(k) == d
  {
    assert d in dirs + files;
    var p := Some(PublicPath(public, source, d));
    forall k | k in keys
      ensures source <= k && (ParentPath(public, source, k) == p <==> k != source && Parent(k) == d)
    {
      assert k in dirs + files;
      if k != source {
        assert source <= Parent(k) by { assert Parent(k) in dirs + files; }
        if PublicPath(public, source, Parent(k)) == p.value { PublicInjective(public, source, Parent(k), d); }
      }
    }
  }

  lemma DirRowsComeFirst(public: Path, source: Path, order: seq<Path>, accum: map<Path, Accum>, files: seq<Path>,
      size: Path -> nat, rows: seq<UsageRow>, i: nat)
    requires Built(public, source, order, accum, files, size, rows) && i < |rows|
    ensures rows[i].isDir <==> i < |order|
  {
    if i >= |order| {
      var k := i - |order|;
      assert source <= files[k] && rows[|order| + k] == rows[i];
    }
  }

  lemma DirRowsAddUp(public: Path, source: Path, order: seq<Path>, dirs: set<Path>, accum: map<Path, Accum>, files: seq<Path>,
      size: Path -> nat, rows: seq<UsageRow>, i: nat)
    requires Built(public, source, order, accum, files, size, rows) && Parts(source, order, dirs, accum, files, size)
    requires i < |rows| && rows[i].isDir
    ensures rows[i].counts.size == ListedBytes(rows, Some(rows[i].path))
  {
    hide Below, ListedKeys, PublicPath, ParentPath;
    DirRowsComeFirst(public, source, order, accum, files, size, rows, i);
    var d := order[i];
    assert d in order;
    var f := Elements(files);
    ListedHere(public, source, order, dirs, accum, files, size, rows, Some(rows[i].path));
    ListedUnder(public, source, dirs, f, order, d);
    ListedUnder(public, source, dirs, f, files, d);
    BytesAreListed(source, dirs, f, size, d);
    assert Kids(source, dirs, d) == set k | k in order && k != source && Parent(k) == d;
    OwnFiles(source, dirs, f, files, d);
  }

  lemma OwnFiles(source: Path, dirs: set<Path>, files: set<Path>, keys: seq<Path>, d: Path)
    requires Forest(source, dirs, files) && files == Elements(keys) && d in dirs
    ensures FilesReached(files, d, {}) == set k | k in keys && k != source && Parent(k) == d
  {
    forall k | k in keys && k != source && Parent(k) == d
      ensures k in files && d <= k && d != k
    {
      assert k in dirs + files;
    }
  }

  lemma SourceRowAddsUp(public: Path, source: Path, order: seq<Path>, dirs: set<Path>, accum: map<Path, Accum>, files: seq<Path>,
      size: Path -> nat, rows: seq<UsageRow>)
    requires Built(public, source, order, accum, files, size, rows) && Parts(source, order, dirs, accum, files, size)
    ensures ListedBytes(rows, None) == FileBytes(rows)
  {
    hide Built, PublicPath, Below, ListedKeys, FilesBelow;
    var f, w := Elements(files), BytesBelow(dirs, Elements(files), size);
    ListedHere(public, source, order, dirs, accum, files, size, rows, None);
    OnlySource(public, source, dirs, f, order, files);
    if dirs != {} {
      SumPick({source}, w, source);
      AllBelowSource(source, dirs, f);
    }
  }

  lemma OnlySource(public: Path, source: Path, dirs: set<Path>, f: set<Path>, order: seq<Path>, files: seq<Path>)
    requires Forest(source, dirs, f) && ByDepth(order, dirs) && f == Elements(files)
    ensures ListedKeys(public, source, files, None) == {}
    ensures dirs == {} ==> f == {} && ListedKeys(public, source, order, None) == {}
    ensures dirs != {} ==> ListedKeys(public, source, order, None) == {source}
  {
    assert source !in files by { assert source !in f; }
    if dirs == {} {
      assert forall q :: q in f ==> q in dirs + f;
    } else {
      SourceIsThere(source, dirs, f);
      assert source in order;
    }
  }

  lemma AllBelowSource(source: Path, dirs: set<Path>, f: set<Path>)
    requires Forest(source, dirs, f)
    ensures FilesBelow(f, source) == f
    ensures forall size: Path -> nat {:trigger Below(dirs, f, size, source)} :: Below(dirs, f, size, source).size == SumOver(f, size)
  {
    assert forall q :: q in f ==> q in dirs + f;
  }

  lemma RowsAreApart(public: Path, source: Path, order: seq<Path>, dirs: set<Path>, accum: map<Path, Accum>, files: seq<Path>,
      size: Path -> nat, rows: seq<UsageRow>, i: nat, j: nat)
    requires Built(public, source, order, accum, files, size, rows) && Parts(source, order, dirs, accum, files, size)
    requires i < j < |rows|
    ensures rows[i].path != rows[j].path
    ensures !(rows[i].parent.None? && rows[j].parent.None?)
  {
    hide Below;
    var a := if i < |order| then order[i] else files[i - |order|];
    var b := if j < |order| then order[j] else files[j - |order|];
    assert i < |order| ==> a in order;
    assert j < |order| ==> b in order;
    assert i >= |order| ==> a in Elements(files);
    assert j >= |order| ==> b in Elements(files);
    assert a != b;
    if rows[i].path == rows[j].path { PublicInjective(public, source, a, b); }
  }

  lemma BuiltAddsUp(public: Path, source: Path, order: seq<Path>, dirs: set<Path>, accum: map<Path, Accum>, files: seq<Path>,
      size: Path -> nat, rows: seq<UsageRow>)
    requires Built(public, source, order, accum, files, size, rows) && Parts(source, order, dirs, accum, files, size)
    ensures RowsAddUp(rows)
  {
    hide Built, Parts, ListedBytes, FileBytes;
    forall i, j | 0 <= i < j < |rows|
      ensures rows[i].path != rows[j].path && !(rows[i].parent.None? && rows[j].parent.None?)
    {
      RowsAreApart(public, source, order, dirs, accum, files, size, rows, i, j);
    }
    forall i | 0 <= i < |rows| && rows[i].isDir
      ensures rows[i].counts.size == ListedBytes(rows, Some(rows[i].path))
    {
      DirRowsAddUp(public, source, order, dirs, accum, files, size, rows, i);
    }
    SourceRowAddsUp(public, source, order, dirs, accum, files, size, rows);
  }

  lemma BuiltIsAll(public: Path, source: Path, order: seq<Path>, dirs: set<Path>, accum: map<Path, Accum>, files: seq<Path>,
      size: Path -> nat, rows: seq<UsageRow>)
    requires Built(public, source, order, accum, files, size, rows)
    requires Parts(source, order, dirs, accum, files, size)
    ensures NoOtherRows(source, public, dirs, Elements(files), rows)
  {
    hide Below, ParentPath, Forest;
    forall i | 0 <= i < |rows|
      ensures IsOf(source, public, dirs + Elements(files), rows[i].path)
    {
      var k := i - |order|;
      assert i >= |order| ==> rows[|order| + k] == rows[i] && files[k] in Elements(files);
      assert i < |order| ==> order[i] in order;
      var p := if i < |order| then order[i] else files[k];
      assert p in dirs + Elements(files) && source <= p && rows[i].path == PublicPath(public, source, p);
    }
  }

  lemma BuiltIsComplete(fs: Tree, source: Path, public: Path, unreadable: set<Path>, order: seq<Path>, accum: map<Path, Accum>,
      files: seq<Path>, rows: seq<UsageRow>)
    requires Built(public, source, order, accum, files, FileSize(fs), rows)
    requires Parts(source, order, VisibleDirs(fs, source, unreadable), accum, files, FileSize(fs))
    requires Elements(files) == VisibleFiles(fs, source, unreadable)
    ensures RowsComplete(fs, source, public, unreadable, rows)
  {
    hide Below, VisibleDirs, VisibleFiles, FileSize, PublicPath, ParentPath;
    hide *;
    BuiltIsAll(public, source, order, VisibleDirs(fs, source, unreadable), accum, files, FileSize(fs), rows);
    BuiltHasRows(fs, source, public, unreadable, order, accum, files, rows);
    BothAreComplete(fs, source, public, unreadable, rows);
  }

  lemma BothAreComplete(fs: Tree, source: Path, public: Path, unreadable: set<Path>, rows: seq<UsageRow>)
    requires HasRows(fs, source, public, unreadable, rows)
    requires NoOtherRows(source, public, VisibleDirs(fs, source, unreadable), VisibleFiles(fs, source, unreadable), rows)
    ensures RowsComplete(fs, source, public, unreadable, rows)
  {
    hide VisibleDirs, VisibleFiles, HasRows, NoOtherRows;
  }

  lemma BuiltHasRows(fs: Tree, source: Path, public: Path, unreadable: set<Path>, order: seq<Path>, accum: map<Path, Accum>,
      files: seq<Path>, rows: seq<UsageRow>)
    requires Built(public, source, order, accum, files, FileSize(fs), rows)
    requires Parts(source, order, VisibleDirs(fs, source, unreadable), accum, files, FileSize(fs))
    requires Elements(files) == VisibleFiles(fs, source, unreadable)
    ensures HasRows(fs, source, public, unreadable, rows)
  {
    hide Below, VisibleDirs, VisibleFiles, FileSize, PublicPath, ParentPath;
    var dirs, f, size := VisibleDirs(fs, source, unreadable), VisibleFiles(fs, source, unreadable), FileSize(fs);
    DistinctCount(order, dirs);
    DistinctCount(files, f);
    forall d | d in dirs
      ensures source <= d && RowFor(public, source, d, true, Below(dirs, f, size, d)) in rows
    {
      var i :| 0 <= i < |order| && order[i] == d;
      assert rows[i] in rows;
    }
    forall p | p in f
      ensures source <= p && RowFor(public, source, p, false, Accum(size(p), 0, 0)) in rows
    {
      var i :| 0 <= i < |files| && files[i] == p;
      assert rows[|order| + i] in rows;
    }
  }

  lemma {:induction false} DistinctCount(s: seq<Path>, all: set<Path>)
    requires forall i, j :: 0 <= i < j < |s| ==> s[i] != s[j]
    requires forall p :: p in s <==> p in all
    ensures |s| == |all|
  {
    if s != [] {
      var last := s[|s| - 1];
      assert s == s[..|s| - 1] + [last];
      DistinctCount(s[..|s| - 1], all - {last});
    }
  }

  /** A whole analysis, from the walk to the rows to store. */
  method AnalyzeDisk(fs: Tree, source: Path, public: Path, unreadable: set<Path>) returns (ok: bool, rows: seq<UsageRow>)
    requires WellFormed(fs)
    ensures ok <==> IsDir(fs, source)
    ensures ok && source != [] ==> RowsAddUp(rows) && RowsComplete(fs, source, public, unreadable, rows)
    ensures ok && Hidden(source) ==> rows == []
  {
    hide VisibleDirs, VisibleFiles, Reached, Below, Forest, FileSize;
    if source !in fs || fs[source].File? { return false, []; }
    var accum, files := Collect(fs, source, unreadable);
    CollectedParts(fs, source, unreadable, accum, files);
    var order := SortByDepth(accum.Keys);
    accum := BottomUp(accum, order, source, Elements(files), FileSize(fs));
    VisibleBelow(fs, source, unreadable, order, accum, files);
    rows := BuildRows(public, source, order, accum, files, FileSize(fs));
    if source != [] {
      BuiltAddsUp(public, source, order, accum.Keys, accum, files, FileSize(fs), rows);
      BuiltIsComplete(fs, source, public, unreadable, order, accum, files, rows);
    }
    if Hidden(source) { HiddenSource(fs, source, unreadable, order, files); }
    return true, rows;
  }

  /** An analysis job, left alone: it completes for a directory and fails for anything else. */
  method ProcessDiskAnalyze(fs: Tree, source: Path, public: Path, unreadable: set<Path>) returns (status: Status, rows: seq<UsageRow>)
    requires WellFormed(fs)
    ensures status in OTHER_ENDS && (status == Completed <==> IsDir(fs, source))
    ensures status == Completed && source != [] ==> RowsAddUp(rows) && RowsComplete(fs, source, public, unreadable, rows)
  {
    hide RowsAddUp, RowsComplete;
    var ok;
    ok, rows := AnalyzeDisk(fs, source, public, unreadable);
    status := if ok then Completed else Failed;
  }

  lemma CollectedParts(fs: Tree, source: Path, unreadable: set<Path>, accum: map<Path, Accum>, files: seq<Path>)
    requires WellFormed(fs) && IsDir(fs, source)
    requires Collected(fs, source, unreadable, Under(fs, source), accum, files, accum.Keys - unreadable)
    ensures accum.Keys == VisibleDirs(fs, source, unreadable) && Elements(files) == VisibleFiles(fs, source, unreadable)
    ensures Forest(source, accum.Keys, Elements(files))
    ensures forall d :: d in accum ==> accum[d] == Reached(accum.Keys, Elements(files), FileSize(fs), d, {})
    ensures forall i, j :: 0 <= i < j < |files| ==> files[i] != files[j]
  {
    var dirs, f := VisibleDirs(fs, source, unreadable), VisibleFiles(fs, source, unreadable);
    VisibleIsUnder(fs, source, unreadable);
    assert dirs * Under(fs, source) == dirs && f * Under(fs, source) == f;
    VisibleIsForest(fs, source, unreadable);
    forall d | d in accum
      ensures Reached({}, f, FileSize(fs), d, {}) == Reached(accum.Keys, f, FileSize(fs), d, {})
    {
      assert DirsReached({}, d, {}) == {} == DirsReached(accum.Keys, d, {});
    }
  }

  lemma VisibleIsUnder(fs: Tree, source: Path, unreadable: set<Path>)
    ensures VisibleDirs(fs, source, unreadable) + VisibleFiles(fs, source, unreadable) <= Under(fs, source)
  {}

  lemma VisibleBelow(fs: Tree, source: Path, unreadable: set<Path>, order: seq<Path>, accum: map<Path, Accum>, files: seq<Path>)
    requires Forest(source, accum.Keys, Elements(files)) && ByDepth(order, accum.Keys)
    ensures forall p :: p in order ==> p in accum && source <= p
    ensures forall f :: f in files ==> source <= f
  {
    assert forall p :: p in order ==> p in accum.Keys + Elements(files);
    assert forall f :: f in files ==> f in accum.Keys + Elements(files);
  }

  lemma HiddenSource(fs: Tree, source: Path, unreadable: set<Path>, order: seq<Path>, files: seq<Path>)
    requires Hidden(source) && ByDepth(order, VisibleDirs(fs, source, unreadable))
    requires Elements(files) == VisibleFiles(fs, source, unreadable)
    ensures order == [] && files == []
  {
    forall p: Path
      ensures !Visited(source, unreadable, p)
    {
      NothingVisited(source, unreadable, p);
    }
    FirstIsIn(order);
    FirstIsIn(files);
    assert forall p :: p in files ==> p in Elements(files);
  }

  lemma FirstIsIn(s: seq<Path>)
    ensures s != [] ==> s[0] in s
  {}

  lemma {:induction false} NothingVisited(source: Path, unreadable: set<Path>, p: Path)
    requires Hidden(source)
    ensures !Visited(source, unreadable, p)
    decreases |p|
  {
    if source <= p && p != source { NothingVisited(source, unreadable, Parent(p)); }
  }
}
