/** The first phase of the duplicate search: the walk that finds the files to compare, and the search of a whole tree. */
module DuplicateWalk {
  import opened FileSystem
  import opened JobStatus
  import opened Volumes
  import opened Names
  import opened Duplicates
  import DiskUsage

  /** Device and inode of an entry, unless they cannot be read. */
  type Infos = Path -> Option<(nat, nat)>

  /** The files worth comparing: visible, not empty, and with readable information. */
  ghost function Comparable(fs: Tree, source: Path, unreadable: set<Path>, info: Infos): set<Path> {
    set p | p in DiskUsage.VisibleFiles(fs, source, unreadable) && fs[p].data != [] && info(p).Some?
  }

  function FileAt(fs: Tree, info: Infos, p: Path): Duplicates.Candidate
    requires IsFile(fs, p) && info(p).Some?
  {
    Duplicates.Candidate(p, fs[p].data, info(p).value.0, info(p).value.1)
  }

  /** What the walk has found among the entries in `seen`: each file worth comparing once, and nothing else. */
  ghost predicate Gathered(fs: Tree, source: Path, unreadable: set<Path>, info: Infos, seen: set<Path>, all: seq<Duplicates.Candidate>) {
    && (forall i :: 0 <= i < |all| ==> all[i].path in Comparable(fs, source, unreadable, info) * seen)
    && (forall i :: 0 <= i < |all| ==> all[i] == FileAt(fs, info, all[i].path))
    && (forall p :: p in Comparable(fs, source, unreadable, info) * seen ==> FileAt(fs, info, p) in all)
    && (forall i, j :: 0 <= i < j < |all| ==> all[i].path != all[j].path)
  }

  lemma GatherSkips(fs: Tree, source: Path, unreadable: set<Path>, info: Infos, seen: set<Path>, all: seq<Duplicates.Candidate>, p: Path)
    requires Gathered(fs, source, unreadable, info, seen, all) && p !in Comparable(fs, source, unreadable, info)
    ensures Gathered(fs, source, unreadable, info, seen + {p}, all)
  {
    hide Comparable;
    var was, now := Comparable(fs, source, unreadable, info) * seen, Comparable(fs, source, unreadable, info) * (seen + {p});
    assert was == now;
  }

  lemma GatherTakes(fs: Tree, source: Path, unreadable: set<Path>, info: Infos, seen: set<Path>, all: seq<Duplicates.Candidate>, p: Path)
    requires Gathered(fs, source, unreadable, info, seen, all) && p in Comparable(fs, source, unreadable, info) && p !in seen
    ensures Gathered(fs, source, unreadable, info, seen + {p}, all + [FileAt(fs, info, p)])
  {
    var longer := all + [FileAt(fs, info, p)];
    assert longer[|all|].path == p;
    forall q | q in Comparable(fs, source, unreadable, info) * (seen + {p})
      ensures FileAt(fs, info, q) in longer
    {
      if q != p { assert FileAt(fs, info, q) in all; }
    }
  }

  /** The directories the walk has gone into are those it may, of what it has seen. */
  ghost predicate Entered(fs: Tree, source: Path, unreadable: set<Path>, seen: set<Path>, entered: set<Path>) {
    entered == DiskUsage.VisibleDirs(fs, source, unreadable) * seen - unreadable
  }

  lemma VisitedByParent(fs: Tree, source: Path, unreadable: set<Path>, seen: set<Path>, entered: set<Path>, p: Path)
    requires WellFormed(fs) && p in Under(fs, source) && (p != source ==> p != [] && Parent(p) in seen)
    requires Entered(fs, source, unreadable, seen, entered)
    ensures DiskUsage.Visited(source, unreadable, p) <==> !DiskUsage.Hidden(p) && (p == source || Parent(p) in entered)
  {
    if p != source { assert Parent(p) in fs && fs[Parent(p)] == Dir; }
  }

  lemma EntersOne(fs: Tree, source: Path, unreadable: set<Path>, seen: set<Path>, entered: set<Path>, p: Path)
    requires p in fs && p !in seen && Entered(fs, source, unreadable, seen, entered)
    ensures Entered(fs, source, unreadable, seen + {p},
                    if DiskUsage.Visited(source, unreadable, p) && fs[p] == Dir && p !in unreadable then entered + {p} else entered)
  {}

  /** The walk: hidden entries, empty files and what cannot be read are left out. */
  method Gather(fs: Tree, source: Path, unreadable: set<Path>, info: Infos) returns (all: seq<Duplicates.Candidate>)
    requires WellFormed(fs) && IsDir(fs, source)
    ensures Gathered(fs, source, unreadable, info, Under(fs, source), all)
  {
    hide Gathered, Entered, IsWalk, WellFormed, DiskUsage.Visited;
    var order := WalkDir(fs, source);
    all := [];
    var entered := {};
    var i := 0;
    assert DiskUsage.Elements(order[..0]) == {};
    NothingGathered(fs, source, unreadable, info);
    while i < |order|
      invariant 0 <= i <= |order|
      invariant Gathered(fs, source, unreadable, info, DiskUsage.Elements(order[..i]), all)
      invariant Entered(fs, source, unreadable, DiskUsage.Elements(order[..i]), entered)
    {
      ghost var seen := DiskUsage.Elements(order[..i]);
      var p := order[i];
      DiskUsage.WalkStepFacts(fs, source, order, i);
      VisitedByParent(fs, source, unreadable, seen, entered, p);
      EntersOne(fs, source, unreadable, seen, entered, p);
      if (p == source || Parent(p) in entered) && !DiskUsage.Hidden(p) && fs[p].File? && fs[p].data != [] && info(p).Some? {
        GatherTakes(fs, source, unreadable, info, seen, all, p);
        all := all + [FileAt(fs, info, p)];
      } else {
        GatherSkips(fs, source, unreadable, info, seen, all, p);
      }
      if (p == source || Parent(p) in entered) && !DiskUsage.Hidden(p) && fs[p] == Dir && p !in unreadable {
        entered := entered + {p};
      }
      i := i + 1;
    }
    assert order[..i] == order;
    DiskUsage.WalkIsAll(fs, source, order);
  }

  lemma NothingGathered(fs: Tree, source: Path, unreadable: set<Path>, info: Infos)
    ensures Gathered(fs, source, unreadable, info, {}, []) && Entered(fs, source, unreadable, {}, {})
  {}

  /** The search of a tree: its walk, then the groups of what the walk found. */
  method SearchTree(fs: Tree, source: Path, unreadable: set<Path>, info: Infos, env: Env, stored: seq<Hit>)
    returns (ok: bool, results: seq<Hit>, after: seq<Hit>, ghost all: seq<Duplicates.Candidate>)
    requires WellFormed(fs)
    ensures ok <==> IsDir(fs, source)
    ensures ok ==> Gathered(fs, source, unreadable, info, Under(fs, source), all) && Reports(env, all, results)
    ensures after == if results != [] then results else stored
    ensures !ok ==> after == stored
  {
    ok, results, after, all := false, [], stored, [];
    if source !in fs || fs[source].File? { return; }
    var found := Gather(fs, source, unreadable, info);
    all := found;
    ok := true;
    results := FindDuplicates(env, found);
    after := StoreResults(stored, results);
  }

  /** A search job, left alone: it completes for a directory and fails for anything else. */
  method ProcessDuplicateFind(fs: Tree, source: Path, unreadable: set<Path>, info: Infos, env: Env, stored: seq<Hit>)
    returns (status: Status, after: seq<Hit>, ghost all: seq<Duplicates.Candidate>, ghost results: seq<Hit>)
    requires WellFormed(fs)
    ensures status in OTHER_ENDS && (status == Completed <==> IsDir(fs, source))
    ensures status == Completed ==> Gathered(fs, source, unreadable, info, Under(fs, source), all) && Reports(env, all, results)
    ensures status == Completed ==> after == if results != [] then results else stored
    ensures status == Failed ==> after == stored
  {
    hide Gathered, Reports;
    var ok, hits;
    ok, hits, after, all := SearchTree(fs, source, unreadable, info, env, stored);
    results := hits;
    status := if ok then Completed else Failed;
  }

  /**
   Two files of a tree that are compared, each the first of its inode, stable and readable, are reported under one
   number if and only if their contents are equal.
   */
  lemma TreeReportsExactly(fs: Tree, source: Path, unreadable: set<Path>, info: Infos, env: Env,
      all: seq<Duplicates.Candidate>, results: seq<Hit>, f: Duplicates.Candidate, g: Duplicates.Candidate)
    requires Gathered(fs, source, unreadable, info, Under(fs, source), all) && Reports(env, all, results) && Injective(env.hash)
    requires f in Kept(env, all) && g in Kept(env, all) && f != g
    ensures f.path in fs && g.path in fs
    ensures ReportedTogether(results, f.path, g.path) <==> fs[f.path] == fs[g.path]
  {
    KeptAreGathered(env, all, f);
    KeptAreGathered(env, all, g);
    forall a, b | a in Kept(env, all) && b in Kept(env, all) && a.path == b.path
      ensures a == b
    {
      KeptAreGathered(env, all, a);
      KeptAreGathered(env, all, b);
    }
    hide Kept, Reports, ReportedTogether, Injective;
    ReportedTogetherExactly(env, all, results, f, g);
  }

  lemma KeptAreGathered(env: Env, all: seq<Duplicates.Candidate>, f: Duplicates.Candidate)
    ensures f in Kept(env, all) ==> f in all
  {
    WhereHas(FirstLinks(all), (c: Duplicates.Candidate) => Takes(env, c), f);
    FirstLinksShorter(all);
  }
}
