/**
 The plan of a copy or move job and the queue of items the worker takes from it:
 what they say, how they are built, and that their targets keep out of each
 other's way.
 */
module TransferPlan {
  import opened FileSystem
  import opened JobStatus
  import opened Volumes
  import opened Names
  import opened TransferModel

  datatype Cause =
    | PolicyNotForMove | DirectoryNotSupported | RootOperation | DestinationInsideSource | CancelledByPolicy
    | SourceMissing | CompletedMissing | CompletedSizeMismatch | PartialIsDirectory | PartialTooLarge
    | DestinationExists | SizesDiffer | ContentsDiffer | NoFreeName | VerificationFailed | Io(errno: Errno)

  datatype Result = Done | JobPaused | AskedUser | Error(cause: Cause)

  datatype Target = Free(path: Path) | AskUser | SkipIt | Bad(cause: Cause)

  datatype CopyItem = CopyItem(id: nat, source: Path, destination: Path, temp: Path, size: nat, processed: nat, persisted: bool)

  /** Per row: progress is within the size, and complete when the row is. */
  predicate CountsFit(rows: seq<Row>) {
    forall i :: 0 <= i < |rows| ==>
      rows[i].processed <= rows[i].size && (rows[i].status == Completed ==> rows[i].processed == rows[i].size)
  }

  ghost predicate NoNewFiles(origin: Tree, fs: Tree) {
    forall p :: IsFile(fs, p) ==> p in origin && fs[p] == origin[p]
  }

  // ----- Plans -----

  /** A destination the whole job may go to: the requested one or a free sibling. */
  ghost predicate GoodRoot(g: Setting, d: Path) {
    && d != [] && Parent(d) == Parent(g.job.destination) && TEMP_DIR !in d
    && !(g.job.source <= d) && StaysOut(g, d)
  }

  ghost predicate PlanItem(g: Setting, d: Path, it: CopyItem) {
    && IsFile(g.origin, it.source) && g.job.source <= it.source && it.size == |g.origin[it.source].data|
    && it.destination == d + it.source[|g.job.source|..] && it.destination != [] && it.temp == TempFor(it.destination)
    && it.processed == 0 && !it.persisted
  }

  function ItemFor(g: Setting, d: Path, id: nat, p: Path, size: nat): CopyItem
    requires d != [] && g.job.source <= p
  {
    var target := d + p[|g.job.source|..];
    CopyItem(id, p, target, TempFor(target), size, 0, false)
  }

  lemma NoSpaceInTempDir(name: string)
    requires ' ' in name
    ensures name != TEMP_DIR
  {}

  /** A free name beside a good destination is a good destination too. */
  lemma FreeSibling(fs: Tree, source: Path, was: Path, d: Path)
    requires WellFormed(fs) && source in fs && !(source <= was) && TEMP_DIR !in was && was != []
    requires NextFree(fs, was, Some(d))
    ensures d !in fs && d != [] && TEMP_DIR !in d && Apart(source, d) && Parent(d) == Parent(was)
  {
    if was in fs {
      var n :| 1 <= n <= MAX_CANDIDATES && d == Candidate(was, n);
      CandidateShape(was, n);
      SiblingStaysApart(fs, source, was, d);
    } else if was <= source {
      AncestorIsDir(fs, was, source);
    }
  }

  lemma SiblingStaysApart(fs: Tree, source: Path, was: Path, d: Path)
    requires WellFormed(fs) && source in fs && !(source <= was) && TEMP_DIR !in was && was != []
    requires d !in fs && d != [] && Parent(d) == Parent(was) && ' ' in d[|d| - 1]
    ensures TEMP_DIR !in d && Apart(source, d)
  {
    NoSpaceInTempDir(d[|d| - 1]);
    assert d == Parent(was) + [d[|d| - 1]];
    assert forall x :: x in d ==> x in was || x == d[|d| - 1];
    if d <= source { AncestorIsDir(fs, d, source); }
    assert source <= d && source != d ==> source <= Parent(d) <= was;
  }

  lemma OutsideRoot(g: Setting, d: Path)
    requires GoodRoot(g, d)
    ensures !(g.job.source <= d)
  {}

  lemma EmptyQueue(g: Setting, fs: Tree)
    ensures Queue(g, fs, [], [], 0)
  {}

  lemma FreshQueue(g: Setting, d: Path, items: seq<CopyItem>, fs: Tree)
    requires Fit(g) && GoodRoot(g, d) && Plan(g, d, items)
    requires g.job.policy != Ask ==> forall k :: 0 <= k < |items| ==> items[k].destination !in fs
    requires NoNewFiles(g.origin, fs)
    ensures Queue(g, fs, RowsOf(items), items, 0)
    ensures DoneBytes(RowsOf(items)) == 0 && DoneItems(RowsOf(items)) == 0
  {
    hide Fit, GoodRoot, PlanItem, TempFor, ReadyItem;
    var rows := RowsOf(items);
    forall j | 0 <= j < |items|
      ensures ReadyItem(g, fs, rows, items[j])
    {
      FreshItem(g, d, items, fs, j);
    }
    assert forall i :: 0 <= i < |rows| ==> items[i].id == i;
    forall a, b | 0 <= a < |items| && 0 <= b < |items| && a != b
      ensures !(items[b].destination <= items[a].destination) && !(items[b].destination <= items[a].temp)
    {
      PlanSeparate(g, d, items, b, a);
    }
    NothingDone(rows);
  }

  /** Where nothing was at the destination, planning leaves the targets free. */
  lemma TargetsAreFree(g: Setting, d: Path, items: seq<CopyItem>, fs0: Tree, fs: Tree)
    requires Plan(g, d, items) && Under(fs0, d) == {}
    requires forall k :: 0 <= k < |items| ==> items[k].destination in fs ==> items[k].destination in fs0
    ensures forall k :: 0 <= k < |items| ==> items[k].destination !in fs
  {
    forall k | 0 <= k < |items|
      ensures items[k].destination !in fs
    {
      assert PlanItem(g, d, items[k]);
      if items[k].destination in fs0 { BelowIsUnder(fs0, d, items[k].destination); }
    }
  }

  lemma FreshItem(g: Setting, d: Path, items: seq<CopyItem>, fs: Tree, j: nat)
    requires Plan(g, d, items) && j < |items|
    requires g.job.policy != Ask ==> items[j].destination !in fs
    requires NoNewFiles(g.origin, fs)
    ensures ReadyItem(g, fs, RowsOf(items), items[j])
  {
    hide TempFor;
    assert PlanItem(g, d, items[j]);
  }

  lemma {:induction false} NothingDone(rows: seq<Row>)
    requires forall i :: 0 <= i < |rows| ==> rows[i].status != Completed
    ensures DoneBytes(rows) == 0 && DoneItems(rows) == 0
  {
    if rows != [] { NothingDone(rows[..|rows| - 1]); }
  }

  /** A plan: numbered items for different source files. */
  ghost predicate Plan(g: Setting, d: Path, items: seq<CopyItem>) {
    && (forall k :: 0 <= k < |items| ==> items[k].id == k && PlanItem(g, d, items[k]))
    && (forall j, k :: 0 <= j < k < |items| ==> items[j].source != items[k].source)
  }

  lemma PlanIsFresh(g: Setting, d: Path, items: seq<CopyItem>)
    requires Plan(g, d, items)
    ensures forall k :: 0 <= k < |items| ==> !items[k].persisted
  {}

  function RowOf(it: CopyItem): Row {
    Row(it.source, it.destination, it.temp, it.size, 0, Queued, false)
  }

  function RowsOf(items: seq<CopyItem>): (rows: seq<Row>)
    ensures |rows| == |items|
    ensures forall k :: 0 <= k < |items| ==> rows[k] == RowOf(items[k])
  {
    seq(|items|, k requires 0 <= k < |items| => RowOf(items[k]))
  }

  lemma RowsStep(items: seq<CopyItem>, i: nat)
    requires i < |items|
    ensures RowsOf(items)[..i + 1] == RowsOf(items)[..i] + [RowOf(items[i])]
    ensures Sizes(RowsOf(items)[..i + 1]) == Sizes(RowsOf(items)[..i]) + items[i].size
  {
    var rows := RowsOf(items)[..i + 1];
    assert rows[..i] == RowsOf(items)[..i];
  }

  lemma TempInjective(a: Path, b: Path)
    requires a != [] && b != []
    ensures TempFor(a) == TempFor(b) ==> a == b
  {
    var s, t := TempFor(a), TempFor(b);
    assert s[|s| - 1][..|s[|s| - 1]| - 8] == a[|a| - 1];
    assert t[|t| - 1][..|t[|t| - 1]| - 8] == b[|b| - 1];
    assert s[..|s| - 2] == Parent(a) && t[..|t| - 2] == Parent(b);
    assert a == Parent(a) + [a[|a| - 1]] && b == Parent(b) + [b[|b| - 1]];
  }

  /** On the way to a temporary file one is on the way to the destination, or past a temporary directory. */
  lemma OnTheWayToTemp(p: Path, d: Path)
    requires d != [] && p <= TempFor(d)
    ensures p <= d || TEMP_DIR in p
  {
    var k := |Parent(d)|;
    assert TempFor(d)[k] == TEMP_DIR;
    if |p| > k {
      assert p[k] == TEMP_DIR;
    } else {
      assert p <= Parent(d);
    }
  }

  lemma NotTempDir(name: string)
    ensures name + ".partial" != TEMP_DIR
  {
    var s := name + ".partial";
    assert s[|s| - 1] == 'l';
  }

  /** The rows of a plan satisfy the invariant's demands on rows. */
  lemma PlanItemIsGood(g: Setting, d: Path, it: CopyItem)
    requires Fit(g) && GoodRoot(g, d) && PlanItem(g, d, it)
    ensures GoodRow(g, RowOf(it))
    ensures TEMP_DIR !in it.destination
    ensures IsFile(g.origin, it.temp) ==> g.origin[it.temp].data <= Original(g, RowOf(it))
  {
    PartialIsPrefix(g, d, it);
    PlanTarget(g, d, it);
    TempIsBeside(it.destination);
    hide TempOf, LeftoversArePrefixes, GoodTarget, TempFor, Beside, InTempDir;
    assert TEMP_DIR !in g.job.source;
    if g.job.source <= it.temp { OnTheWayToTemp(g.job.source, it.destination); }
  }

  lemma PlanTarget(g: Setting, d: Path, it: CopyItem)
    requires Fit(g) && GoodRoot(g, d) && PlanItem(g, d, it)
    ensures GoodTarget(g, it.destination) && TEMP_DIR !in it.destination
    ensures TEMP_DIR !in g.job.source && !(g.job.source <= it.destination)
  {
    hide LeftoversArePrefixes, TempFor;
    var dst := it.destination;
    assert TEMP_DIR !in it.source;
    assert forall x :: x in dst ==> x in d || x in it.source;
    assert forall x :: x in g.job.source ==> x in it.source;
    assert TargetStaysOut(g, d, it.source);
  }

  lemma TempIsBeside(d: Path)
    requires d != []
    ensures InTempDir(TempFor(d)) && Beside(TempFor(d), d)
  {
    NotTempDir(d[|d| - 1]);
    assert Parent(TempFor(d)) == Parent(d) + [TEMP_DIR];
  }

  /** What is left over where the item's partial file goes is a prefix of the item's bytes. */
  lemma PartialIsPrefix(g: Setting, d: Path, it: CopyItem)
    requires LeftoversArePrefixes(g) && GoodRoot(g, d) && PlanItem(g, d, it)
    ensures TempOf(g, it.temp, it.source)
    ensures IsFile(g.origin, it.temp) ==> g.origin[it.temp].data <= Original(g, RowOf(it))
  {
    hide TempFor;
    assert TempOf(g, it.temp, it.source) by {
      assert it.temp == TempFor(d + it.source[|g.job.source|..]);
    }
  }

  /** The partial file of one source file is never that of another. */
  lemma OnePartialEach(g: Setting, temp: Path, p: Path, q: Path)
    requires TempOf(g, temp, p) && TempOf(g, temp, q)
    ensures p == q
  {
    hide TempFor;
    var s := g.job.source;
    var d :| d != [] && Parent(d) == Parent(g.job.destination) && temp == TempFor(d + p[|s|..]);
    var e :| e != [] && Parent(e) == Parent(g.job.destination) && temp == TempFor(e + q[|s|..]);
    TempInjective(d + p[|s|..], e + q[|s|..]);
    SameRest(d, p[|s|..], e, q[|s|..]);
    assert p == s + p[|s|..] && q == s + q[|s|..];
  }

  lemma SameRest(d: Path, a: Path, e: Path, b: Path)
    requires d != [] && e != [] && Parent(d) == Parent(e) && d + a == e + b
    ensures a == b
  {
    assert |d| == |Parent(d)| + 1 == |e|;
    assert (d + a)[|d|..] == a && (e + b)[|e|..] == b;
  }

  /** What a job leaves on disk at any moment is fit for the same job from the start. */
  lemma SoundFitsAgain(g: Setting, fs: Tree, rows: seq<Row>, cleared: set<Path>)
    requires Sound(g, fs, rows, cleared)
    ensures Fit(Setting(g.job, fs))
  {
    var again := Setting(g.job, fs);
    forall p, temp | IsFile(fs, p) && g.job.source <= p && TempOf(again, temp, p) && IsFile(fs, temp)
      ensures fs[temp].data <= fs[p].data
    {
      LeftAgain(g, fs, rows, cleared, p, temp);
    }
  }

  lemma LeftAgain(g: Setting, fs: Tree, rows: seq<Row>, cleared: set<Path>, p: Path, temp: Path)
    requires Sound(g, fs, rows, cleared) && IsFile(fs, p) && g.job.source <= p
    requires TempOf(Setting(g.job, fs), temp, p) && IsFile(fs, temp)
    ensures fs[temp].data <= fs[p].data
  {
    TempsAreInside(g, temp, p, Setting(g.job, fs));
    hide TempOf, WellFormed, OthersKept, ConflictsClear, CopiesExact, GoodTarget, Beside;
    assert p in g.origin && fs[p] == g.origin[p];
    assert Unchanged(g, fs, temp) || IsPartial(rows, temp) || IsCopy(g, rows, temp, fs[temp]);
    if IsPartial(rows, temp) {
      var i :| 0 <= i < |rows| && rows[i].temp == temp;
      assert GoodRow(g, rows[i]);
      OnePartialEach(g, temp, p, rows[i].source);
    } else {
      NoCopyInTempDir(g, rows, temp, fs[temp]);
    }
  }

  lemma NoCopyInTempDir(g: Setting, rows: seq<Row>, temp: Path, node: Node)
    requires GoodRows(g, rows) && TEMP_DIR in Parent(temp)
    ensures !IsCopy(g, rows, temp, node)
  {
    hide TempOf, Original, Beside;
    forall i | 0 <= i < |rows|
      ensures rows[i].destination != temp
    {
      assert GoodRow(g, rows[i]);
      NotThroughTempDir(g, rows[i]);
    }
  }

  lemma TempsAreInside(g: Setting, temp: Path, p: Path, again: Setting)
    requires TempOf(again, temp, p) && again.job == g.job
    ensures TempOf(g, temp, p) && TEMP_DIR in Parent(temp)
  {
    var d :| d != [] && Parent(d) == Parent(g.job.destination) && temp == TempFor(d + p[|g.job.source|..]);
    TempIsBeside(d + p[|g.job.source|..]);
    assert temp[|temp| - 2] == Parent(temp)[|temp| - 2];
  }

  lemma NotThroughTempDir(g: Setting, r: Row)
    requires GoodRow(g, r)
    ensures TEMP_DIR !in Parent(r.destination)
  {
    assert forall x :: x in Parent(r.destination) ==> x in r.destination;
  }

  /** Destinations mirror sources. */
  lemma Mirrored(g: Setting, d: Path, a: CopyItem, b: CopyItem)
    requires PlanItem(g, d, a) && PlanItem(g, d, b)
    ensures a.destination <= b.destination ==> a.source == b.source
    requires WellFormed(g.origin)
  {
    assert a.source == g.job.source + a.source[|g.job.source|..] && b.source == g.job.source + b.source[|g.job.source|..];
    assert a.destination[|d|..] == a.source[|g.job.source|..] && b.destination[|d|..] == b.source[|g.job.source|..];
    if a.destination <= b.destination {
      assert a.destination[|d|..] <= b.destination[|d|..];
      assert a.source <= b.source;
      FileIsLeaf(g.origin, a.source);
      assert b.source in Under(g.origin, a.source);
    }
  }

  lemma RowFits(g: Setting, d: Path, items: seq<CopyItem>, i: nat, fs: Tree)
    requires Fit(g) && GoodRoot(g, d) && Plan(g, d, items) && i < |items| && NoNewFiles(g.origin, fs)
    ensures GoodRow(g, RowOf(items[i]))
    ensures IsFile(fs, items[i].temp) ==> fs[items[i].temp].data <= Original(g, RowOf(items[i]))
    ensures forall k :: 0 <= k < i ==>
      RowsOf(items)[k].source != items[i].source && RowsOf(items)[k].temp != items[i].temp
  {
    PlanItemIsGood(g, d, items[i]);
    hide GoodRow, Original, LeftoversArePrefixes;
    forall k | 0 <= k < i
      ensures items[k].temp != items[i].temp
    {
      assert PlanItem(g, d, items[k]) && PlanItem(g, d, items[i]);
      TempInjective(items[k].destination, items[i].destination);
      Mirrored(g, d, items[k], items[i]);
    }
  }

  /** The targets of different items do not get in each other's way. */
  lemma PlanSeparate(g: Setting, d: Path, items: seq<CopyItem>, i: nat, j: nat)
    requires Fit(g) && GoodRoot(g, d) && Plan(g, d, items) && i < |items| && j < |items| && i != j
    ensures !(items[i].destination <= items[j].destination) && !(items[i].destination <= items[j].temp)
  {
    var a, b := items[i], items[j];
    assert PlanItem(g, d, a) && PlanItem(g, d, b) && a.source != b.source;
    PlanItemIsGood(g, d, a);
    Mirrored(g, d, a, b);
    if a.destination <= b.temp { OnTheWayToTemp(a.destination, b.destination); }
  }

  ghost predicate PlanSoFar(g: Setting, d: Path, items: seq<CopyItem>, fs: Tree, seen: seq<Path>) {
    && Plan(g, d, items)
    && (forall k :: 0 <= k < |items| ==> items[k].source in seen)
    && (forall p :: p in seen && IsFile(fs, p) ==> exists k :: 0 <= k < |items| && items[k].source == p)
  }

  ghost predicate Grows(before: Tree, after: Tree) {
    && (forall q :: q in before ==> q in after && after[q] == before[q])
    && (forall q :: q in after && q !in before ==> after[q] == Dir)
  }

  /** What has been added is a directory on the way to `d`, or one below `d` that mirrors a directory of the source. */
  ghost predicate MirrorsOnly(fs0: Tree, source: Path, d: Path, fs: Tree) {
    forall q :: q in fs && q !in fs0 ==> q <= d || (d <= q && IsDir(fs0, source + q[|d|..]))
  }

  lemma MirrorsGrow(fs0: Tree, source: Path, d: Path, before: Tree, after: Tree, p: Path)
    requires WellFormed(fs0) && source <= p && IsDir(fs0, p)
    requires Grown(before, after, d + p[|source|..]) && MirrorsOnly(fs0, source, d, before)
    ensures MirrorsOnly(fs0, source, d, after)
  {
    var rel := p[|source|..];
    forall q | q in after && q !in fs0
      ensures q <= d || (d <= q && IsDir(fs0, source + q[|d|..]))
    {
      if q !in before && !(q <= d) {
        assert q <= d + rel;
        assert d <= q && q[|d|..] <= rel;
        assert source + q[|d|..] <= source + rel == p;
        AncestorIsDir(fs0, source + q[|d|..], p);
      }
    }
  }

  lemma RootTarget(g: Setting, d: Path, p: Path)
    requires GoodRoot(g, d) && g.job.source <= p && p in g.origin
    ensures d + p[|g.job.source|..] != [] && !(g.job.source <= d + p[|g.job.source|..])
  {
    assert TargetStaysOut(g, d, p);
  }

  lemma PlanStarts(g: Setting, d: Path, fs: Tree)
    ensures PlanSoFar(g, d, [], fs, []) && Grows(fs, fs) && MirrorsOnly(fs, g.job.source, d, fs)
  {}

  lemma SingleFile(g: Setting, d: Path, fs: Tree)
    requires GoodRoot(g, d) && WellFormed(fs) && NothingNewInSource(g, fs) && IsFile(fs, g.job.source)
    ensures var it := CopyItem(0, g.job.source, d, TempFor(d), |fs[g.job.source].data|, 0, false);
      Plan(g, d, [it]) &&
      forall p :: IsFile(fs, p) && g.job.source <= p ==> exists k :: 0 <= k < 1 && [it][k].source == p
  {
    assert g.job.source[|g.job.source|..] == [] && d + [] == d;
    FileIsLeaf(fs, g.job.source);
    forall p | IsFile(fs, p) && g.job.source <= p
      ensures p == g.job.source
    {
      assert p in Under(fs, g.job.source);
    }
    var it := CopyItem(0, g.job.source, d, TempFor(d), |fs[g.job.source].data|, 0, false);
    assert [it][0].source == g.job.source;
  }

  lemma PlanSkipsDir(g: Setting, d: Path, items: seq<CopyItem>, fs: Tree, seen: seq<Path>, p: Path)
    requires PlanSoFar(g, d, items, fs, seen) && !IsFile(fs, p)
    ensures PlanSoFar(g, d, items, fs, seen + [p])
  {}

  lemma PlanSource(g: Setting, fs0: Tree, fs: Tree, p: Path)
    requires Grows(fs0, fs) && p in fs0 && g.job.source <= p && NothingNewInSource(g, fs)
    ensures p in g.origin && fs0[p] == g.origin[p]
  {}

  lemma PlanTakesFile(g: Setting, d: Path, items: seq<CopyItem>, fs: Tree, seen: seq<Path>, p: Path)
    requires PlanSoFar(g, d, items, fs, seen) && p !in seen
    requires IsFile(fs, p) && p in g.origin && g.origin[p] == fs[p] && d != [] && g.job.source <= p
    ensures PlanSoFar(g, d, items + [ItemFor(g, d, |items|, p, |fs[p].data|)], fs, seen + [p])
  {
    var it := ItemFor(g, d, |items|, p, |fs[p].data|);
    PlanGrows(g, d, items, it);
    CoverGrows(items, it, seen, fs);
  }

  lemma PlanGrows(g: Setting, d: Path, items: seq<CopyItem>, it: CopyItem)
    requires Plan(g, d, items) && PlanItem(g, d, it) && it.id == |items|
    requires forall k :: 0 <= k < |items| ==> items[k].source != it.source
    ensures Plan(g, d, items + [it])
  {}

  lemma CoverGrows(items: seq<CopyItem>, it: CopyItem, seen: seq<Path>, fs: Tree)
    requires forall p :: p in seen && IsFile(fs, p) ==> exists k :: 0 <= k < |items| && items[k].source == p
    ensures forall p :: p in seen + [it.source] && IsFile(fs, p) ==>
      exists k :: 0 <= k < |items + [it]| && (items + [it])[k].source == p
  {
    var longer := items + [it];
    forall q | q in seen + [it.source] && IsFile(fs, q)
      ensures exists k :: 0 <= k < |longer| && longer[k].source == q
    {
      if q == it.source {
        assert longer[|items|].source == q;
      } else {
        var k :| 0 <= k < |items| && items[k].source == q;
        assert longer[k].source == q;
      }
    }
  }

  lemma PlanComplete(g: Setting, d: Path, items: seq<CopyItem>, fs0: Tree, order: seq<Path>, fs: Tree)
    requires IsWalk(fs0, g.job.source, order) && PlanSoFar(g, d, items, fs0, order) && IsDir(fs0, g.job.source)
    requires Grows(fs0, fs) && NothingNewInSource(g, fs) && MirrorsOnly(fs0, g.job.source, d, fs)
    ensures Plan(g, d, items)
    ensures forall p :: IsFile(fs, p) && g.job.source <= p ==> exists k :: 0 <= k < |items| && items[k].source == p
    ensures forall k :: 0 <= k < |items| ==> items[k].source in fs0 && items[k].source != g.job.source
    ensures forall k :: 0 <= k < |items| ==> items[k].destination in fs ==> items[k].destination in fs0
  {
    hide PlanItem, MirrorsOnly;
    forall p | IsFile(fs, p) && g.job.source <= p
      ensures p in order && IsFile(fs0, p)
    {
      assert p in Under(fs0, g.job.source);
    }
    forall k | 0 <= k < |items|
      ensures items[k].source in fs0 && items[k].source != g.job.source
      ensures items[k].destination in fs ==> items[k].destination in fs0
    {
      assert PlanItem(g, d, items[k]) && items[k].source in order;
      assert items[k].source in Under(fs0, g.job.source);
      TargetIsNotMade(g, d, items[k], fs0, fs);
    }
  }

  /** Planning does not put a directory where a file is to go. */
  lemma TargetIsNotMade(g: Setting, d: Path, it: CopyItem, fs0: Tree, fs: Tree)
    requires PlanItem(g, d, it) && it.source in fs0 && IsDir(fs0, g.job.source)
    requires MirrorsOnly(fs0, g.job.source, d, fs) && Grows(fs0, fs) && NothingNewInSource(g, fs)
    ensures it.source != g.job.source
    ensures it.destination in fs ==> it.destination in fs0
  {
    assert it.destination[|d|..] == it.source[|g.job.source|..];
    assert g.job.source + it.source[|g.job.source|..] == it.source;
  }

  // ----- Room: nothing is in the way of a new plan -----

  /** No file is on the way to `t`, or at it. */
  ghost predicate Passable(fs: Tree, t: Path) {
    forall q :: IsFile(fs, q) ==> !(q <= t)
  }

  /** A directory of the source can be made below `d`, a file can be copied there. */
  ghost predicate RoomAt(fs: Tree, device: Path -> nat, source: Path, d: Path, p: Path)
    requires p in fs && source <= p && d != []
  {
    var t := d + p[|source|..];
    if fs[p] == Dir then Passable(fs, t) else Clear(fs, device, TempFor(t), t)
  }

  /** There is room below `d` for everything of the source, beside whatever is there already. */
  ghost predicate RoomFor(fs: Tree, device: Path -> nat, source: Path, d: Path) {
    d != [] && forall p :: p in fs && source <= p ==> RoomAt(fs, device, source, d, p)
  }

  /** The tree without what an overwrite of `d` removes. */
  function Without(fs: Tree, d: Path): Tree {
    map q | q in fs && !(d <= q) :: fs[q]
  }

  /**
   There is room where the job's policy sends it: to its destination, beside what is there if it is to ask about
   conflicts and after removing what is there if it is to overwrite, or to a free name. A skipped job needs none.
   */
  ghost predicate HasRoom(fs: Tree, device: Path -> nat, job: Job) {
    && job.destination != []
    && match job.policy
       case Ask => RoomFor(fs, device, job.source, job.destination)
       case Overwrite => RoomFor(Without(fs, job.destination), device, job.source, job.destination)
       case Rename => exists d :: NextFree(fs, job.destination, Some(d)) && RoomFor(fs, device, job.source, d)
       case Skip => job.destination in fs || RoomFor(fs, device, job.source, job.destination)
       case SkipIdentical =>
         if job.destination in fs then IsFile(fs, job.destination) && job.source in fs && fs[job.destination] == fs[job.source]
         else RoomFor(fs, device, job.source, job.destination)
       case CancelTransfer => false
  }

  /** Where the job goes once the conflict at its destination is resolved, there is room if and only if there was. */
  lemma RoomThere(fs0: Tree, fs: Tree, device: Path -> nat, job: Job, d: Path)
    requires WellFormed(fs0) && job.destination != [] && job.policy != CancelTransfer
    requires job.destination !in fs0 ==> d == job.destination && fs == fs0
    requires job.destination in fs0 ==>
      match job.policy
      case Ask => d == job.destination && fs == fs0
      case Overwrite => d == job.destination && Pruned(fs0, fs, d) && Under(fs, d) == {}
      case Rename => NextFree(fs0, job.destination, Some(d)) && fs == fs0
      case _ => false
    ensures RoomFor(fs, device, job.source, d) <==> HasRoom(fs0, device, job)
  {
    hide RoomFor, NextFree, WellFormed, Pruned;
    if job.policy == Overwrite {
      if job.destination !in fs0 {
        AbsentHasNothingUnder(fs0, d);
        NothingPruned(fs0, d);
      }
      WhatIsLeft(fs0, fs, d);
    }
    if job.policy == Rename {
      if job.destination !in fs0 { AbsentIsFree(fs0, d); }
      if e :| NextFree(fs0, job.destination, Some(e)) && RoomFor(fs0, device, job.source, e) {
        OneAnswer(fs0, job.destination, Some(d), Some(e));
      }
    }
  }

  /** Where there is room for a source that is there, no file is on the way. */
  lemma RoomIsReachable(fs: Tree, device: Path -> nat, source: Path, d: Path)
    requires RoomFor(fs, device, source, d) && source in fs
    ensures !FileOnPath(fs, Parent(d))
  {
    assert RoomAt(fs, device, source, d, source) && d + source[|source|..] == d;
    if fs[source] == Dir {
      assert forall i :: 0 <= i <= |Parent(d)| ==> Parent(d)[..i] <= d;
    } else {
      WayHasNoFile(fs, device, TempFor(d), d);
    }
  }

  lemma NothingPruned(fs: Tree, d: Path)
    ensures Pruned(fs, fs, d)
  {}

  lemma AbsentIsFree(fs: Tree, d: Path)
    requires d != [] && d !in fs
    ensures NextFree(fs, d, Some(d))
  {}

  lemma WhatIsLeft(fs: Tree, after: Tree, d: Path)
    requires Pruned(fs, after, d) && Under(after, d) == {}
    ensures after == Without(fs, d)
  {
    assert forall q :: q in after && d <= q ==> q in Under(after, d);
  }

  /** Neither the destination nor anything that would be in the way of it or of the temporary files is there. */
  ghost predicate FreeGround(fs: Tree, device: Path -> nat, d: Path) {
    && d != [] && d !in fs && TempFor(d) !in fs && !IsFile(fs, Parent(d) + [TEMP_DIR]) && Passable(fs, Parent(d))
    && (forall x, y {:trigger device(x), device(y)} :: Parent(d) <= x && Parent(d) <= y ==> device(x) == device(y))
  }

  /** On free ground there is room for any source. */
  lemma FreeGroundIsRoom(fs: Tree, device: Path -> nat, source: Path, d: Path)
    requires WellFormed(fs) && FreeGround(fs, device, d)
    ensures RoomFor(fs, device, source, d)
  {
    AbsentHasNothingUnder(fs, d);
    forall q | q in fs
      ensures !(d <= q)
    {
      assert d <= q ==> q in Under(fs, d);
    }
    forall p | p in fs && source <= p
      ensures RoomAt(fs, device, source, d, p)
    {
      FreeBelow(fs, device, d, p[|source|..]);
    }
  }

  lemma FreeBelow(fs: Tree, device: Path -> nat, d: Path, rel: Path)
    requires FreeGround(fs, device, d) && forall q :: q in fs ==> !(d <= q)
    ensures Passable(fs, d + rel) && Clear(fs, device, TempFor(d + rel), d + rel)
  {
    var t := d + rel;
    forall q | IsFile(fs, q)
      ensures !(q <= t)
    {
      assert q <= t && !(d <= q) ==> q <= Parent(d);
    }
    assert Parent(TempFor(t)) == Parent(t) + [TEMP_DIR];
    assert Parent(d) <= t && Parent(d) <= TempFor(t);
    if rel != [] {
      assert d <= Parent(t);
    } else {
      assert t == d;
    }
  }

  /** While only directories are added, a passable way stays passable. */
  lemma StaysPassable(fs0: Tree, fs: Tree, t: Path)
    requires Passable(fs0, t) && Grows(fs0, fs)
    ensures Passable(fs, t) && !FileOnPath(fs, t)
  {
    assert forall q :: IsFile(fs, q) ==> IsFile(fs0, q);
    assert forall i :: 0 <= i <= |t| ==> t[..i] <= t;
  }

  lemma ItemIsClear(g: Setting, d: Path, it: CopyItem, fs0: Tree, fs: Tree, device: Path -> nat)
    requires Fit(g) && GoodRoot(g, d) && PlanItem(g, d, it) && it.source in fs0 && NothingNewInSource(g, fs0)
    requires RoomFor(fs0, device, g.job.source, d) && Grows(fs0, fs) && MirrorsOnly(fs0, g.job.source, d, fs)
    requires it.destination in fs ==> it.destination in fs0
    ensures Clear(fs, device, it.temp, it.destination)
  {
    hide LeftoversArePrefixes;
    assert RoomAt(fs0, device, g.job.source, d, it.source);
    PlanTarget(g, d, it);
    TempIsNotMade(g, d, it.destination, fs0, fs);
    hide Fit, MirrorsOnly, TempFor;
    assert Clear(fs0, device, it.temp, it.destination);
    assert forall q :: IsFile(fs, q) ==> IsFile(fs0, q);
  }

  lemma OnlyThroughTempDir(d: Path, t: Path)
    requires t != [] && d <= t && d <= TempFor(t)
    ensures |d| == |t| ==> TEMP_DIR in t
  {
    var temp := TempFor(t);
    assert temp[|t| - 1] == TEMP_DIR;
    assert |d| == |t| ==> d == t && t == temp[..|t|];
  }

  /** Planning makes no temporary directories. */
  lemma TempIsNotMade(g: Setting, d: Path, t: Path, fs0: Tree, fs: Tree)
    requires Fit(g) && NothingNewInSource(g, fs0) && MirrorsOnly(fs0, g.job.source, d, fs)
    requires t != [] && d <= t && TEMP_DIR !in t
    ensures TempFor(t) in fs ==> TempFor(t) in fs0
  {
    hide LeftoversArePrefixes;
    var temp := TempFor(t);
    assert temp[|t| - 1] == TEMP_DIR && TEMP_DIR in temp;
    if d <= temp {
      var mirror := g.job.source + temp[|d|..];
      OnlyThroughTempDir(d, t);
      assert |d| < |t| ==> mirror[|g.job.source| + |t| - 1 - |d|] == TEMP_DIR;
      assert g.job.source <= mirror;
    }
  }

  /** A plan that has room can be finished. */
  lemma PlanIsClear(g: Setting, d: Path, items: seq<CopyItem>, fs0: Tree, fs: Tree, device: Path -> nat)
    requires Fit(g) && GoodRoot(g, d) && Plan(g, d, items) && NothingNewInSource(g, fs0)
    requires RoomFor(fs0, device, g.job.source, d) && Grows(fs0, fs) && MirrorsOnly(fs0, g.job.source, d, fs)
    requires forall k :: 0 <= k < |items| ==> items[k].source in fs0
    requires forall k :: 0 <= k < |items| ==> items[k].destination in fs ==> items[k].destination in fs0
    ensures CanFinish(fs, device, RowsOf(items))
  {
    hide Clear, RoomFor, Fit, GoodRoot, PlanItem, MirrorsOnly, Grows;
    forall k | 0 <= k < |items|
      ensures Clear(fs, device, items[k].temp, items[k].destination)
    {
      ItemIsClear(g, d, items[k], fs0, fs, device);
    }
    forall a, b | 0 <= a < |items| && 0 <= b < |items| && a != b
      ensures !(items[a].destination <= items[b].destination)
    {
      PlanSeparate(g, d, items, a, b);
    }
  }

  ghost predicate DirsPassable(fs: Tree, source: Path, d: Path, seen: seq<Path>) {
    forall p :: p in seen && source <= p && IsDir(fs, p) ==> Passable(fs, d + p[|source|..])
  }

  /** The directories of the source among `seen` are at their places below `d`. */
  ghost predicate DirsMadeOf(fs0: Tree, source: Path, d: Path, fs: Tree, seen: seq<Path>) {
    forall p :: p in seen && source <= p && IsDir(fs0, p) ==> IsDir(fs, d + p[|source|..])
  }

  /** Every directory of the source, as it was in `fs0`, is at its place below `d`. */
  ghost predicate DirsMade(fs0: Tree, source: Path, d: Path, fs: Tree) {
    forall p :: source <= p && IsDir(fs0, p) ==> IsDir(fs, d + p[|source|..])
  }

  /** No directory has gone but of the source and of what is temporary. */
  ghost predicate DirsKept(source: Path, before: Tree, after: Tree) {
    forall q :: IsDir(before, q) && TEMP_DIR !in q && !(source <= q) ==> IsDir(after, q)
  }

  lemma DirsMadeStarts(fs0: Tree, source: Path, d: Path)
    ensures DirsMadeOf(fs0, source, d, fs0, [])
    ensures IsFile(fs0, source) && WellFormed(fs0) ==> DirsMade(fs0, source, d, fs0)
  {
    if IsFile(fs0, source) && WellFormed(fs0) {
      FileIsLeaf(fs0, source);
      assert forall p :: source <= p && IsDir(fs0, p) ==> p in Under(fs0, source);
    }
  }

  lemma OneMoreMade(fs0: Tree, source: Path, d: Path, before: Tree, after: Tree, seen: seq<Path>, p: Path)
    requires DirsMadeOf(fs0, source, d, before, seen) && Grows(before, after)
    requires source <= p && (IsDir(fs0, p) ==> IsDir(after, d + p[|source|..]))
    ensures DirsMadeOf(fs0, source, d, after, seen + [p])
  {}

  lemma AllMade(fs0: Tree, source: Path, d: Path, fs: Tree, order: seq<Path>)
    requires DirsMadeOf(fs0, source, d, fs, order) && IsWalk(fs0, source, order)
    ensures DirsMade(fs0, source, d, fs)
  {
    forall p | source <= p && IsDir(fs0, p)
      ensures p in order
    {
      assert p in Under(fs0, source);
    }
  }

  /** What has been made for the source's directories is not among what a turn may remove. */
  lemma MadeStays(g: Setting, fs0: Tree, d: Path, before: Tree, after: Tree)
    requires Fit(g) && GoodRoot(g, d) && NothingNewInSource(g, fs0)
    requires DirsMade(fs0, g.job.source, d, before) && DirsKept(g.job.source, before, after)
    ensures DirsMade(fs0, g.job.source, d, after)
  {
    forall p | g.job.source <= p && IsDir(fs0, p)
      ensures IsDir(after, d + p[|g.job.source|..])
    {
      assert TargetStaysOut(g, d, p) && TEMP_DIR !in p;
      var t := d + p[|g.job.source|..];
      assert TEMP_DIR !in t;
    }
  }

  lemma WorkedKeepsDirs(source: Path, before: Tree, after: Tree, temp: Path, destination: Path)
    requires Worked(before, after, temp, destination) && Beside(temp, destination)
    ensures DirsKept(source, before, after)
  {
    assert Parent(temp)[|Parent(temp)| - 1] == TEMP_DIR;
  }

  lemma DirsKeptSame(source: Path, fs: Tree)
    ensures DirsKept(source, fs, fs)
  {}

  lemma DirsKeptTransitive(source: Path, a: Tree, b: Tree, c: Tree)
    requires DirsKept(source, a, b) && DirsKept(source, b, c)
    ensures DirsKept(source, a, c)
  {}

  lemma PrunedKeepsDirs(source: Path, before: Tree, after: Tree)
    requires Pruned(before, after, source)
    ensures DirsKept(source, before, after)
  {}

  lemma OneMoreDir(fs: Tree, source: Path, d: Path, seen: seq<Path>, p: Path)
    requires DirsPassable(fs, source, d, seen) && source <= p && (IsDir(fs, p) ==> Passable(fs, d + p[|source|..]))
    ensures DirsPassable(fs, source, d, seen + [p])
  {
    hide Passable;
  }

  /** What has been made had no file in its way. */
  lemma MadeWasPassable(fs0: Tree, fs: Tree, t: Path)
    requires WellFormed(fs) && Grows(fs0, fs) && IsDir(fs, t)
    ensures Passable(fs0, t)
  {
    forall q | IsFile(fs0, q)
      ensures !(q <= t)
    {
      if q <= t { AncestorIsDir(fs, q, t); }
    }
  }

  /** Only where there is room does planning end with a plan that can be finished. */
  lemma RoomWasThere(g: Setting, d: Path, items: seq<CopyItem>, fs0: Tree, order: seq<Path>, fs: Tree, device: Path -> nat)
    requires IsWalk(fs0, g.job.source, order) && PlanSoFar(g, d, items, fs0, order) && Grows(fs0, fs) && d != []
    requires DirsPassable(fs0, g.job.source, d, order) && CanFinish(fs, device, RowsOf(items))
    ensures RoomFor(fs0, device, g.job.source, d)
  {
    hide Clear, Grows, Passable, PlanItem;
    forall p | p in fs0 && g.job.source <= p
      ensures RoomAt(fs0, device, g.job.source, d, p)
    {
      assert p in Under(fs0, g.job.source);
      assert p in order;
      if fs0[p].File? {
        var k :| 0 <= k < |items| && items[k].source == p;
        assert Clear(fs, device, RowsOf(items)[k].temp, RowsOf(items)[k].destination);
        ItemGoes(g, d, items[k]);
        ClearBefore(fs0, fs, device, items[k].temp, items[k].destination);
      }
    }
  }

  lemma ItemGoes(g: Setting, d: Path, it: CopyItem)
    requires PlanItem(g, d, it)
    ensures g.job.source <= it.source && it.destination == d + it.source[|g.job.source|..]
    ensures it.destination != [] && it.temp == TempFor(it.destination)
  {}

  lemma ClearBefore(fs0: Tree, fs: Tree, device: Path -> nat, temp: Path, destination: Path)
    requires Grows(fs0, fs) && Clear(fs, device, temp, destination)
    ensures Clear(fs0, device, temp, destination)
  {
    assert forall q :: IsFile(fs0, q) ==> IsFile(fs, q);
  }

  /** The same of a single file. */
  lemma SingleRoom(g: Setting, d: Path, it: CopyItem, fs: Tree, device: Path -> nat)
    requires WellFormed(fs) && IsFile(fs, g.job.source) && d != [] && PlanItem(g, d, it) && it.source == g.job.source
    requires CanFinish(fs, device, RowsOf([it]))
    ensures RoomFor(fs, device, g.job.source, d)
  {
    hide Clear;
    FileIsLeaf(fs, g.job.source);
    assert Clear(fs, device, RowsOf([it])[0].temp, RowsOf([it])[0].destination);
    forall p | p in fs && g.job.source <= p
      ensures RoomAt(fs, device, g.job.source, d, p)
    {
      assert p in Under(fs, g.job.source);
      assert p == g.job.source;
    }
  }

  /** Only row `i` changed, in its status and progress, and it did not become completed. */
  ghost predicate OnlyRow(before: seq<Row>, after: seq<Row>, i: nat) {
    && i < |before| == |after|
    && (forall j :: 0 <= j < |before| && j != i ==> after[j] == before[j])
    && after[i] == before[i].(status := after[i].status, processed := after[i].processed)
    && (before[i].status != Completed ==> after[i].status != Completed)
  }

  /** Only the bytes of the file at `temp` changed. */
  ghost predicate OnlyTemp(before: Tree, after: Tree, temp: Path) {
    && before.Keys == after.Keys && (forall p :: p in after && p != temp ==> after[p] == before[p])
    && (IsDir(before, temp) ==> IsDir(after, temp))
  }

  lemma OnlyTempSame(fs: Tree, temp: Path)
    ensures OnlyTemp(fs, fs, temp)
  {}

  lemma OnlyTempTransitive(a: Tree, b: Tree, c: Tree, temp: Path)
    requires OnlyTemp(a, b, temp) && OnlyTemp(b, c, temp)
    ensures OnlyTemp(a, c, temp)
  {}

  lemma OnlyRowSame(rows: seq<Row>, i: nat)
    requires i < |rows|
    ensures OnlyRow(rows, rows, i)
  {}

  lemma OnlyRowSameTargets(before: seq<Row>, after: seq<Row>, i: nat)
    requires OnlyRow(before, after, i) && before[i].status != Completed
    ensures SameTargets(before, after)
  {}

  lemma OnlyRowTransitive(a: seq<Row>, b: seq<Row>, c: seq<Row>, i: nat)
    requires OnlyRow(a, b, i) && OnlyRow(b, c, i)
    ensures OnlyRow(a, c, i)
  {}

  lemma OnlyRowCounts(before: seq<Row>, after: seq<Row>, i: nat)
    requires OnlyRow(before, after, i) && before[i].status != Completed
    ensures |after| == |before|
    ensures Sizes(after) == Sizes(before) && DoneBytes(after) == DoneBytes(before) && DoneItems(after) == DoneItems(before)
  {
    assert after == before[i := after[i]];
    CountsUpdate(before, i, after[i]);
  }

  lemma ClearedGrowsSound(g: Setting, fs: Tree, rows: seq<Row>, cleared: set<Path>, d: Path)
    requires Sound(g, fs, rows, cleared)
    ensures Sound(g, fs, rows, cleared + {d})
  {
    assert forall k :: k in cleared ==> k in cleared + {d};
  }

  /** A loaded item and its stored row agree. */
  ghost predicate RowMatches(rows: seq<Row>, item: CopyItem) {
    && item.id < |rows| && item.processed <= item.size
    && rows[item.id] == rows[item.id].(source := item.source, destination := item.destination, temp := item.temp, size := item.size)
  }

  /** An item the copy loop may take up next. A freshly planned one is checked against the conflict policy first. */
  ghost predicate ReadyItem(g: Setting, fs: Tree, rows: seq<Row>, item: CopyItem) {
    && RowMatches(rows, item) && rows[item.id].status != Completed && NoConflict(rows)
    && (!item.persisted ==>
      && item.processed == 0 && item.destination != [] && item.temp == TempFor(item.destination)
      && (g.job.policy != Ask ==> item.destination !in fs)
      && (IsFile(fs, item.destination) ==> Unchanged(g, fs, item.destination))
      && forall k :: 0 <= k < |rows| && CopiedRow(rows[k]) ==> !(item.destination <= rows[k].destination))
  }

  /** The items still to copy, from the `k`-th on: all rows but the completed ones, each once, out of each other's way if fresh. */
  ghost predicate Queue(g: Setting, fs: Tree, rows: seq<Row>, pending: seq<CopyItem>, k: nat) {
    && (forall j :: k <= j < |pending| ==> ReadyItem(g, fs, rows, pending[j]))
    && (forall a, b :: k <= a < b < |pending| ==> pending[a].id != pending[b].id)
    && (forall i :: 0 <= i < |rows| ==> rows[i].status == Completed || exists j :: k <= j < |pending| && pending[j].id == i)
    && (forall a, b :: k <= a < |pending| && k <= b < |pending| && a != b && !pending[b].persisted ==>
          !(pending[b].destination <= pending[a].destination) && !(pending[b].destination <= pending[a].temp))
  }

  /** The part of the queue that the first `n` stored rows give. */
  ghost predicate QueueSoFar(rows: seq<Row>, pending: seq<CopyItem>, n: nat) {
    && n <= |rows|
    && (forall j :: 0 <= j < |pending| ==>
          RowMatches(rows, pending[j]) && pending[j].persisted && pending[j].id < n && rows[pending[j].id].status == Queued)
    && (forall a, b :: 0 <= a < b < |pending| ==> pending[a].id != pending[b].id)
    && (forall i :: 0 <= i < n ==> rows[i].status != Conflict)
    && (forall i :: 0 <= i < n ==> rows[i].status == Completed || exists j :: 0 <= j < |pending| && pending[j].id == i)
  }

  lemma QueueDone(g: Setting, fs: Tree, rows: seq<Row>, pending: seq<CopyItem>)
    requires QueueSoFar(rows, pending, |rows|)
    ensures Queue(g, fs, rows, pending, 0)
  {}

  lemma QueueSkips(before: seq<Row>, rows: seq<Row>, pending: seq<CopyItem>, n: nat)
    requires n < |rows| == |before| && (forall i :: 0 <= i < |rows| && i != n ==> rows[i] == before[i])
    requires QueueSoFar(before, pending, n) && rows[n].status == Completed
    ensures QueueSoFar(rows, pending, n + 1)
  {}

  lemma QueueTakes(before: seq<Row>, rows: seq<Row>, pending: seq<CopyItem>, n: nat, item: CopyItem)
    requires n < |rows| == |before| && (forall i :: 0 <= i < |rows| && i != n ==> rows[i] == before[i])
    requires QueueSoFar(before, pending, n) && rows[n].status == Queued
    requires RowMatches(rows, item) && item.id == n && item.persisted
    ensures QueueSoFar(rows, pending + [item], n + 1)
  {
    var longer := pending + [item];
    assert longer[|pending|] == item;
    forall i | 0 <= i < n + 1
      ensures rows[i].status != Conflict && (rows[i].status == Completed || exists j :: 0 <= j < |longer| && longer[j].id == i)
    {
      if i < n && rows[i].status != Completed {
        var j :| 0 <= j < |pending| && pending[j].id == i;
        assert longer[j].id == i;
      }
    }
  }

  /** After one item is copied and marked, the rest of the queue is as good as before. */
  lemma QueueMoves(g: Setting, fs0: Tree, rows0: seq<Row>, fs: Tree, rows: seq<Row>, pending: seq<CopyItem>, k: nat)
    requires k < |pending| && Queue(g, fs0, rows0, pending, k)
    requires Worked(fs0, fs, pending[k].temp, pending[k].destination)
    requires pending[k].id < |rows0| == |rows| && NoConflict(rows)
    requires forall i :: 0 <= i < |rows| && i != pending[k].id ==> rows[i] == rows0[i]
    requires rows[pending[k].id].destination == pending[k].destination && rows[pending[k].id].status == Completed
    ensures Queue(g, fs, rows, pending, k + 1)
  {
    forall j | k < j < |pending|
      ensures ReadyItem(g, fs, rows, pending[j])
    {
      assert ReadyItem(g, fs0, rows0, pending[j]) && pending[j].id != pending[k].id;
    }
    forall i | 0 <= i < |rows| && rows[i].status != Completed
      ensures exists j :: k + 1 <= j < |pending| && pending[j].id == i
    {
      var j :| k <= j < |pending| && pending[j].id == i;
      assert j != k;
    }
  }

  lemma QueueEnds(g: Setting, fs: Tree, rows: seq<Row>, pending: seq<CopyItem>)
    requires Queue(g, fs, rows, pending, |pending|)
    ensures forall i :: 0 <= i < |rows| ==> rows[i].status == Completed
    ensures DoneBytes(rows) == Sizes(rows) && DoneItems(rows) == |rows|
  {
    CountsWhenAllDone(rows);
  }

  lemma CountsStep(before: seq<Row>, rows: seq<Row>, n: nat)
    requires n < |rows| == |before| && (forall i :: 0 <= i < |rows| && i != n ==> rows[i] == before[i])
    ensures Sizes(rows[..n + 1]) == Sizes(before[..n]) + rows[n].size
    ensures DoneBytes(rows[..n + 1]) == DoneBytes(before[..n]) + (if rows[n].status == Completed then rows[n].size else 0)
    ensures DoneItems(rows[..n + 1]) == DoneItems(before[..n]) + (if rows[n].status == Completed then 1 else 0)
  {
    assert rows[..n + 1][..n] == rows[..n] == before[..n];
  }

  /** Every row is done or queued. */
  predicate Waiting(rows: seq<Row>) {
    forall i :: 0 <= i < |rows| ==> rows[i].status in {Queued, Completed}
  }

  /** Every row but row `i` is done or queued. */
  predicate WaitingBut(rows: seq<Row>, i: nat) {
    i < |rows| && forall k :: 0 <= k < |rows| && k != i ==> rows[k].status in {Queued, Completed}
  }

  lemma OnlyOneWorked(before: seq<Row>, after: seq<Row>, i: nat)
    requires Waiting(before) && OnlyRow(before, after, i)
    ensures WaitingBut(after, i)
  {}

  predicate NoConflict(rows: seq<Row>) {
    forall i :: 0 <= i < |rows| ==> rows[i].status != Conflict
  }
}
