/**
 Copy and move jobs: the job, its persisted item rows, and what must hold of the
 rows and the disk at every moment of every run.
 */
module TransferModel {
  import opened FileSystem
  import opened JobStatus
  import opened Names

  datatype Policy = Ask | Skip | SkipIdentical | Overwrite | Rename | CancelTransfer
  datatype Resolution = ChooseSkip | ChooseOverwrite | ChooseRename

  /** The user's answers to the conflicts of a job, by row, and for the rows without one. */
  datatype Answers = Answers(byRow: map<nat, Resolution>, others: Option<Resolution>) {
    function For(i: nat): Option<Resolution> {
      if i in byRow then Some(byRow[i]) else others
    }
  }

  /** What may happen to a job between two turns of the worker, and a turn of the worker. */
  datatype Event = Start | Turn | Pause | Resume | CancelIt | Resolve(answers: Answers) | RetryRow(row: nat)

  datatype Job = Job(isMove: bool, policy: Policy, source: Path, destination: Path)

  /** One persisted item: a file to copy. `skipped` is the user's "skip" resolution. */
  datatype Row = Row(source: Path, destination: Path, temp: Path, size: nat, processed: nat, status: Status, skipped: bool)

  /** A job and the tree as it was when the job was created. */
  datatype Setting = Setting(job: Job, origin: Tree)

  function TempFor(destination: Path): Path
    requires destination != []
  {
    Parent(destination) + [TEMP_DIR, destination[|destination| - 1] + ".partial"]
  }

  predicate InTempDir(p: Path) {
    |p| >= 2 && p[|p| - 2] == TEMP_DIR
  }

  /**
   What is assumed of a job: a job that overwrites does not go to a directory above its source, and one that asks goes
   to one only if none of its targets meets its source; nothing in the source or on the way to the destination is called
   `.volum-tmp`; and a partial file that is left over in the job's own way is a prefix of what the job would put there.
   */
  ghost predicate Fit(g: Setting) {
    && WellFormed(g.origin) && g.job.source != [] && g.job.destination != []
    && (g.job.destination <= g.job.source ==>
         g.job.policy != Overwrite && (g.job.policy == Ask ==> StaysOut(g, g.job.destination)))
    && TEMP_DIR !in g.job.destination
    && (forall p :: p in g.origin && g.job.source <= p ==> TEMP_DIR !in p)
    && LeftoversArePrefixes(g)
  }

  /** No entry of the source is put inside the source when it goes to `d`, and no file where the source leads through. */
  ghost predicate StaysOut(g: Setting, d: Path) {
    forall p :: p in g.origin && g.job.source <= p ==> TargetStaysOut(g, d, p)
  }

  ghost predicate TargetStaysOut(g: Setting, d: Path, p: Path)
    requires p in g.origin && g.job.source <= p
  {
    var t := d + p[|g.job.source|..];
    !(g.job.source <= t) && (g.origin[p].File? ==> !(t <= g.job.source))
  }

  lemma ApartStaysOut(g: Setting, d: Path)
    requires Apart(g.job.source, d)
    ensures StaysOut(g, d)
  {
    forall p | p in g.origin && g.job.source <= p
      ensures TargetStaysOut(g, d, p)
    {
      assert d <= d + p[|g.job.source|..];
    }
  }

  ghost predicate LeftoversArePrefixes(g: Setting) {
    forall p, temp :: IsFile(g.origin, p) && g.job.source <= p && TempOf(g, temp, p) && IsFile(g.origin, temp) ==>
      g.origin[temp].data <= g.origin[p].data
  }

  /** A place for the partial file of `p`, when the job goes to its destination or to a sibling of it. */
  ghost predicate TempOf(g: Setting, temp: Path, p: Path) {
    g.job.source <= p && exists d :: d != [] && Parent(d) == Parent(g.job.destination) && temp == TempFor(d + p[|g.job.source|..])
  }

  /** How much of a copy the partial file holds. */
  function OnDisk(fs: Tree, temp: Path): nat {
    if temp in fs && fs[temp].File? then |fs[temp].data| else 0
  }

  /** The directory has gone, or there is something in it. */
  ghost predicate Tidy(fs: Tree, d: Path) {
    d in fs ==> Under(fs, d) != {d}
  }

  /** The bytes a row is to copy. */
  function Original(g: Setting, r: Row): Bytes {
    if IsFile(g.origin, r.source) then g.origin[r.source].data else []
  }

  predicate CopiedRow(r: Row) {
    r.status == Completed && !r.skipped
  }

  predicate Finished(rows: seq<Row>) {
    rows != [] && forall i :: 0 <= i < |rows| ==> rows[i].status == Completed
  }

  // ----- The invariant, clause by clause -----

  ghost predicate GoodTarget(g: Setting, d: Path) {
    d != [] && TEMP_DIR !in d && Apart(g.job.source, d)
  }

  ghost predicate GoodRow(g: Setting, r: Row) {
    && IsFile(g.origin, r.source) && g.job.source <= r.source && r.size == |Original(g, r)|
    && InTempDir(r.temp) && !(g.job.source <= r.temp) && TempOf(g, r.temp, r.source)
    && GoodTarget(g, r.destination) && Beside(r.temp, r.destination)
  }

  /** The temporary file lies in the temporary directory beside the destination. */
  predicate Beside(temp: Path, destination: Path) {
    && destination != [] && temp != [] && Parent(temp) == Parent(destination) + [TEMP_DIR]
    && temp[|temp| - 1] != TEMP_DIR
  }

  ghost predicate GoodRows(g: Setting, rows: seq<Row>) {
    && (forall i :: 0 <= i < |rows| ==> GoodRow(g, rows[i]))
    && (forall i, j :: 0 <= i < j < |rows| ==> rows[i].source != rows[j].source && rows[i].temp != rows[j].temp)
  }

  /** Every file of the source is still there, whole. */
  ghost predicate SourceKept(g: Setting, fs: Tree) {
    forall p :: IsFile(g.origin, p) && g.job.source <= p ==> p in fs && fs[p] == g.origin[p]
  }

  ghost predicate NothingNewInSource(g: Setting, fs: Tree) {
    forall p :: p in fs && g.job.source <= p ==> p in g.origin && fs[p] == g.origin[p]
  }

  /** A row marked completed, other than by a user's skip, has an exact copy at its stored destination. */
  ghost predicate CopiesExact(g: Setting, fs: Tree, rows: seq<Row>) {
    forall i :: 0 <= i < |rows| && CopiedRow(rows[i]) ==>
      rows[i].destination in fs && fs[rows[i].destination] == File(Original(g, rows[i]))
  }

  /** Whatever a row's temporary file holds is a prefix of the bytes to copy. */
  ghost predicate TempsArePrefixes(g: Setting, fs: Tree, rows: seq<Row>) {
    forall i :: 0 <= i < |rows| && IsFile(fs, rows[i].temp) ==> fs[rows[i].temp].data <= Original(g, rows[i])
  }

  /**
   Files outside the source are as they were, except below a path that a policy or a user chose to overwrite, and
   except a leftover partial file that a row takes up.
   */
  ghost predicate OthersKept(g: Setting, fs: Tree, rows: seq<Row>, cleared: set<Path>) {
    forall p :: IsFile(g.origin, p) && !(g.job.source <= p) && (forall c :: c in cleared ==> !(c <= p)) && !IsPartial(rows, p) ==>
      p in fs && fs[p] == g.origin[p]
  }

  ghost predicate IsPartial(rows: seq<Row>, p: Path) {
    exists i :: 0 <= i < |rows| && rows[i].temp == p
  }

  /** `node` at `p` has exactly the bytes of a row whose stored destination is `p`; a row in conflict was never copied. */
  ghost predicate IsCopy(g: Setting, rows: seq<Row>, p: Path, node: Node) {
    exists i :: 0 <= i < |rows| && rows[i].destination == p && rows[i].status != Conflict && node == File(Original(g, rows[i]))
  }

  ghost predicate Unchanged(g: Setting, fs: Tree, p: Path)
    requires p in fs
  {
    p in g.origin && fs[p] == g.origin[p]
  }

  /** Whatever file there is, at any moment, is as it was, or is the partial file of a row, or is the whole copy of one. */
  ghost predicate FilesAccounted(g: Setting, fs: Tree, rows: seq<Row>) {
    forall p :: IsFile(fs, p) ==> Unchanged(g, fs, p) || IsPartial(rows, p) || IsCopy(g, rows, p, fs[p])
  }

  /** Overwriting a conflicting destination cannot hit a finished copy. */
  ghost predicate ConflictsClear(rows: seq<Row>) {
    forall c, i :: 0 <= c < |rows| && 0 <= i < |rows| && rows[c].status == Conflict && CopiedRow(rows[i]) ==>
      !(rows[c].destination <= rows[i].destination)
  }

  ghost predicate Sound(g: Setting, fs: Tree, rows: seq<Row>, cleared: set<Path>) {
    && Fit(g) && WellFormed(fs) && GoodRows(g, rows)
    && ((g.job.isMove && Finished(rows)) || SourceKept(g, fs))
    && NothingNewInSource(g, fs)
    && CopiesExact(g, fs, rows)
    && TempsArePrefixes(g, fs, rows)
    && OthersKept(g, fs, rows, cleared)
    && ConflictsClear(rows)
    && FilesAccounted(g, fs, rows)
  }

  // ----- What the invariant gives -----

  /** At every moment, each planned file that the user did not skip has its full bytes at its source or an exact copy at its stored destination. */
  lemma NothingIsLost(g: Setting, fs: Tree, rows: seq<Row>, cleared: set<Path>, i: nat)
    requires Sound(g, fs, rows, cleared) && i < |rows| && !(rows[i].status == Completed && rows[i].skipped)
    ensures (rows[i].source in fs && fs[rows[i].source] == g.origin[rows[i].source]) ||
            (rows[i].destination in fs && fs[rows[i].destination] == g.origin[rows[i].source])
  {
    assert GoodRow(g, rows[i]);
  }

  /** A file of the source is whole where it was, or it has a row with an exact copy. */
  ghost predicate Safe(g: Setting, fs: Tree, rows: seq<Row>, p: Path)
    requires p in g.origin
  {
    || (p in fs && fs[p] == g.origin[p])
    || (exists i :: 0 <= i < |rows| && CopiedRow(rows[i]) && rows[i].source == p
         && rows[i].destination in fs && fs[rows[i].destination] == g.origin[p])
  }

  lemma RowIsSafe(g: Setting, fs: Tree, rows: seq<Row>, cleared: set<Path>, i: nat)
    requires Sound(g, fs, rows, cleared) && i < |rows| && !rows[i].skipped
    ensures IsFile(g.origin, rows[i].source) && Safe(g, fs, rows, rows[i].source)
  {
    NothingIsLost(g, fs, rows, cleared, i);
    assert GoodRow(g, rows[i]);
    hide Fit, WellFormed, FilesAccounted, OthersKept, GoodRow;
    assert rows[i].status == Completed ==> CopiedRow(rows[i]);
  }

  /**
   What a completed move leaves of a file of its source: a copy, if and only if the file has a row and the user did
   not answer "skip" for it. A plan of which only the first rows were stored is taken for the whole plan.
   */
  lemma CompletedMoveKeepsExactlyItsRows(g: Setting, fs: Tree, rows: seq<Row>, cleared: set<Path>, p: Path)
    requires Sound(g, fs, rows, cleared) && Finished(rows) && Under(fs, g.job.source) == {}
    requires IsFile(g.origin, p) && g.job.source <= p
    ensures Safe(g, fs, rows, p) <==> exists i :: 0 <= i < |rows| && rows[i].source == p && !rows[i].skipped
  {
    assert p !in Under(fs, g.job.source);
    if i :| 0 <= i < |rows| && rows[i].source == p && !rows[i].skipped {
      assert CopiedRow(rows[i]) && GoodRow(g, rows[i]);
    }
  }

  /** Until all rows are done nothing of the source is missing, planned or not. */
  lemma UnfinishedKeepsEverything(g: Setting, fs: Tree, rows: seq<Row>, cleared: set<Path>, p: Path)
    requires Sound(g, fs, rows, cleared) && !(g.job.isMove && Finished(rows))
    requires IsFile(g.origin, p) && g.job.source <= p
    ensures p in fs && fs[p] == g.origin[p] && Safe(g, fs, rows, p)
  {}

  // ----- What is on disk stays accounted for -----

  /** Fewer files. */
  lemma FewerFilesAccounted(g: Setting, fs: Tree, after: Tree, rows: seq<Row>)
    requires FilesAccounted(g, fs, rows) && forall p :: IsFile(after, p) ==> IsFile(fs, p) && after[p] == fs[p]
    ensures FilesAccounted(g, after, rows)
  {
    hide IsPartial, IsCopy;
    forall p | IsFile(after, p)
      ensures Unchanged(g, after, p) || IsPartial(rows, p) || IsCopy(g, rows, p, after[p])
    {
      assert Unchanged(g, fs, p) || IsPartial(rows, p) || IsCopy(g, rows, p, fs[p]);
    }
  }

  /** A partial file written. */
  lemma WriteAccounted(g: Setting, fs: Tree, rows: seq<Row>, i: nat, data: Bytes)
    requires FilesAccounted(g, fs, rows) && i < |rows|
    ensures FilesAccounted(g, fs[rows[i].temp := File(data)], rows)
  {
    hide IsCopy, Unchanged;
    var after := fs[rows[i].temp := File(data)];
    assert IsPartial(rows, rows[i].temp);
    forall p | IsFile(after, p)
      ensures Unchanged(g, after, p) || IsPartial(rows, p) || IsCopy(g, rows, p, after[p])
    {
      if p != rows[i].temp {
        StillUnchanged(g, fs, after, p);
        assert Unchanged(g, fs, p) || IsPartial(rows, p) || IsCopy(g, rows, p, fs[p]);
      }
    }
  }

  lemma StillUnchanged(g: Setting, fs: Tree, after: Tree, p: Path)
    requires p in fs && p in after && after[p] == fs[p]
    ensures Unchanged(g, fs, p) ==> Unchanged(g, after, p)
  {}

  /** A whole partial file renamed. */
  lemma RenameAccounted(g: Setting, fs: Tree, after: Tree, rows: seq<Row>, i: nat)
    requires FilesAccounted(g, fs, rows) && i < |rows| && rows[i].status != Conflict
    requires rows[i].temp in fs && fs[rows[i].temp] == File(Original(g, rows[i]))
    requires after == (fs - {rows[i].temp})[rows[i].destination := fs[rows[i].temp]]
    ensures FilesAccounted(g, after, rows)
  {
    hide IsPartial, Unchanged, Original;
    assert IsCopy(g, rows, rows[i].destination, after[rows[i].destination]);
    hide IsCopy;
    forall p | IsFile(after, p)
      ensures Unchanged(g, after, p) || IsPartial(rows, p) || IsCopy(g, rows, p, after[p])
    {
      if p != rows[i].destination {
        StillUnchanged(g, fs, after, p);
        assert Unchanged(g, fs, p) || IsPartial(rows, p) || IsCopy(g, rows, p, fs[p]);
      }
    }
  }

  /** The same row, for all that is on disk: its partial file is the same, and what it may have copied is. */
  ghost predicate SameCopy(was: Row, now: Row) {
    && now.temp == was.temp
    && (was.status != Conflict ==> now.source == was.source && now.destination == was.destination && now.status != Conflict)
  }

  ghost predicate AtLeast(rows: seq<Row>, after: seq<Row>) {
    |rows| <= |after| && forall i :: 0 <= i < |rows| ==> SameCopy(rows[i], after[i])
  }

  lemma RowsAccounted(g: Setting, fs: Tree, rows: seq<Row>, after: seq<Row>, cleared: set<Path>)
    requires AtLeast(rows, after)
    ensures FilesAccounted(g, fs, rows) ==> FilesAccounted(g, fs, after)
    ensures OthersKept(g, fs, rows, cleared) ==> OthersKept(g, fs, after, cleared)
  {
    forall p
      ensures IsPartial(rows, p) ==> IsPartial(after, p)
      ensures p in fs && IsCopy(g, rows, p, fs[p]) ==> IsCopy(g, after, p, fs[p])
    {
      MorePartials(rows, after, p);
      if p in fs { MoreCopies(g, rows, after, p, fs[p]); }
    }
    hide IsPartial, IsCopy, Unchanged, AtLeast;
  }

  lemma MorePartials(rows: seq<Row>, after: seq<Row>, p: Path)
    requires AtLeast(rows, after)
    ensures IsPartial(rows, p) ==> IsPartial(after, p)
  {
    if i :| 0 <= i < |rows| && rows[i].temp == p {
      assert SameCopy(rows[i], after[i]);
      assert after[i].temp == p;
    }
  }

  lemma MoreCopies(g: Setting, rows: seq<Row>, after: seq<Row>, p: Path, node: Node)
    requires AtLeast(rows, after)
    ensures IsCopy(g, rows, p, node) ==> IsCopy(g, after, p, node)
  {
    hide Original;
    if i :| 0 <= i < |rows| && rows[i].destination == p && rows[i].status != Conflict && node == File(Original(g, rows[i])) {
      assert SameCopy(rows[i], after[i]);
      SameOriginal(g, rows[i], after[i]);
      assert after[i].destination == p;
    }
  }

  /** A row comes to be in conflict; what is at its destination was there from the start. */
  lemma ConflictAccounted(g: Setting, fs: Tree, rows: seq<Row>, i: nat, r: Row)
    requires FilesAccounted(g, fs, rows) && i < |rows| && r.temp == rows[i].temp
    requires IsFile(fs, rows[i].destination) ==> Unchanged(g, fs, rows[i].destination)
    ensures FilesAccounted(g, fs, rows[i := r])
  {
    var after := rows[i := r];
    forall p | IsFile(fs, p)
      ensures IsPartial(rows, p) ==> IsPartial(after, p)
      ensures IsCopy(g, rows, p, fs[p]) && p != rows[i].destination ==> IsCopy(g, after, p, fs[p])
    {
      PartialStays(rows, i, r, p);
      if p != rows[i].destination { CopyStays(g, rows, i, r, p, fs[p]); }
    }
    hide Unchanged, Original, IsPartial, IsCopy;
  }

  lemma PartialStays(rows: seq<Row>, i: nat, r: Row, p: Path)
    requires i < |rows| && r.temp == rows[i].temp
    ensures IsPartial(rows, p) ==> IsPartial(rows[i := r], p)
  {
    if k :| 0 <= k < |rows| && rows[k].temp == p { assert rows[i := r][k].temp == p; }
  }

  lemma CopyStays(g: Setting, rows: seq<Row>, i: nat, r: Row, p: Path, node: Node)
    requires i < |rows| && p != rows[i].destination
    ensures IsCopy(g, rows, p, node) ==> IsCopy(g, rows[i := r], p, node)
  {
    hide Original;
    if k :| 0 <= k < |rows| && rows[k].destination == p && rows[k].status != Conflict && node == File(Original(g, rows[k])) {
      assert rows[i := r][k] == rows[k];
    }
  }

  lemma PartialsStay(g: Setting, fs: Tree, rows: seq<Row>, cleared: set<Path>, i: nat, r: Row)
    requires i < |rows| && r.temp == rows[i].temp && OthersKept(g, fs, rows, cleared)
    ensures OthersKept(g, fs, rows[i := r], cleared)
  {
    forall p
      ensures IsPartial(rows, p) ==> IsPartial(rows[i := r], p)
    {
      PartialStays(rows, i, r, p);
    }
    hide IsPartial;
  }

  // ----- Changes of the tree -----

  lemma MkdirKeepsSound(g: Setting, fs: Tree, after: Tree, rows: seq<Row>, cleared: set<Path>, p: Path)
    requires Sound(g, fs, rows, cleared) && WellFormed(after)
    requires Grown(fs, after, p) && !(g.job.source <= p)
    ensures Sound(g, after, rows, cleared)
  {
    hide Sound;
    SameFilesKeepSound(g, fs, after, rows, cleared);
  }

  /** Directories come and go, none comes in the source, and all files are as they were. */
  ghost predicate SameFiles(source: Path, fs: Tree, after: Tree) {
    && (forall p :: IsFile(fs, p) ==> p in after && after[p] == fs[p])
    && (forall p :: IsFile(after, p) ==> p in fs && fs[p] == after[p])
    && (forall p :: p in after && source <= p ==> p in fs && after[p] == fs[p])
  }

  lemma SameFilesKeepSound(g: Setting, fs: Tree, after: Tree, rows: seq<Row>, cleared: set<Path>)
    requires Sound(g, fs, rows, cleared) && WellFormed(after) && SameFiles(g.job.source, fs, after)
    ensures Sound(g, after, rows, cleared)
  {
    FewerFilesAccounted(g, fs, after, rows);
    SameFilesKeepOthers(g, fs, after, rows, cleared);
    SameFilesKeepCopies(g, fs, after, rows);
    hide SameFiles, Fit, FilesAccounted, GoodRows, OthersKept, WellFormed, SourceKept, NothingNewInSource, CopiesExact, TempsArePrefixes;
  }

  lemma SameFilesKeepOthers(g: Setting, fs: Tree, after: Tree, rows: seq<Row>, cleared: set<Path>)
    requires SameFiles(g.job.source, fs, after)
    ensures OthersKept(g, fs, rows, cleared) ==> OthersKept(g, after, rows, cleared)
    ensures SourceKept(g, fs) ==> SourceKept(g, after)
    ensures NothingNewInSource(g, fs) ==> NothingNewInSource(g, after)
  {
    hide IsPartial;
  }

  lemma SameFilesKeepCopies(g: Setting, fs: Tree, after: Tree, rows: seq<Row>)
    requires SameFiles(g.job.source, fs, after)
    ensures CopiesExact(g, fs, rows) ==> CopiesExact(g, after, rows)
    ensures TempsArePrefixes(g, fs, rows) ==> TempsArePrefixes(g, after, rows)
  {
    hide Original;
  }

  /** No row's temporary file is another row's, or any row's destination. */
  lemma TempsAreNoTargets(g: Setting, rows: seq<Row>, i: nat)
    requires Fit(g) && GoodRows(g, rows) && i < |rows|
    ensures !(g.job.source <= rows[i].destination)
    ensures forall j :: 0 <= j < |rows| ==> rows[j].destination != rows[i].temp && rows[i].destination != rows[j].temp
    ensures forall j :: 0 <= j < |rows| && j != i ==> rows[j].temp != rows[i].temp
  {
    forall j | 0 <= j < |rows|
      ensures InTempDir(rows[j].temp) && TEMP_DIR !in rows[j].destination && TEMP_DIR in rows[j].temp
    {
      assert GoodRow(g, rows[j]);
    }
    assert GoodRow(g, rows[i]);
  }

  lemma TempWriteKeepsSound(g: Setting, fs: Tree, rows: seq<Row>, cleared: set<Path>, i: nat, data: Bytes)
    requires Sound(g, fs, rows, cleared) && i < |rows|
    requires OpenErr(fs, rows[i].temp) == Ok && data <= Original(g, rows[i])
    ensures Sound(g, fs[rows[i].temp := File(data)], rows, cleared)
  {
    hide Beside, InTempDir, Apart, Fit, GoodTarget, FilesAccounted, TempOf, WellFormed, Original;
    assert GoodRow(g, rows[i]);
    WriteKeepsWellFormed(fs, rows[i].temp, File(data));
    TempsAreNoTargets(g, rows, i);
    WriteAccounted(g, fs, rows, i, data);
    assert IsPartial(rows, rows[i].temp);
    hide IsPartial;
  }

  lemma RenameKeepsSound(g: Setting, fs: Tree, after: Tree, rows: seq<Row>, cleared: set<Path>, i: nat)
    requires Sound(g, fs, rows, cleared) && i < |rows| && WellFormed(after)
    requires rows[i].temp in fs && fs[rows[i].temp] == File(Original(g, rows[i])) && rows[i].destination !in fs
    requires rows[i].status != Conflict
    requires after == (fs - {rows[i].temp})[rows[i].destination := fs[rows[i].temp]]
    ensures Sound(g, after, rows, cleared)
  {
    hide Beside, InTempDir, Apart, Fit, GoodTarget, FilesAccounted, TempOf, WellFormed, Original;
    assert GoodRow(g, rows[i]);
    TempsAreNoTargets(g, rows, i);
    RenameAccounted(g, fs, after, rows, i);
    assert IsPartial(rows, rows[i].temp);
    hide IsPartial;
  }

  lemma RmdirKeepsSound(g: Setting, fs: Tree, rows: seq<Row>, cleared: set<Path>, d: Path)
    requires Sound(g, fs, rows, cleared) && IsDir(fs, d) && WellFormed(fs - {d})
    ensures Sound(g, fs - {d}, rows, cleared)
  {
    hide Sound;
    SameFilesKeepSound(g, fs, fs - {d}, rows, cleared);
  }

  lemma ClearKeepsSound(g: Setting, fs: Tree, after: Tree, rows: seq<Row>, cleared: set<Path>, c: Path)
    requires Sound(g, fs, rows, cleared) && WellFormed(after)
    requires Pruned(fs, after, c) && Apart(g.job.source, c)
    requires forall i :: 0 <= i < |rows| && CopiedRow(rows[i]) ==> !(c <= rows[i].destination)
    ensures Sound(g, after, rows, cleared + {c})
  {
    hide Fit, GoodRows, IsPartial, WellFormed, Original;
    FewerFilesAccounted(g, fs, after, rows);
    hide FilesAccounted;
    forall p | p in fs && g.job.source <= p
      ensures p in after
    {
      assert c <= p ==> c <= g.job.source || g.job.source <= c;
    }
    forall p | IsFile(g.origin, p) && !(g.job.source <= p) && (forall k :: k in cleared + {c} ==> !(k <= p)) && !IsPartial(rows, p)
      ensures p in after && after[p] == g.origin[p]
    {
      assert c in cleared + {c};
      assert forall k :: k in cleared ==> k in cleared + {c};
    }
  }

  lemma SourceRemovalKeepsSound(g: Setting, fs: Tree, after: Tree, rows: seq<Row>, cleared: set<Path>)
    requires Sound(g, fs, rows, cleared) && WellFormed(after)
    requires Pruned(fs, after, g.job.source)
    requires g.job.isMove && (Finished(rows) || forall p :: p in fs && g.job.source <= p ==> fs[p] == Dir)
    ensures Sound(g, after, rows, cleared)
  {
    hide Fit, IsPartial, WellFormed, Original, TempOf;
    FewerFilesAccounted(g, fs, after, rows);
    hide FilesAccounted;
    forall i | 0 <= i < |rows| && CopiedRow(rows[i])
      ensures rows[i].destination in after
    {
      assert GoodRow(g, rows[i]);
    }
  }

  // ----- Changes of the rows -----

  /** A row that is not completed takes a new status. */
  lemma RowChangeKeepsSound(g: Setting, fs: Tree, rows: seq<Row>, cleared: set<Path>, i: nat, r: Row)
    requires Sound(g, fs, rows, cleared) && i < |rows| && rows[i].status != Completed
    requires r == rows[i].(status := r.status, processed := r.processed, skipped := r.skipped)
    requires CopiedRow(r) ==> r.destination in fs && fs[r.destination] == File(Original(g, r))
    requires CopiedRow(r) ==> forall c :: 0 <= c < |rows| && rows[c].status == Conflict && c != i ==> !(rows[c].destination <= r.destination)
    requires r.status == Conflict ==> forall k :: 0 <= k < |rows| && CopiedRow(rows[k]) ==> !(r.destination <= rows[k].destination)
    requires r.status == Conflict && rows[i].status != Conflict && IsFile(fs, r.destination) ==> Unchanged(g, fs, r.destination)
    ensures Sound(g, fs, rows[i := r], cleared)
  {
    hide Fit, WellFormed, NothingNewInSource, OthersKept, FilesAccounted, Beside, InTempDir, GoodTarget, Original, SourceKept, TempOf;
    SameOriginal(g, rows[i], r);
    PartialsStay(g, fs, rows, cleared, i, r);
    if r.status == Conflict && rows[i].status != Conflict {
      ConflictAccounted(g, fs, rows, i, r);
    } else {
      RowsAccounted(g, fs, rows, rows[i := r], cleared);
    }
    assert GoodRow(g, rows[i]) && GoodRow(g, r);
  }

  lemma SameOriginal(g: Setting, r: Row, q: Row)
    requires r.source == q.source
    ensures Original(g, r) == Original(g, q)
  {}

  /** A conflicting row is sent to a free path instead. */
  lemma RedirectKeepsSound(g: Setting, fs: Tree, rows: seq<Row>, cleared: set<Path>, i: nat, d: Path)
    requires Sound(g, fs, rows, cleared) && i < |rows| && rows[i].status == Conflict
    requires d !in fs && GoodTarget(g, d) && Parent(d) == Parent(rows[i].destination)
    ensures Sound(g, fs, rows[i := rows[i].(destination := d)], cleared)
  {
    hide Apart, Fit, GoodTarget, GoodRows, Original, NothingNewInSource, OthersKept, SourceKept, FilesAccounted, WellFormed, Parent;
    var r := rows[i].(destination := d);
    SameOriginal(g, rows[i], r);
    RedirectedAreGood(g, rows, i, d);
    RowsAccounted(g, fs, rows, rows[i := r], cleared);
    FreeIsClear(g, fs, rows, d);
  }

  /** A path that is free does not lead to a finished copy. */
  lemma FreeIsClear(g: Setting, fs: Tree, rows: seq<Row>, d: Path)
    requires WellFormed(fs) && d !in fs && CopiesExact(g, fs, rows)
    ensures forall k :: 0 <= k < |rows| && CopiedRow(rows[k]) ==> !(d <= rows[k].destination)
  {
    forall k | 0 <= k < |rows| && CopiedRow(rows[k])
      ensures !(d <= rows[k].destination)
    {
      if d <= rows[k].destination { AncestorIsDir(fs, d, rows[k].destination); }
    }
  }

  lemma RedirectedAreGood(g: Setting, rows: seq<Row>, i: nat, d: Path)
    requires GoodRows(g, rows) && i < |rows| && GoodTarget(g, d) && Parent(d) == Parent(rows[i].destination)
    ensures GoodRows(g, rows[i := rows[i].(destination := d)])
  {
    hide TempOf, InTempDir, IsFile, Apart;
    var r := rows[i].(destination := d);
    SameOriginal(g, rows[i], r);
    hide Original;
    assert GoodRow(g, rows[i]) && GoodRow(g, r);
  }

  lemma AppendKeepsSound(g: Setting, fs: Tree, rows: seq<Row>, cleared: set<Path>, r: Row)
    requires Sound(g, fs, rows, cleared) && SourceKept(g, fs)
    requires GoodRow(g, r) && r.status == Queued && (IsFile(fs, r.temp) ==> fs[r.temp].data <= Original(g, r))
    requires forall i :: 0 <= i < |rows| ==> rows[i].source != r.source && rows[i].temp != r.temp
    ensures Sound(g, fs, rows + [r], cleared)
  {
    hide Fit, WellFormed, NothingNewInSource, OthersKept, FilesAccounted, Beside, InTempDir, GoodTarget, Original, SourceKept, TempOf;
    var longer := rows + [r];
    RowsAccounted(g, fs, rows, longer, cleared);
    assert longer[|rows|] == r && r.status != Completed;
  }

  // ----- When a stored plan can be finished -----

  /** The destination is free and reachable. */
  ghost predicate Way(fs: Tree, device: Path -> nat, temp: Path, destination: Path) {
    && destination !in fs && (forall q :: IsFile(fs, q) ==> !(q <= Parent(destination)))
    && device(temp) == device(destination)
  }

  /** Nothing on disk is in the way of copying through `temp` to `destination`. */
  ghost predicate Clear(fs: Tree, device: Path -> nat, temp: Path, destination: Path) {
    Way(fs, device, temp, destination) && !IsFile(fs, Parent(temp)) && !IsDir(fs, temp)
  }

  /** Nothing is in the way of the rows that are not completed, and they are not in each other's way. */
  ghost predicate CanFinish(fs: Tree, device: Path -> nat, rows: seq<Row>) {
    && (forall i :: 0 <= i < |rows| && rows[i].status != Completed ==> Clear(fs, device, rows[i].temp, rows[i].destination))
    && (forall i, j :: 0 <= i < |rows| && 0 <= j < |rows| && i != j && rows[i].status != Completed && rows[j].status != Completed ==>
          !(rows[i].destination <= rows[j].destination))
  }

  /** Copying one item creates directories on its ways and the two files; only its temporary file changes or goes. */
  ghost predicate Staged(before: Tree, after: Tree, temp: Path, destination: Path) {
    && (forall q :: q in after && q in before && q != temp ==> after[q] == before[q])
    && (forall q :: q in after && q !in before ==>
          (q <= temp || q <= destination) && (after[q] == Dir || q == temp || q == destination))
    && (forall q :: q in before && q != temp ==> q in after)
    && (IsDir(before, temp) ==> IsDir(after, temp))
  }

  /** The same, and the temporary directory may go. */
  ghost predicate Worked(before: Tree, after: Tree, temp: Path, destination: Path) {
    && (forall q :: q in after && q in before && q != temp ==> after[q] == before[q])
    && (forall q :: q in after && q !in before ==>
          (q <= temp || q <= destination) && (after[q] == Dir || q == temp || q == destination))
    && (forall q :: q in before && q != temp && !(q == Parent(temp) && before[q] == Dir) ==> q in after)
    && (IsDir(before, temp) ==> IsDir(after, temp))
  }

  lemma StagedTransitive(a: Tree, b: Tree, c: Tree, temp: Path, destination: Path)
    requires Staged(a, b, temp, destination) && Staged(b, c, temp, destination)
    ensures Staged(a, c, temp, destination)
  {}

  lemma GrownIsStaged(before: Tree, after: Tree, p: Path, temp: Path, destination: Path)
    requires Grown(before, after, p) && (p <= temp || p <= destination)
    ensures Staged(before, after, temp, destination)
  {}

  lemma RenamedIsStaged(before: Tree, after: Tree, temp: Path, destination: Path)
    requires IsFile(before, temp) && destination !in before
    requires after == before || after == (before - {temp})[destination := before[temp]]
    ensures Staged(before, after, temp, destination)
  {}

  lemma WrittenIsStaged(before: Tree, after: Tree, temp: Path, destination: Path)
    requires before.Keys == after.Keys && forall p :: p in after && p != temp ==> after[p] == before[p]
    requires IsDir(before, temp) ==> IsDir(after, temp)
    ensures Staged(before, after, temp, destination)
  {}

  lemma OpenedIsStaged(before: Tree, after: Tree, temp: Path, data: Bytes)
    requires after == before || (!IsDir(before, temp) && after == before[temp := File(data)])
    ensures Staged(before, after, temp, temp)
  {}

  lemma StagedWidens(before: Tree, after: Tree, temp: Path, destination: Path)
    requires Staged(before, after, temp, temp)
    ensures Staged(before, after, temp, destination)
  {}

  lemma StagedThenWorked(a: Tree, b: Tree, c: Tree, temp: Path, destination: Path)
    requires Staged(a, b, temp, destination) && Worked(b, c, temp, destination)
    ensures Worked(a, c, temp, destination)
  {}

  /** The temporary directory goes. */
  lemma RmdirIsWorked(before: Tree, temp: Path, destination: Path)
    requires IsDir(before, Parent(temp)) && temp != Parent(temp)
    ensures Worked(before, before, temp, destination) && Worked(before, before - {Parent(temp)}, temp, destination)
  {}

  lemma StagedIsWorked(a: Tree, b: Tree, temp: Path, destination: Path)
    requires Staged(a, b, temp, destination)
    ensures Worked(a, b, temp, destination)
  {}

  /** Making the destination's directory and renaming succeed only where there was a way, and wherever there was one. */
  lemma RenameNeedsWay(before: Tree, mid: Tree, device: Path -> nat, temp: Path, destination: Path)
    requires WellFormed(mid) && Grown(before, mid, Parent(destination)) && Beside(temp, destination) && temp in mid
    requires TEMP_DIR !in destination
    ensures RenameErr(mid, temp, destination, device(temp) == device(destination)) == Ok ==> Way(before, device, temp, destination)
    ensures Way(before, device, temp, destination) && IsDir(mid, Parent(destination)) ==>
      RenameErr(mid, temp, destination, device(temp) == device(destination)) == Ok
  {
    OnTheWayToBeside(destination, temp, destination);
    if IsDir(mid, Parent(destination)) {
      forall q | IsFile(before, q)
        ensures !(q <= Parent(destination))
      {
        if q <= Parent(destination) { AncestorIsDir(mid, q, Parent(destination)); }
      }
    }
  }

  lemma WayHasNoFile(fs: Tree, device: Path -> nat, temp: Path, destination: Path)
    requires Way(fs, device, temp, destination)
    ensures !FileOnPath(fs, Parent(destination))
    ensures Clear(fs, device, temp, destination) && Beside(temp, destination) ==> !FileOnPath(fs, Parent(temp))
  {
    forall i | 0 <= i <= |Parent(destination)|
      ensures !IsFile(fs, Parent(destination)[..i])
    {
      assert Parent(destination)[..i] <= Parent(destination);
    }
    forall i | Beside(temp, destination) && Clear(fs, device, temp, destination) && 0 <= i <= |Parent(temp)|
      ensures !IsFile(fs, Parent(temp)[..i])
    {
      if i < |Parent(temp)| {
        assert Parent(temp)[..i] == Parent(destination)[..i] <= Parent(destination);
      } else {
        assert Parent(temp)[..i] == Parent(temp);
      }
    }
  }

  /** A path with no temporary directory on it does not lead into one. */
  lemma OnTheWayToBeside(q: Path, temp: Path, destination: Path)
    requires Beside(temp, destination) && TEMP_DIR !in destination
    ensures q <= temp && TEMP_DIR !in q ==> q <= Parent(destination)
    ensures q <= temp && TEMP_DIR in q ==> q == temp || q == Parent(temp)
    ensures TEMP_DIR in temp && !(temp <= destination) && !(destination <= temp) && Parent(temp) != temp
  {
    var k := |Parent(destination)|;
    assert temp == Parent(temp) + [temp[|temp| - 1]] && temp[k] == TEMP_DIR;
    assert forall j :: 0 <= j < k ==> temp[j] == destination[j];
    if q <= temp {
      if |q| <= k { assert forall x :: x in q ==> x in destination; } else { assert q[k] == TEMP_DIR; }
    }
  }

  lemma StagedKeepsWay(before: Tree, after: Tree, device: Path -> nat, temp: Path, destination: Path)
    requires Staged(before, after, temp, temp) && Beside(temp, destination) && TEMP_DIR !in destination
    ensures Way(before, device, temp, destination) <==> Way(after, device, temp, destination)
  {
    OnTheWayToBeside(destination, temp, destination);
    forall q | q <= Parent(destination)
      ensures IsFile(before, q) <==> IsFile(after, q)
    {
      OnTheWayToBeside(q, temp, destination);
    }
  }

  lemma OnlyThere(q: Path, temp: Path, destination: Path)
    requires Beside(temp, destination)
    ensures q <= Parent(destination) && TEMP_DIR !in destination ==> TEMP_DIR !in q && q <= destination
    ensures TEMP_DIR in Parent(temp) && TEMP_DIR in temp
  {
    assert Parent(temp)[|Parent(destination)|] == TEMP_DIR && temp[|Parent(destination)|] == TEMP_DIR;
  }

  lemma DifferentEnds(temp: Path, destination: Path, temp1: Path, destination1: Path)
    requires Beside(temp, destination) && Beside(temp1, destination1)
    ensures temp1 != Parent(temp) && Parent(temp1) != temp
  {
    assert Parent(temp)[|Parent(temp)| - 1] == TEMP_DIR && Parent(temp1)[|Parent(temp1)| - 1] == TEMP_DIR;
  }

  lemma BackToBefore(before: Tree, after: Tree, device: Path -> nat, temp: Path, destination: Path, temp1: Path, destination1: Path)
    requires Worked(before, after, temp, destination)
    requires Beside(temp, destination) && TEMP_DIR !in destination && Beside(temp1, destination1) && TEMP_DIR !in destination1
    requires Clear(after, device, temp1, destination1)
    ensures Clear(before, device, temp1, destination1)
  {
    DifferentEnds(temp, destination, temp1, destination1);
    OnlyThere(destination, temp, destination);
    OnlyThere(destination1, temp, destination);
    forall q | IsFile(before, q)
      ensures !(q <= Parent(destination1))
    {
      OnlyThere(q, temp1, destination1);
      assert q <= Parent(destination1) ==> IsFile(after, q);
    }
  }

  lemma OnToAfter(before: Tree, after: Tree, device: Path -> nat, temp: Path, destination: Path, temp1: Path, destination1: Path)
    requires Worked(before, after, temp, destination)
    requires Beside(temp, destination) && TEMP_DIR !in destination && Beside(temp1, destination1) && TEMP_DIR !in destination1
    requires temp != temp1 && Clear(before, device, temp1, destination1)
    requires !(destination <= destination1) && !(destination1 <= destination)
    ensures Clear(after, device, temp1, destination1)
  {
    DifferentEnds(temp, destination, temp1, destination1);
    OnlyThere(destination, temp, destination);
    OnTheWayToBeside(destination1, temp, destination);
    OnTheWayToBeside(temp1, temp, destination);
    OnlyThere(temp1, temp1, destination1);
    assert Parent(destination) <= destination;
    forall q | IsFile(after, q)
      ensures !(q <= Parent(destination1))
    {
      OnlyThere(q, temp1, destination1);
      assert Parent(destination1) <= destination1;
      if q <= Parent(destination1) {
        assert q <= destination1 && q != temp && q != destination;
        assert IsFile(before, q);
      }
    }
    assert temp1 <= destination ==> TEMP_DIR in destination;
  }

  /** While one row is copied, whatever is or is not in the way of another row stays so. */
  lemma WorkedKeepsOthers(before: Tree, after: Tree, device: Path -> nat, temp: Path, destination: Path, temp1: Path, destination1: Path)
    requires Worked(before, after, temp, destination) && WellFormed(after)
    requires Beside(temp, destination) && TEMP_DIR !in destination && Beside(temp1, destination1) && TEMP_DIR !in destination1
    requires temp != temp1 && !IsFile(before, Parent(temp)) && IsFile(after, destination)
    ensures Clear(after, device, temp1, destination1) ==>
      Clear(before, device, temp1, destination1) && !(destination <= destination1) && !(destination1 <= destination)
    ensures Clear(before, device, temp1, destination1) && !(destination <= destination1) && !(destination1 <= destination) ==>
      Clear(after, device, temp1, destination1)
  {
    if Clear(after, device, temp1, destination1) {
      if destination1 <= destination { AncestorIsDir(after, destination1, destination); }
      assert destination <= destination1 ==> destination == destination1 || destination <= Parent(destination1);
      BackToBefore(before, after, device, temp, destination, temp1, destination1);
    }
    if Clear(before, device, temp1, destination1) && !(destination <= destination1) && !(destination1 <= destination) {
      OnToAfter(before, after, device, temp, destination, temp1, destination1);
    }
  }

  /** Copying one row that nothing is in the way of does not change whether the plan can be finished. */
  lemma CanFinishStep(fs0: Tree, fs: Tree, device: Path -> nat, rows0: seq<Row>, rows: seq<Row>, i: nat)
    requires i < |rows0| == |rows| && rows0[i].status != Completed && rows[i].status == Completed
    requires forall j :: 0 <= j < |rows| && j != i ==> rows[j] == rows0[j] && rows[j].temp != rows0[i].temp
    requires forall j :: 0 <= j < |rows| ==> Beside(rows0[j].temp, rows0[j].destination) && TEMP_DIR !in rows0[j].destination
    requires Worked(fs0, fs, rows0[i].temp, rows0[i].destination) && WellFormed(fs) && IsFile(fs, rows0[i].destination)
    requires Clear(fs0, device, rows0[i].temp, rows0[i].destination)
    ensures CanFinish(fs0, device, rows0) <==> CanFinish(fs, device, rows)
  {
    hide Clear, Way, Worked, Beside;
    NoFileAside(fs0, device, rows0[i].temp, rows0[i].destination);
    forall j | 0 <= j < |rows| && j != i
      ensures Clear(fs, device, rows[j].temp, rows[j].destination) <==>
        Clear(fs0, device, rows0[j].temp, rows0[j].destination) &&
        !(rows0[i].destination <= rows0[j].destination) && !(rows0[j].destination <= rows0[i].destination)
    {
      WorkedKeepsOthers(fs0, fs, device, rows0[i].temp, rows0[i].destination, rows[j].temp, rows[j].destination);
    }
  }

  lemma NoFileAside(fs: Tree, device: Path -> nat, temp: Path, destination: Path)
    requires Clear(fs, device, temp, destination)
    ensures !IsFile(fs, Parent(temp))
  {}

  /** While one row is worked on and not completed, a plan that could not be finished cannot be finished still. */
  lemma BlockedStays(fs0: Tree, fs: Tree, device: Path -> nat, rows0: seq<Row>, rows: seq<Row>, i: nat)
    requires i < |rows0| && SameTargets(rows0, rows)
    requires forall j :: 0 <= j < |rows| ==> Beside(rows0[j].temp, rows0[j].destination) && TEMP_DIR !in rows0[j].destination
    requires Worked(fs0, fs, rows0[i].temp, rows0[i].destination)
    ensures CanFinish(fs, device, rows) ==> CanFinish(fs0, device, rows0)
  {
    hide Clear, Worked, Beside;
    forall j | 0 <= j < |rows| && rows[j].status != Completed && Clear(fs, device, rows[j].temp, rows[j].destination)
      ensures Clear(fs0, device, rows0[j].temp, rows0[j].destination)
    {
      BackToBefore(fs0, fs, device, rows0[i].temp, rows0[i].destination, rows0[j].temp, rows0[j].destination);
    }
  }

  /** While one row is copied to its temporary file and goes no further, a plan that could be finished still can be. */
  lemma FreeStays(fs0: Tree, fs: Tree, device: Path -> nat, rows0: seq<Row>, rows: seq<Row>, i: nat)
    requires i < |rows0| && SameTargets(rows0, rows) && rows0[i].status != Completed
    requires forall j :: 0 <= j < |rows| ==> Beside(rows0[j].temp, rows0[j].destination) && TEMP_DIR !in rows0[j].destination
    requires forall j :: 0 <= j < |rows| && j != i ==> rows0[j].temp != rows0[i].temp
    requires Staged(fs0, fs, rows0[i].temp, rows0[i].temp) && IsFile(fs, rows0[i].temp)
    ensures CanFinish(fs0, device, rows0) ==> CanFinish(fs, device, rows)
  {
    hide Clear, Staged, Worked, Beside;
    StagedWidens(fs0, fs, rows0[i].temp, rows0[i].destination);
    StagedIsWorked(fs0, fs, rows0[i].temp, rows0[i].destination);
    if CanFinish(fs0, device, rows0) {
      StagedKeepsClear(fs0, fs, device, rows0[i].temp, rows0[i].destination);
      forall j | 0 <= j < |rows| && rows[j].status != Completed && j != i
        ensures Clear(fs, device, rows[j].temp, rows[j].destination)
      {
        OnToAfter(fs0, fs, device, rows0[i].temp, rows0[i].destination, rows0[j].temp, rows0[j].destination);
      }
    }
  }

  lemma StagedKeepsClear(before: Tree, after: Tree, device: Path -> nat, temp: Path, destination: Path)
    requires Staged(before, after, temp, temp) && Beside(temp, destination) && TEMP_DIR !in destination && IsFile(after, temp)
    requires Clear(before, device, temp, destination)
    ensures Clear(after, device, temp, destination)
  {
    hide Way;
    StagedKeepsWay(before, after, device, temp, destination);
    OnTheWayToBeside(destination, temp, destination);
  }

  /** A row whose destination is there and that is not completed: the plan cannot be finished. */
  lemma CopyInTheWay(fs: Tree, device: Path -> nat, rows: seq<Row>, i: nat)
    requires i < |rows| && rows[i].status != Completed && rows[i].destination in fs
    ensures !CanFinish(fs, device, rows)
  {}

  lemma SameTargetsTransitive(a: seq<Row>, b: seq<Row>, c: seq<Row>)
    requires SameTargets(a, b) && SameTargets(b, c)
    ensures SameTargets(a, c)
  {}

  /** Only the status and progress of rows changed, and none became or ceased to be completed. */
  ghost predicate SameTargets(before: seq<Row>, after: seq<Row>) {
    |before| == |after| &&
    forall i :: 0 <= i < |before| ==>
      && after[i] == before[i].(status := after[i].status, processed := after[i].processed)
      && (after[i].status == Completed <==> before[i].status == Completed)
  }

  lemma SameTargetsFinishAlike(fs: Tree, device: Path -> nat, before: seq<Row>, after: seq<Row>)
    requires SameTargets(before, after)
    ensures CanFinish(fs, device, before) <==> CanFinish(fs, device, after)
  {
    hide Clear;
  }

  lemma FinishableRow(fs: Tree, device: Path -> nat, rows: seq<Row>, i: nat)
    requires i < |rows| && rows[i].status != Completed
    ensures CanFinish(fs, device, rows) ==> Clear(fs, device, rows[i].temp, rows[i].destination) && !IsDir(fs, rows[i].temp)
    ensures CanFinish(fs, device, rows) && Beside(rows[i].temp, rows[i].destination) ==> !Obstructed(fs, rows[i].temp)
  {
    if CanFinish(fs, device, rows) { WayHasNoFile(fs, device, rows[i].temp, rows[i].destination); }
  }

  lemma FinishedCanFinish(fs: Tree, device: Path -> nat, rows: seq<Row>)
    requires forall i :: 0 <= i < |rows| ==> rows[i].status == Completed
    ensures CanFinish(fs, device, rows)
  {}

  /** The restart's bulk update: running rows are queued again. */
  function Requeued(rows: seq<Row>): (out: seq<Row>)
    ensures |out| == |rows|
    ensures forall i :: 0 <= i < |rows| ==> out[i] == if rows[i].status == Running then rows[i].(status := Queued) else rows[i]
  {
    seq(|rows|, i requires 0 <= i < |rows| => if rows[i].status == Running then rows[i].(status := Queued) else rows[i])
  }

  lemma RequeueKeepsSound(g: Setting, fs: Tree, rows: seq<Row>, cleared: set<Path>, out: seq<Row>)
    requires Sound(g, fs, rows, cleared) && out == Requeued(rows)
    ensures Sound(g, fs, out, cleared)
    ensures Finished(out) <==> Finished(rows)
  {
    hide GoodRow, Fit, WellFormed, OthersKept, FilesAccounted, ConflictsClear, NothingNewInSource, SourceKept, Original, Finished;
    RequeueKeepsTargets(rows, out);
    RowsAccounted(g, fs, rows, out, cleared);
    forall i | 0 <= i < |out|
      ensures GoodRow(g, out[i]) && Original(g, out[i]) == Original(g, rows[i])
    {
      GoodRowHere(g, rows, i, out[i]);
      SameOriginal(g, out[i], rows[i]);
    }
  }

  lemma RequeuedSameTargets(rows: seq<Row>)
    ensures SameTargets(rows, Requeued(rows))
  {}

  /** There is nothing to queue again when all rows are done. */
  lemma FinishedStays(rows: seq<Row>)
    ensures Finished(rows) ==> Requeued(rows) == rows
  {}

  lemma GoodRowHere(g: Setting, rows: seq<Row>, i: nat, r: Row)
    requires i < |rows| && GoodRows(g, rows) && r == rows[i].(status := r.status)
    ensures GoodRow(g, r)
  {
    assert GoodRow(g, rows[i]);
  }

  lemma RequeueKeepsTargets(rows: seq<Row>, out: seq<Row>)
    requires out == Requeued(rows)
    ensures Finished(out) <==> Finished(rows)
    ensures ConflictsClear(rows) ==> ConflictsClear(out)
  {
    forall i | 0 <= i < |rows|
      ensures out[i].status == Completed <==> rows[i].status == Completed
      ensures out[i].status == Conflict <==> rows[i].status == Conflict
    {}
  }

  /** The destinations the user's answers say to overwrite. */
  ghost function OverwriteTargets(rows: seq<Row>, answers: Answers): set<Path> {
    set i | 0 <= i < |rows| && rows[i].status == Conflict && answers.For(i) == Some(ChooseOverwrite) :: rows[i].destination
  }

  /** What an answer makes of a conflicting row. */
  ghost predicate Answered(fs: Tree, before: Row, after: Row, answer: Resolution) {
    match answer
    case ChooseSkip => after == before.(skipped := true, status := Completed, processed := before.size)
    case ChooseOverwrite => after == before.(status := Queued, processed := 0) && after.destination !in fs
    case ChooseRename =>
      && after == before.(status := Queued, processed := 0, destination := after.destination)
      && before.destination != [] && NextFree(fs, before.destination, Some(after.destination))
  }

  /** The same, of the rows alone. */
  ghost predicate Settled(before: Row, after: Row, answer: Resolution) {
    match answer
    case ChooseSkip => after == before.(skipped := true, status := Completed, processed := before.size)
    case ChooseOverwrite => after == before.(status := Queued, processed := 0)
    case ChooseRename =>
      && after == before.(status := Queued, processed := 0, destination := after.destination)
      && Parent(after.destination) == Parent(before.destination)
  }

  lemma AnsweredIsSettled(fs: Tree, before: Row, after: Row, answer: Resolution)
    requires Answered(fs, before, after, answer)
    ensures Settled(before, after, answer)
  {
    if answer == ChooseRename && after.destination != before.destination {
      var i :| 1 <= i <= MAX_CANDIDATES && after.destination == Candidate(before.destination, i);
      CandidateShape(before.destination, i);
    }
  }

  // ----- Byte and item counts -----

  function Sizes(rows: seq<Row>): nat {
    if rows == [] then 0 else Sizes(rows[..|rows| - 1]) + rows[|rows| - 1].size
  }

  function DoneBytes(rows: seq<Row>): nat {
    if rows == [] then 0
    else DoneBytes(rows[..|rows| - 1]) + (if rows[|rows| - 1].status == Completed then rows[|rows| - 1].size else 0)
  }

  function DoneItems(rows: seq<Row>): nat {
    if rows == [] then 0
    else DoneItems(rows[..|rows| - 1]) + (if rows[|rows| - 1].status == Completed then 1 else 0)
  }

  lemma {:induction false} CountsUpdate(rows: seq<Row>, i: nat, r: Row)
    requires i < |rows| && r.size == rows[i].size && rows[i].status != Completed
    ensures Sizes(rows[i := r]) == Sizes(rows)
    ensures DoneBytes(rows[i := r]) == DoneBytes(rows) + (if r.status == Completed then r.size else 0)
    ensures DoneItems(rows[i := r]) == DoneItems(rows) + (if r.status == Completed then 1 else 0)
  {
    var last := |rows| - 1;
    if i < last {
      assert rows[i := r][..last] == rows[..last][i := r];
      CountsUpdate(rows[..last], i, r);
    } else {
      assert rows[i := r][..last] == rows[..last];
    }
  }

  /** What is done and one unfinished row together never exceed the total. */
  lemma {:induction false} CountsBound(rows: seq<Row>, i: nat)
    requires i < |rows| && rows[i].status != Completed
    ensures DoneBytes(rows) + rows[i].size <= Sizes(rows)
    ensures DoneItems(rows) + 1 <= |rows|
  {
    var last := |rows| - 1;
    if i < last {
      CountsBound(rows[..last], i);
    } else {
      CountsAtMost(rows[..last]);
    }
  }

  lemma {:induction false} CountsAtMost(rows: seq<Row>)
    ensures DoneBytes(rows) <= Sizes(rows) && DoneItems(rows) <= |rows|
  {
    if rows != [] { CountsAtMost(rows[..|rows| - 1]); }
  }

  lemma {:induction false} CountsWhenAllDone(rows: seq<Row>)
    requires forall i :: 0 <= i < |rows| ==> rows[i].status == Completed
    ensures DoneBytes(rows) == Sizes(rows) && DoneItems(rows) == |rows|
  {
    if rows != [] { CountsWhenAllDone(rows[..|rows| - 1]); }
  }
}
