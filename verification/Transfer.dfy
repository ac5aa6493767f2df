/**
 The worker's side of a copy or move job, and the user's. Every database
 statement and every file primitive may be the last thing the process does; the
 user may pause, resume or cancel whenever the worker looks at the job's status.
 */
module Transfer {
  import opened FileSystem
  import opened JobStatus
  import opened Volumes
  import opened Names
  import opened TransferModel
  import opened TransferPlan

  const BLOCK: nat := 1048576

  class Worker {
    const vol: Volume
    const job: Job
    const sourceIsRoot: bool
    var status: Status
    var rows: seq<Row>
    var totalBytes: nat
    var totalItems: nat
    var processedBytes: nat
    var processedItems: nat
    ghost const origin: Tree
    ghost var cleared: set<Path>   // what has been removed to be overwritten
    ghost var answered: set<Path>  // the destinations for which the user answered "overwrite"
    ghost var reported: nat        // the largest byte count reported since the job was claimed
    ghost var steered: bool        // the user has paused, resumed or cancelled since the job was claimed

    ghost function G(): Setting
      reads this
    {
      Setting(job, origin)
    }

    /** All rows done, and all counts at their totals. */
    ghost predicate Counted()
      reads this
    {
      && Finished(rows)
      && processedBytes == totalBytes == Sizes(rows)
      && processedItems == totalItems == |rows|
    }

    /** A completed job with items: all of them done and counted, and a moved source gone. */
    ghost predicate Closed()
      reads this, vol
    {
      Counted() && (job.isMove ==> Under(vol.fs, job.source) == {})
    }

    /** The checks a request passes before anything is planned. */
    ghost predicate Admitted() {
      && (job.isMove ==> job.policy != Skip && job.policy != SkipIdentical && !sourceIsRoot)
      && (job.policy == SkipIdentical ==> IsFile(origin, job.source))
      && job.policy != CancelTransfer && !(job.source <= job.destination)
    }

    ghost predicate Finishable()
      reads this, vol
    {
      CanFinish(vol.fs, vol.device, rows)
    }

    /** A request that passes the checks, for a source that is there, with room where its policy sends it. */
    ghost predicate Startable()
      reads this, vol
    {
      && rows == [] && (job.source in vol.fs || (job.policy == Skip && job.destination in vol.fs))
      && (job.isMove ==> job.policy != Skip && job.policy != SkipIdentical && !sourceIsRoot)
      && (job.policy == SkipIdentical ==> IsFile(vol.fs, job.source))
      && job.policy != CancelTransfer && !(job.source <= job.destination)
      && HasRoom(vol.fs, vol.device, job)
    }

    /** What the job may remove to overwrite: its destination if that is its policy, and what the user said. */
    ghost function Chosen(): set<Path>
      reads this
    {
      answered + (if job.policy == Overwrite then {job.destination} else {})
    }

    ghost predicate Inv()
      reads this, vol
    {
      && cleared <= Chosen()
      && vol.Valid()
      && Sound(G(), vol.fs, rows, cleared)
      && CountsFit(rows)
      && (if rows == [] then NoNewFiles(origin, vol.fs) else Admitted())
      && (status == Completed && rows != [] ==> Closed())
    }

    constructor (vol: Volume, job: Job, sourceIsRoot: bool)
      requires vol.Valid() && Fit(Setting(job, vol.fs))
      ensures Inv() && this.vol == vol && this.job == job && this.sourceIsRoot == sourceIsRoot
      ensures status == Queued && rows == [] && origin == vol.fs && answered == {} && !steered
      ensures totalBytes == totalItems == processedBytes == processedItems == 0
    {
      this.vol, this.job, this.sourceIsRoot := vol, job, sourceIsRoot;
      status, rows := Queued, [];
      totalBytes, totalItems, processedBytes, processedItems := 0, 0, 0, 0;
      origin, cleared, answered, reported, steered := vol.fs, {}, {}, 0, false;
    }

    /** Flags only ever go up, a dead process stays dead and writes nothing, and only the user changes a running status. */
    twostate predicate Kept()
      reads this, vol
    {
      && (old(vol.disturbed) ==> vol.disturbed)
      && (old(steered) ==> steered)
      && (!steered ==> status == old(status))
      && (old(vol.dead) ==> vol.dead && vol.fs == old(vol.fs))
    }

    // ----- The user -----

    method PauseJob() returns (ok: bool)
      requires Inv() && !vol.dead
      modifies this`status, this`steered
      ensures Inv() && steered
      ensures ok <==> old(status) == Running
      ensures status == if ok then Paused else old(status)
    {
      hide Sound, Finished, DoneBytes, DoneItems, Sizes;
      ok, steered := status == Running, true;
      if ok { status := Paused; }
    }

    method ResumeJob() returns (ok: bool)
      requires Inv() && !vol.dead
      modifies this`status, this`steered
      ensures Inv() && steered
      ensures ok <==> old(status) == Paused
      ensures status == if ok then Queued else old(status)
    {
      hide Sound, Finished, DoneBytes, DoneItems, Sizes;
      ok, steered := status == Paused, true;
      if ok { status := Queued; }
    }

    method Cancel() returns (ok: bool)
      requires Inv() && !vol.dead
      modifies this`status, this`steered
      ensures Inv() && steered
      ensures ok <==> old(status) in {Queued, Running, Paused, NeedsAttention}
      ensures status == if ok then Cancelled else old(status)
    {
      hide Sound, Finished, DoneBytes, DoneItems, Sizes;
      ok, steered := status in {Queued, Running, Paused, NeedsAttention}, true;
      if ok { status := Cancelled; }
    }

    /** Any number of user requests between two steps of the worker. */
    method Interfere()
      requires Inv()
      modifies this`status, this`steered
      ensures Inv()
      ensures old(steered) ==> steered
      ensures !steered ==> status == old(status)
      ensures old(status) == Cancelled ==> status == Cancelled
      ensures old(status) != Completed ==> status != Completed
    {
      if vol.dead { return; }
      var n: nat := *;
      while n > 0
        invariant Inv() && !vol.dead
        invariant old(steered) ==> steered
        invariant !steered ==> status == old(status)
        invariant old(status) == Cancelled ==> status == Cancelled
        invariant old(status) != Completed ==> status != Completed
      {
        if * { var _ := PauseJob(); } else if * { var _ := ResumeJob(); } else { var _ := Cancel(); }
        n := n - 1;
      }
    }

    // ----- The job and item rows -----

    method GetJobStatus() returns (s: Status)
      requires Inv()
      modifies this`status, this`steered
      ensures Inv() && s == status
      ensures old(steered) ==> steered
      ensures !steered ==> status == old(status)
      ensures old(status) == Cancelled ==> status == Cancelled
      ensures old(status) != Completed ==> status != Completed
    {
      Interfere();
      s := status;
    }

    method UpdateItemStatus(i: nat, s: Status, processed: nat)
      requires Inv() && i < |rows|
      requires !vol.dead ==> rows[i].status != Completed && processed <= rows[i].size
      requires !vol.dead && s == Completed ==>
        processed == rows[i].size &&
        (rows[i].skipped ||
         (NoConflict(rows) && rows[i].destination in vol.fs && vol.fs[rows[i].destination] == File(Original(G(), rows[i]))))
      requires !vol.dead && s == Conflict ==>
        forall k :: 0 <= k < |rows| && CopiedRow(rows[k]) ==> !(rows[i].destination <= rows[k].destination)
      requires !vol.dead && s == Conflict && IsFile(vol.fs, rows[i].destination) ==> Unchanged(G(), vol.fs, rows[i].destination)
      modifies this`rows, vol
      ensures Inv() && vol.fs == old(vol.fs) && (old(vol.disturbed) ==> vol.disturbed)
      ensures old(vol.dead) ==> vol.dead && rows == old(rows)
      ensures rows == old(rows) || rows == old(rows)[i := old(rows)[i].(status := s, processed := processed)]
      ensures !vol.dead ==> rows == old(rows)[i := old(rows)[i].(status := s, processed := processed)]
      ensures s != Completed ==> OnlyRow(old(rows), rows, i)
    {
      hide Sound;
      if !vol.dead {
        RowChangeKeepsSound(G(), vol.fs, rows, cleared, i, rows[i].(status := s, processed := processed));
      }
      var done := vol.Survive();
      if done { rows := rows[i := rows[i].(status := s, processed := processed)]; }
    }

    method SetJobTotals(bytes: nat, items: nat)
      requires Inv() && (!vol.dead ==> status != Completed)
      modifies this`totalBytes, this`totalItems, vol
      ensures Inv() && vol.fs == old(vol.fs) && (old(vol.disturbed) ==> vol.disturbed)
      ensures old(vol.dead) ==> vol.dead
      ensures !vol.dead ==> totalBytes == bytes && totalItems == items
    {
      hide Sound, Finished;
      var done := vol.Survive();
      if done { totalBytes, totalItems := bytes, items; }
    }

    /**
     A progress report: the finished items' sizes plus the bytes copied of one unfinished item, never less than the
     last report of this claim and never more than the total.
     */
    method UpdateJobProgress(bytes: nat, items: nat, ghost current: Option<nat>)
      requires Inv() && (!vol.dead ==> status != Completed)
      requires !vol.dead && current.Some? ==> RowIs(current.value, Running)
      requires !vol.dead ==> bytes == DoneBytes(rows) + (if current.Some? then rows[current.value].processed else 0)
      requires !vol.dead ==> reported <= bytes <= Sizes(rows)
      requires !vol.dead ==> items == DoneItems(rows)
      modifies this`processedBytes, this`processedItems, this`reported, vol
      ensures Inv() && vol.fs == old(vol.fs) && (old(vol.disturbed) ==> vol.disturbed)
      ensures old(vol.dead) ==> vol.dead
      ensures !vol.dead ==> processedBytes == bytes && processedItems == items && reported == bytes
    {
      hide Sound, Finished;
      var done := vol.Survive();
      if done { processedBytes, processedItems, reported := bytes, items, bytes; }
    }

    method CompleteJob()
      requires Inv() && (!vol.dead && rows != [] ==> Closed())
      modifies this`status, this`steered, vol
      ensures Inv() && vol.fs == old(vol.fs) && (old(vol.disturbed) ==> vol.disturbed)
      ensures old(steered) ==> steered
      ensures old(vol.dead) ==> vol.dead
      ensures !vol.dead ==> status == Completed
      ensures !steered ==> status in {old(status), Completed}
    {
      hide Sound, Finished;
      Interfere();
      var done := vol.Survive();
      if done { status := Completed; }
    }

    method FailJob()
      requires Inv()
      modifies this`status, this`steered, vol
      ensures Inv() && vol.fs == old(vol.fs) && (old(vol.disturbed) ==> vol.disturbed)
      ensures old(steered) ==> steered
      ensures old(vol.dead) ==> vol.dead
      ensures !vol.dead ==> status == Failed
      ensures status == Completed ==> old(status) == Completed
      ensures !steered ==> status in {old(status), Failed}
    {
      hide Sound, Finished;
      Interfere();
      var done := vol.Survive();
      if done { status := Failed; }
    }

    method SetNeedsAttention()
      requires Inv()
      modifies this`status, this`steered, vol
      ensures Inv() && vol.fs == old(vol.fs) && (old(vol.disturbed) ==> vol.disturbed)
      ensures old(steered) ==> steered
      ensures old(vol.dead) ==> vol.dead
      ensures !vol.dead ==> status == NeedsAttention
      ensures status != Completed || status == old(status)
    {
      hide Sound, Finished;
      Interfere();
      var done := vol.Survive();
      if done { status := NeedsAttention; }
    }

    // ----- Copying one item -----

    ghost predicate Matches(item: CopyItem)
      reads this
    {
      RowMatches(rows, item)
    }

    ghost predicate Ready(item: CopyItem)
      reads this, vol
    {
      ReadyItem(G(), vol.fs, rows, item)
    }

    method PartialFileSize(temp: Path, expected: nat) returns (size: nat, r: Result)
      ensures r == Done ==> size <= expected
      ensures r == Done ==> size == if temp in vol.fs && vol.fs[temp].File? then |vol.fs[temp].data| else 0
      ensures r == Done || r == Error(PartialIsDirectory) || r == Error(PartialTooLarge) || r == Error(Io(NotDir))
      ensures IsDir(vol.fs, temp) <==> r == Error(PartialIsDirectory)
      ensures Obstructed(vol.fs, temp) <==> r == Error(Io(NotDir))
      ensures r == Error(PartialTooLarge) <==> IsFile(vol.fs, temp) && |vol.fs[temp].data| > expected
    {
      if Obstructed(vol.fs, temp) { return 0, Error(Io(NotDir)); }
      if temp !in vol.fs { return 0, Done; }
      if vol.fs[temp] == Dir { return 0, Error(PartialIsDirectory); }
      if |vol.fs[temp].data| > expected { return 0, Error(PartialTooLarge); }
      return |vol.fs[temp].data|, Done;
    }

    lemma InvValid()
      requires Inv()
      ensures vol.Valid() && (!vol.disturbed ==> !vol.dead)
    {}

    method ReadFault() returns (faulty: bool)
      requires Inv()
      modifies vol`disturbed
      ensures Inv() && (old(vol.disturbed) ==> vol.disturbed)
      ensures faulty ==> vol.disturbed
    {
      faulty := vol.ReadFault();
    }

    /** One write of the copy loop: the temporary file stays a prefix of the source, whatever part of it is written. */
    method WriteBlock(item: CopyItem, copied: nat, block: Bytes) returns (e: Errno)
      requires Inv() && !vol.dead && Matches(item) && status != Completed && rows[item.id].status != Completed
      requires item.temp in vol.fs && copied + |block| <= item.size
      requires vol.fs[item.temp] == File(Original(G(), rows[item.id])[..copied])
      requires block == Original(G(), rows[item.id])[copied..copied + |block|]
      modifies vol
      ensures Inv() && (old(vol.disturbed) ==> vol.disturbed)
      ensures OnlyTemp(old(vol.fs), vol.fs, item.temp)
      ensures vol.dead <==> e == Crashed
      ensures e == Ok ==> item.temp in vol.fs && vol.fs[item.temp] == File(Original(G(), rows[item.id])[..copied + |block|])
      ensures e != Ok ==> vol.disturbed
    {
      hide Sound, Splice, WellFormed, Finished, Original, DoneBytes, DoneItems, Sizes, Worker.Counted, Worker.Admitted, CountsFit;
      ghost var before, want := vol.fs, Original(G(), rows[item.id]);
      SourceIsThere(item.id);
      var n;
      e, n := vol.WriteAt(item.temp, copied, block);
      BlockPart(want, copied, block, n);
      TempWriteKeepsSound(G(), before, rows, cleared, item.id, want[..copied + n]);
    }

    lemma BlockPart(want: Bytes, copied: nat, block: Bytes, n: nat)
      requires copied + |block| <= |want| && block == want[copied..copied + |block|] && n <= |block|
      ensures Splice(want[..copied], copied, block[..n]) == want[..copied + n]
    {
      assert block[..n] == want[copied..copied + n];
      SpliceOfPrefix(want, copied, copied, n);
    }

    lemma SourceIsThere(i: nat)
      requires Inv() && i < |rows| && rows[i].status != Completed
      ensures rows[i].source in vol.fs && vol.fs[rows[i].source] == File(Original(G(), rows[i]))
      ensures |Original(G(), rows[i])| == rows[i].size
    {
      assert GoodRow(G(), rows[i]);
    }

    lemma OnlyRowCountsSame(rows: seq<Row>, i: nat, s: Status, processed: nat)
      requires i < |rows| && rows[i].status != Completed && s !in {Completed, Conflict}
      ensures var after := rows[i := rows[i].(status := s, processed := processed)];
        && Sizes(after) == Sizes(rows) && DoneBytes(after) == DoneBytes(rows) && DoneItems(after) == DoneItems(rows)
        && (NoConflict(rows) ==> NoConflict(after))
    {
      CountsUpdate(rows, i, rows[i].(status := s, processed := processed));
    }

    lemma RowStaysClear(i: nat, s: Status, processed: nat)
      requires i < |rows| && s != Conflict
      ensures NoConflict(rows) ==> NoConflict(rows[i := rows[i].(status := s, processed := processed)])
    {}

    /** What the copy loop keeps. */
    ghost predicate Copying(item: CopyItem, copied: nat, base: nat, items: nat)
      reads this, vol
    {
      && Inv() && status != Completed && Matches(item.(processed := copied))
      && (!vol.dead ==>
        && rows[item.id].status != Completed && NoConflict(rows)
        && item.temp in vol.fs && vol.fs[item.temp] == File(Original(G(), rows[item.id])[..copied])
        && base == DoneBytes(rows) && items == DoneItems(rows) && reported <= base + copied)
    }

    predicate RowIs(i: nat, s: Status)
      reads this`rows
    {
      i < |rows| && rows[i].status == s
    }

    /** A throttled progress report from the copy loop. */
    method Report(item: CopyItem, copied: nat, base: nat, items: nat)
      requires Copying(item, copied, base, items)
      modifies this`rows, this`processedBytes, this`processedItems, this`reported, vol
      ensures Copying(item, copied, base, items) && vol.fs == old(vol.fs)
      ensures OnlyRow(old(rows), rows, item.id)
      ensures old(vol.disturbed) ==> vol.disturbed
      ensures old(vol.dead) ==> vol.dead
      ensures !vol.dead ==>
        && RowIs(item.id, Running) && rows[item.id].processed == copied
        && processedBytes == base + copied && processedItems == items
    {
      hide Worker.Inv, OnlyRow, NoConflict;
      RowStaysClear(item.id, Running, copied);
      UpdateItemStatus(item.id, Running, copied);
      if !vol.dead {
        OnlyRowCounts(old(rows), rows, item.id);
        CountsBound(rows, item.id);
      }
      UpdateJobProgress(base + copied, items, Some(item.id));
    }

    /** Row `i` stands paused, its progress being what its partial file holds. */
    ghost predicate PausedAt(i: nat)
      reads this, vol
    {
      RowIs(i, Paused) && IsFile(vol.fs, rows[i].temp) && rows[i].processed == |vol.fs[rows[i].temp].data|
    }

    /** Between two blocks the worker may look at the job's status: it stops when the job is cancelled or paused. */
    method CheckStopped(item: CopyItem, copied: nat, base: nat, items: nat) returns (stopped: bool, r: Result)
      requires Copying(item, copied, base, items)
      modifies this`rows, this`status, this`steered, vol
      ensures Copying(item, copied, base, items) && vol.fs == old(vol.fs) && Kept()
      ensures OnlyRow(old(rows), rows, item.id)
      ensures r == Done || (stopped && r == JobPaused)
      ensures stopped && r == Done ==> status == Cancelled
      ensures old(status) == Cancelled ==> status == Cancelled
      ensures r == JobPaused && !vol.dead ==> status == Paused && PausedAt(item.id)
      ensures stopped ==> steered || old(status) in {Paused, Cancelled}
    {
      hide Worker.Inv, OnlyRow, NoConflict, DoneBytes, DoneItems, Sizes;
      OnlyRowSame(rows, item.id);
      stopped, r := false, Done;
      if * { stopped, r := LookAtStatus(item, copied, base, items); }
    }

    /** The look itself: the copy goes on exactly if the job is neither cancelled nor paused. */
    method LookAtStatus(item: CopyItem, copied: nat, base: nat, items: nat) returns (stopped: bool, r: Result)
      requires Copying(item, copied, base, items)
      modifies this`rows, this`status, this`steered, vol
      ensures Copying(item, copied, base, items) && vol.fs == old(vol.fs) && Kept()
      ensures OnlyRow(old(rows), rows, item.id)
      ensures stopped <==> status in {Cancelled, Paused}
      ensures r == if stopped && status == Paused then JobPaused else Done
      ensures old(status) == Cancelled ==> status == Cancelled
      ensures r == JobPaused && !vol.dead ==> PausedAt(item.id)
      ensures r == Done ==> rows == old(rows)
    {
      hide Worker.Inv, OnlyRow, NoConflict, DoneBytes, DoneItems, Sizes;
      OnlyRowSame(rows, item.id);
      var s := GetJobStatus();
      if s == Cancelled { return true, Done; }
      if s == Paused {
        if !vol.dead { OnlyRowCountsSame(rows, item.id, Paused, copied); }
        UpdateItemStatus(item.id, Paused, copied);
        if !vol.dead { StagedSize(item.id, copied); }
        return true, JobPaused;
      }
      return false, Done;
    }

    lemma StagedSize(i: nat, copied: nat)
      requires Inv() && RowIs(i, Paused) && rows[i].processed == copied <= rows[i].size
      requires rows[i].temp in vol.fs && vol.fs[rows[i].temp] == File(Original(G(), rows[i])[..copied])
      ensures PausedAt(i)
    {
      SourceIsThere(i);
    }

    /** One turn of the read-write loop: a block, or the end of the source. */
    method CopyBlock(item: CopyItem, at: nat, base: nat, items: nat) returns (copied: nat, eof: bool, r: Result)
      requires Copying(item, at, base, items)
      modifies this`rows, this`processedBytes, this`processedItems, this`reported, vol
      ensures Inv() && status != Completed && Matches(item.(processed := copied)) && Kept()
      ensures OnlyRow(old(rows), rows, item.id) && OnlyTemp(old(vol.fs), vol.fs, item.temp)
      ensures r == Done || r.Error?
      ensures r == Done ==> Copying(item, copied, base, items) && (eof || copied > at)
      ensures r == Done && eof ==> copied == item.size
      ensures r != Done ==> vol.disturbed && (!vol.dead ==> NoConflict(rows))
      ensures copied >= at
    {
      hide Worker.Inv, OnlyRow, NoConflict, DoneBytes, DoneItems, Sizes, OnlyTemp;
      copied, eof, r := at, false, Done;
      OnlyRowSame(rows, item.id);
      OnlyTempSame(vol.fs, item.temp);
      if vol.dead {
        InvValid();
        return at, false, Error(Io(Crashed));
      }
      SourceIsThere(item.id);
      var bytes := vol.fs[item.source].data;
      if at >= |bytes| { return at, true, Done; }
      var faulty := ReadFault();
      if faulty { return at, false, Error(Io(Fault)); }
      var n: nat :| 0 < n <= BLOCK && at + n <= |bytes|;
      var e := WriteBlock(item.(processed := at), at, bytes[at..at + n]);
      if e != Ok { return at, false, Error(Io(e)); }
      copied := at + n;
      assert |bytes[at..at + n]| == n;
      if * { Report(item, copied, base, items); }
    }

    /** The read-write loop, from `item.processed` on. It ends at the end of the source unless it is stopped. */
    method CopyBlocks(item: CopyItem, base: nat, items: nat) returns (copied: nat, stopped: bool, r: Result)
      requires Copying(item, item.processed, base, items)
      modifies this`rows, this`status, this`steered, this`processedBytes, this`processedItems, this`reported, vol
      ensures Inv() && status != Completed && Matches(item.(processed := copied)) && Kept()
      ensures OnlyRow(old(rows), rows, item.id) && OnlyTemp(old(vol.fs), vol.fs, item.temp)
      ensures !vol.dead ==> NoConflict(rows)
      ensures stopped && r == Done ==> status == Cancelled
      ensures old(status) == Cancelled ==> status == Cancelled
      ensures !stopped ==> r == Done && Copying(item, copied, base, items) && copied == item.size
      ensures stopped ==> vol.disturbed || steered || old(status) in {Paused, Cancelled}
      ensures r == Done || r == JobPaused || r.Error?
      ensures r.Error? ==> vol.disturbed
      ensures r == JobPaused && !vol.dead ==> status == Paused && PausedAt(item.id)
    {
      hide Worker.Inv, OnlyRow, NoConflict, DoneBytes, DoneItems, Sizes, OnlyTemp, Worker.PausedAt;
      copied, stopped, r := item.processed, false, Done;
      OnlyRowSame(rows, item.id);
      OnlyTempSame(vol.fs, item.temp);
      while true
        invariant Copying(item, copied, base, items) && Kept()
        invariant OnlyRow(old(rows), rows, item.id) && OnlyTemp(old(vol.fs), vol.fs, item.temp)
        invariant r == Done && (old(status) == Cancelled ==> status == Cancelled)
        decreases item.size - copied
      {
        ghost var mid := rows;
        stopped, r := CheckStopped(item, copied, base, items);
        OnlyRowTransitive(old(rows), mid, rows, item.id);
        if stopped { return; }
        ghost var before, at := vol.fs, copied;
        mid := rows;
        var eof;
        copied, eof, r := CopyBlock(item, copied, base, items);
        OnlyRowTransitive(old(rows), mid, rows, item.id);
        OnlyTempTransitive(old(vol.fs), before, vol.fs, item.temp);
        if r != Done { return copied, true, r; }
        if eof { break; }
      }
    }

    // ----- File steps of the worker, each keeping the invariant -----

    method MkdirAll(p: Path) returns (e: Errno)
      requires Inv() && status != Completed && !(job.source <= p)
      modifies vol
      ensures Inv() && (old(vol.disturbed) ==> vol.disturbed)
      ensures old(vol.dead) ==> vol.dead && vol.fs == old(vol.fs)
      ensures (e == Crashed <==> vol.dead) && (e == Ok || e == NotDir || e == Fault || e == Crashed) && (e == Fault ==> vol.disturbed)
      ensures Grown(old(vol.fs), vol.fs, p)
      ensures e == Ok ==> IsDir(vol.fs, p)
      ensures e == NotDir ==> FileOnPath(old(vol.fs), p)
    {
      e := vol.MkdirAll(p);
      MkdirKeepsSound(G(), old(vol.fs), vol.fs, rows, cleared, p);
    }

    method OpenTemp(item: CopyItem, truncate: bool) returns (e: Errno)
      requires Inv() && status != Completed && Matches(item)
      modifies vol
      ensures Inv() && (old(vol.disturbed) ==> vol.disturbed) && (e == Fault ==> vol.disturbed)
      ensures Did(old(vol.fs), vol.fs, old(vol.dead), vol.dead, e,
                  OpenErr(old(vol.fs), item.temp), Opened(old(vol.fs), item.temp, truncate))
    {
      e := vol.OpenFile(item.temp, truncate);
      if OpenErr(old(vol.fs), item.temp) == Ok && vol.fs != old(vol.fs) {
        TempWriteKeepsSound(G(), old(vol.fs), rows, cleared, item.id, []);
      }
    }

    /** The rename that makes a copy visible. It replaces nothing. */
    method Publish(item: CopyItem) returns (e: Errno)
      requires Inv() && status != Completed && Matches(item) && !vol.dead
      requires item.temp in vol.fs && vol.fs[item.temp] == File(Original(G(), rows[item.id])) && NoConflict(rows)
      modifies vol
      ensures Inv() && (old(vol.disturbed) ==> vol.disturbed)
      ensures e == Ok ==> item.destination !in old(vol.fs)
      ensures vol.fs == old(vol.fs) ||
        (item.destination !in old(vol.fs) && vol.fs == (old(vol.fs) - {item.temp})[item.destination := old(vol.fs)[item.temp]])
      ensures e == Ok ==> vol.fs == (old(vol.fs) - {item.temp})[item.destination := old(vol.fs)[item.temp]]
      ensures vol.dead <==> e == Crashed
      ensures e != Ok && !vol.dead ==> vol.fs == old(vol.fs)
      ensures !vol.dead ==>
        if e == Fault then vol.disturbed && vol.fs == old(vol.fs)
        else e == RenameErr(old(vol.fs), item.temp, item.destination, SameDevice(item))
    {
      hide Original, DoneBytes, DoneItems, Sizes, Sound, Finished, Moved, WellFormed;
      ghost var before := vol.fs;
      RenameApart(item);
      SoundIsWellFormed();
      e := vol.RenameNoReplace(item.temp, item.destination);
      if RenameErr(before, item.temp, item.destination, SameDevice(item)) == Ok {
        MovedFile(before, item.temp, item.destination);
        if vol.fs != before {
          RenameKeepsSound(G(), before, vol.fs, rows, cleared, item.id);
        }
      }
    }

    lemma SoundIsWellFormed()
      requires Inv()
      ensures WellFormed(vol.fs)
    {}

    lemma RenameApart(item: CopyItem)
      requires Inv() && Matches(item)
      ensures item.temp != [] && !(item.temp <= item.destination)
    {
      RowIsGood(item.id);
      hide Worker.Inv, TempOf, Original;
    }

    predicate SameDevice(item: CopyItem)
      reads this
    {
      vol.device(item.temp) == vol.device(item.destination)
    }

    ghost predicate WayFor(fs: Tree, item: CopyItem)
      reads this
    {
      Way(fs, vol.device, item.temp, item.destination)
    }

    ghost predicate ClearFor(fs: Tree, item: CopyItem)
      reads this
    {
      Clear(fs, vol.device, item.temp, item.destination)
    }

    lemma ItemIsBeside(item: CopyItem)
      requires Inv() && Matches(item)
      ensures Beside(item.temp, item.destination) && TEMP_DIR !in item.destination
    {
      assert GoodRow(G(), rows[item.id]);
    }

    lemma TempIsPrefix(item: CopyItem)
      requires Inv() && Matches(item) && IsFile(vol.fs, item.temp)
      ensures vol.fs[item.temp].data <= Original(G(), rows[item.id])
      ensures |Original(G(), rows[item.id])| == item.size
    {
      assert GoodRow(G(), rows[item.id]);
    }

    lemma TempFits(item: CopyItem)
      requires Inv() && Matches(item)
      ensures IsFile(vol.fs, item.temp) ==> |vol.fs[item.temp].data| <= item.size
    {
      if IsFile(vol.fs, item.temp) { TempIsPrefix(item); }
    }

    lemma TempDirIsThere(item: CopyItem)
      requires Inv() && Matches(item) && IsFile(vol.fs, item.temp)
      ensures IsDir(vol.fs, Parent(item.temp)) && Parent(item.temp) != item.temp
    {
      assert GoodRow(G(), rows[item.id]);
    }

    lemma TargetsAreOutside(item: CopyItem)
      requires Inv() && Matches(item)
      ensures !(job.source <= Parent(item.temp)) && !(job.source <= Parent(item.destination))
      ensures item.temp != item.destination && item.destination != []
      ensures Parent(item.temp) <= item.temp && Parent(item.destination) <= item.destination
    {
      RowIsGood(item.id);
      hide Worker.Inv, TempOf, Original;
    }

    lemma RowIsGood(i: nat)
      requires Inv() && i < |rows|
      ensures GoodRow(G(), rows[i])
    {
      hide GoodRow, Fit, WellFormed, OthersKept, FilesAccounted;
    }

    /**
     The end of a copy: the size check, the destination's directory, the rename. Only the size is compared, yet what
     appears at the destination is exactly the source's bytes.
     */
    method VerifyAndPublish(item: CopyItem) returns (r: Result)
      requires Inv() && status != Completed && Matches(item)
      requires !vol.dead ==> IsFile(vol.fs, item.temp) && NoConflict(rows)
      modifies vol
      ensures Inv() && (old(vol.disturbed) ==> vol.disturbed)
      ensures old(vol.dead) ==> vol.dead && vol.fs == old(vol.fs)
      ensures r == Done ==> !vol.dead && item.destination !in old(vol.fs)
      ensures r == Done ==> item.destination in vol.fs
      ensures Appeared(old(vol.fs), item)
      ensures r == Done ==> IsDir(vol.fs, Parent(item.temp))
      ensures r == Done || r.Error?
      ensures Staged(old(vol.fs), vol.fs, item.temp, item.destination)
      ensures r == Done ==> WayFor(old(vol.fs), item)
      ensures r.Error? && !vol.disturbed && item.destination in vol.fs ==> item.destination in old(vol.fs)
      ensures !old(vol.dead) && WayFor(old(vol.fs), item) && |old(vol.fs)[item.temp].data| == item.size && !vol.disturbed ==>
        r == Done
    {
      hide Worker.Inv, Worker.WayFor, Staged, Grown;
      ghost var before := vol.fs;
      TargetsAreOutside(item);
      InvValid();
      StagedSame(before, item);
      if vol.dead { return Error(Io(Crashed)); }
      if |vol.fs[item.temp].data| != item.size { return Error(VerificationFailed); }
      TempIsPrefix(item);
      PrefixOfFullSize(vol.fs[item.temp].data, Original(G(), rows[item.id]));
      var e := MkdirAll(Parent(item.destination));
      ghost var mid := vol.fs;
      MadeWay(before, item, e);
      MadeNoDestination(before, item);
      InvValid();
      if e != Ok { return Error(Io(e)); }
      TempDirIsThere(item);
      e := Publish(item);
      Published(before, mid, item);
      InvValid();
      if e != Ok { return Error(Io(e)); }
      return Done;
    }

    /** Whatever appears at the item's destination, however the call ends, is the whole original. */
    ghost predicate Appeared(before: Tree, item: CopyItem)
      requires item.id < |rows|
      reads this, vol
    {
      item.destination in vol.fs && item.destination !in before ==>
        vol.fs[item.destination] == File(Original(G(), rows[item.id]))
    }

    lemma MadeNoDestination(before: Tree, item: CopyItem)
      requires Grown(before, vol.fs, Parent(item.destination)) && item.destination != []
      ensures item.destination in vol.fs ==> item.destination in before
    {}

    lemma StagedSame(fs: Tree, item: CopyItem)
      ensures Staged(fs, fs, item.temp, item.destination)
    {}

    /** What making the destination's directory says about the way to it. */
    lemma MadeWay(before: Tree, item: CopyItem, e: Errno)
      requires Inv() && Matches(item) && Grown(before, vol.fs, Parent(item.destination))
      requires e == NotDir ==> FileOnPath(before, Parent(item.destination))
      requires IsFile(before, item.temp)
      ensures Staged(before, vol.fs, item.temp, item.destination)
      ensures e == NotDir ==> !WayFor(before, item)
      ensures vol.fs[item.temp] == before[item.temp]
      ensures RenameErr(vol.fs, item.temp, item.destination, SameDevice(item)) == Ok ==> WayFor(before, item)
      ensures WayFor(before, item) && IsDir(vol.fs, Parent(item.destination)) ==>
        RenameErr(vol.fs, item.temp, item.destination, SameDevice(item)) == Ok
    {
      hide Worker.Inv, Beside, Way, FileOnPath, RenameErr, WellFormed;
      TargetsAreOutside(item);
      ItemIsBeside(item);
      PlanFacts();
      GrownIsStaged(before, vol.fs, Parent(item.destination), item.temp, item.destination);
      RenameNeedsWay(before, vol.fs, vol.device, item.temp, item.destination);
      if WayFor(before, item) { WayHasNoFile(before, vol.device, item.temp, item.destination); }
    }

    lemma Published(before: Tree, mid: Tree, item: CopyItem)
      requires Staged(before, mid, item.temp, item.destination) && IsFile(mid, item.temp)
      requires vol.fs == mid || (item.destination !in mid && vol.fs == (mid - {item.temp})[item.destination := mid[item.temp]])
      ensures Staged(before, vol.fs, item.temp, item.destination)
    {
      if vol.fs != mid { RenamedIsStaged(mid, vol.fs, item.temp, item.destination); }
      StagedTransitive(before, mid, vol.fs, item.temp, item.destination);
    }

    /** Removes the temporary directory if it is empty; the outcome is ignored. */
    method RemoveTempDir(item: CopyItem)
      requires Inv() && status != Completed && Matches(item)
      requires !vol.dead ==> IsDir(vol.fs, Parent(item.temp))
      modifies vol
      ensures Inv() && (old(vol.disturbed) ==> vol.disturbed)
      ensures old(vol.dead) ==> vol.dead
      ensures vol.fs == old(vol.fs) || vol.fs == old(vol.fs) - {Parent(item.temp)}
      ensures forall p :: IsFile(old(vol.fs), p) ==> p in vol.fs
      ensures Worked(old(vol.fs), vol.fs, item.temp, item.destination)
      ensures !vol.disturbed ==> Tidy(vol.fs, Parent(item.temp))
    {
      hide Sound, Worked, Finished, DoneBytes, DoneItems, Sizes;
      ghost var before := vol.fs;
      var d := Parent(item.temp);
      ItemIsBeside(item);
      var _ := vol.Remove(d);
      if vol.fs != before {
        RmdirKeepsSound(G(), before, rows, cleared, d);
        RmdirIsWorked(before, item.temp, item.destination);
      } else {
        StagedSame(before, item);
        StagedIsWorked(before, before, item.temp, item.destination);
      }
    }

    /** Removes a destination that a policy or the user chose to overwrite. */
    method ClearDestination(d: Path) returns (e: Errno)
      requires Inv() && status != Completed && d != [] && Apart(job.source, d) && d in Chosen()
      requires !vol.dead ==> forall i :: 0 <= i < |rows| && CopiedRow(rows[i]) ==> !(d <= rows[i].destination)
      modifies this`cleared, vol
      ensures Inv() && (old(vol.disturbed) ==> vol.disturbed)
      ensures cleared == old(cleared) + {d}
      ensures old(vol.dead) ==> vol.dead && vol.fs == old(vol.fs)
      ensures (e == Crashed <==> vol.dead) && (e == Ok || e == Fault || e == Crashed) && (e == Fault ==> vol.disturbed)
      ensures Pruned(old(vol.fs), vol.fs, d)
      ensures e == Ok ==> Under(vol.fs, d) == {}
    {
      ghost var wasDead := vol.dead;
      e := vol.RemoveAll(d);
      if !wasDead {
        ClearKeepsSound(G(), old(vol.fs), vol.fs, rows, cleared, d);
      } else {
        ClearedGrowsSound(G(), vol.fs, rows, cleared, d);
      }
      cleared := cleared + {d};
    }

    // ----- Conflicts with what is already at the destination -----

    /** May a whole-path overwrite of `d` go ahead? */
    ghost predicate MayClear(d: Path)
      reads this
    {
      d in Chosen() && Apart(job.source, d) && forall i :: 0 <= i < |rows| && CopiedRow(rows[i]) ==> !(d <= rows[i].destination)
    }

    method ResolveConflictDestination(source: Path, destination: Path) returns (t: Target)
      requires Inv() && status != Completed && destination != []
      requires !vol.dead && job.policy == Overwrite && destination in vol.fs ==> MayClear(destination)
      modifies this`cleared, vol
      ensures Inv() && (old(vol.disturbed) ==> vol.disturbed)
      ensures old(vol.dead) ==> vol.dead && vol.fs == old(vol.fs)
      ensures destination !in old(vol.fs) ==> t == if Obstructed(old(vol.fs), destination) then Bad(Io(NotDir)) else Free(destination)
      ensures destination in old(vol.fs) ==>
        match job.policy
        case Ask => t == AskUser
        case Skip => t == SkipIt
        case SkipIdentical =>
          && (t.SkipIt? || t.Bad?)
          && (t.SkipIt? <==> IsFile(vol.fs, source) && IsFile(vol.fs, destination) && vol.fs[source] == vol.fs[destination])
        case Overwrite =>
          if vol.dead then t == Bad(Io(Crashed)) else t == Free(destination) || (t == Bad(Io(Fault)) && vol.disturbed)
        case Rename =>
          if t.Free? then NextFree(vol.fs, destination, Some(t.path)) else t.Bad? && NextFree(vol.fs, destination, None)
        case CancelTransfer => t == Bad(DestinationExists)
      ensures t.Free? && !vol.dead ==> t.path !in vol.fs
      ensures t.Free? && destination in old(vol.fs) && job.policy == Overwrite ==> Under(vol.fs, destination) == {}
      ensures job.policy != Overwrite || destination !in old(vol.fs) ==> vol.fs == old(vol.fs) && vol.dead == old(vol.dead) && cleared == old(cleared)
      ensures Pruned(old(vol.fs), vol.fs, destination)
    {
      if Obstructed(vol.fs, destination) { return Bad(Io(NotDir)); }
      if destination !in vol.fs { return Free(destination); }
      match job.policy
      case Ask => return AskUser;
      case Skip => return SkipIt;
      case SkipIdentical => t := CompareForSkip(source, destination);
      case Overwrite =>
        if vol.dead { return Bad(Io(Crashed)); }
        var e := ClearDestination(destination);
        if e != Ok { return Bad(Io(e)); }
        assert destination !in Under(vol.fs, destination);
        return Free(destination);
      case Rename =>
        var r := NextAvailablePath(vol.fs, destination);
        if r.None? { return Bad(NoFreeName); }
        return Free(r.value);
      case CancelTransfer => return Bad(DestinationExists);
    }

    /** Skips only a destination that is byte for byte the source. */
    method CompareForSkip(source: Path, destination: Path) returns (t: Target)
      requires destination in vol.fs
      ensures t.SkipIt? || t.Bad?
      ensures t.SkipIt? <==> IsFile(vol.fs, source) && IsFile(vol.fs, destination) && vol.fs[source] == vol.fs[destination]
    {
      if source !in vol.fs { return Bad(SourceMissing); }
      if vol.fs[source] == Dir || vol.fs[destination] == Dir { return Bad(SizesDiffer); }
      if |vol.fs[source].data| != |vol.fs[destination].data| { return Bad(SizesDiffer); }
      if vol.fs[source].data != vol.fs[destination].data { return Bad(ContentsDiffer); }
      return SkipIt;
    }

    // ----- One item -----

    /** Opens the temporary file where the copy is to go on: empty, or with the bytes already copied. */
    method StageTemp(item: CopyItem, base: nat, items: nat) returns (r: Result)
      requires Inv() && status != Completed && Matches(item)
      requires !vol.dead ==>
        && rows[item.id].status != Completed && NoConflict(rows)
        && (item.processed > 0 ==> IsFile(vol.fs, item.temp) && |vol.fs[item.temp].data| == item.processed)
        && base == DoneBytes(rows) && items == DoneItems(rows) && reported <= base + item.processed
      modifies vol
      ensures Inv() && (old(vol.disturbed) ==> vol.disturbed)
      ensures old(vol.dead) ==> vol.dead && vol.fs == old(vol.fs)
      ensures r == Done ==> !vol.dead && Copying(item, item.processed, base, items) && Matches(item) && IsFile(vol.fs, item.temp)
      ensures r == Done || r.Error?
      ensures Staged(old(vol.fs), vol.fs, item.temp, item.temp)
      ensures r == Done ==> !IsDir(old(vol.fs), item.temp)
      ensures !vol.disturbed && ClearFor(old(vol.fs), item) ==> r == Done
    {
      hide Worker.Inv, NoConflict, DoneBytes, DoneItems, Sizes, Staged, Way, FileOnPath;
      ghost var before := vol.fs;
      TargetsAreOutside(item);
      StagedSame2(before, item);
      InvValid();
      if vol.dead { return Error(Io(Crashed)); }
      SourceIsThere(item.id);
      var e := MkdirAll(Parent(item.temp));
      MadeTempDir(before, item, e);
      InvValid();
      if e != Ok { return Error(Io(e)); }
      SourceIsThere(item.id);
      if item.source !in vol.fs { return Error(SourceMissing); }
      ghost var mid := vol.fs;
      e := OpenTemp(item, item.processed == 0);
      TempOpened(before, mid, item);
      InvValid();
      if e != Ok { return Error(Io(e)); }
      TempIsPrefix(item);
      return Done;
    }

    lemma StagedSame2(fs: Tree, item: CopyItem)
      ensures Staged(fs, fs, item.temp, item.temp)
    {}

    /** What making the temporary directory says about what was in the way. */
    lemma MadeTempDir(before: Tree, item: CopyItem, e: Errno)
      requires Inv() && Matches(item) && Grown(before, vol.fs, Parent(item.temp))
      requires e == NotDir ==> FileOnPath(before, Parent(item.temp))
      requires e == Ok ==> IsDir(vol.fs, Parent(item.temp))
      ensures Staged(before, vol.fs, item.temp, item.temp)
      ensures e == NotDir ==> !ClearFor(before, item)
      ensures IsDir(vol.fs, item.temp) <==> IsDir(before, item.temp)
      ensures e == Ok && !IsDir(before, item.temp) ==> OpenErr(vol.fs, item.temp) == Ok
    {
      hide Worker.Inv, Way, FileOnPath, WellFormed;
      TargetsAreOutside(item);
      ItemIsBeside(item);
      GrownIsStaged(before, vol.fs, Parent(item.temp), item.temp, item.temp);
      if ClearFor(before, item) { WayHasNoFile(before, vol.device, item.temp, item.destination); }
      OnTheWayToBeside(item.destination, item.temp, item.destination);
    }

    lemma TempOpened(before: Tree, mid: Tree, item: CopyItem)
      requires Staged(before, mid, item.temp, item.temp)
      requires vol.fs == mid || (!IsDir(mid, item.temp) && vol.fs == mid[item.temp := File([])])
      ensures Staged(before, vol.fs, item.temp, item.temp)
    {
      OpenedIsStaged(mid, vol.fs, item.temp, []);
      StagedTransitive(before, mid, vol.fs, item.temp, item.temp);
    }

    /** From the staged item to the published copy. */
    method CopyStaged(item: CopyItem, base: nat, items: nat) returns (copied: nat, r: Result)
      requires Copying(item, item.processed, base, items)
      modifies this`rows, this`status, this`steered, this`processedBytes, this`processedItems, this`reported, vol
      ensures Inv() && status != Completed && Matches(item.(processed := copied)) && Kept()
      ensures OnlyRow(old(rows), rows, item.id)
      ensures Worked(old(vol.fs), vol.fs, item.temp, item.destination)
      ensures !vol.dead ==> NoConflict(rows)
      ensures r == Done ==> status == Cancelled || (Copied(item, copied) && WayFor(old(vol.fs), item))
      ensures Appeared(old(vol.fs), item)
      ensures old(status) == Cancelled ==> status == Cancelled
      ensures r == Done && !vol.dead && status != Cancelled ==> reported <= base + copied
      ensures r == Done || r == JobPaused || r.Error?
      ensures (WayFor(old(vol.fs), item) && !vol.disturbed && !steered && old(status) !in {Paused, Cancelled}) ==> r == Done
      ensures WayFor(old(vol.fs), item) && !vol.disturbed ==> !r.Error?
      ensures r == JobPaused ==> vol.disturbed || steered || old(status) in {Paused, Cancelled}
      ensures r == JobPaused ==> Staged(old(vol.fs), vol.fs, item.temp, item.temp)
      ensures r == JobPaused && !vol.dead ==> status == Paused && PausedAt(item.id)
      ensures r == Done && status != Cancelled && !vol.disturbed ==> Tidy(vol.fs, Parent(item.temp))
      ensures r.Error? && !vol.disturbed && item.destination in vol.fs ==> item.destination in old(vol.fs)
    {
      hide Worker.Inv, OnlyRow, NoConflict, DoneBytes, DoneItems, Sizes, Staged, Worked, Way, OnlyTemp, Worker.PausedAt, Tidy;
      ghost var before := vol.fs;
      var stopped;
      copied, stopped, r := CopyBlocks(item, base, items);
      ghost var mid := vol.fs;
      BlocksWritten(before, mid, item);
      if stopped { return; }
      InvValid();
      if !vol.dead { SourceIsThere(item.id); }
      assert !vol.dead ==> |vol.fs[item.temp].data| == item.size;
      r := VerifyAndPublish(item);
      ghost var late := vol.fs;
      PublishedAfter(before, mid, late, item);
      if r != Done { return; }
      RemoveTempDir(item);
      StagedThenWorked(before, late, vol.fs, item.temp, item.destination);
    }

    lemma BlocksWritten(before: Tree, mid: Tree, item: CopyItem)
      requires OnlyTemp(before, mid, item.temp) && Inv() && Matches(item)
      ensures Staged(before, mid, item.temp, item.destination) && Worked(before, mid, item.temp, item.destination)
      ensures Staged(before, mid, item.temp, item.temp)
      ensures WayFor(before, item) <==> WayFor(mid, item)
      ensures item.destination in mid <==> item.destination in before
    {
      hide Worker.Inv, Way;
      WrittenIsStaged(before, mid, item.temp, item.destination);
      StagedIsWorked(before, mid, item.temp, item.destination);
      WrittenIsStaged(before, mid, item.temp, item.temp);
      ItemIsBeside(item);
      StagedKeepsWay(before, mid, vol.device, item.temp, item.destination);
    }

    lemma PublishedAfter(before: Tree, mid: Tree, late: Tree, item: CopyItem)
      requires Staged(before, mid, item.temp, item.destination) && Staged(mid, late, item.temp, item.destination)
      ensures Staged(before, late, item.temp, item.destination) && Worked(before, late, item.temp, item.destination)
    {
      StagedTransitive(before, mid, late, item.temp, item.destination);
      StagedIsWorked(before, late, item.temp, item.destination);
    }

    /** The item's whole source is at its destination. */
    ghost predicate Copied(item: CopyItem, copied: nat)
      requires item.id < |rows|
      reads this, vol
    {
      copied == item.size && item.destination in vol.fs && vol.fs[item.destination] == File(Original(G(), rows[item.id]))
    }

    /** Where a taken-up item goes and how much of it is on disk: the conflict check, or a second look at the partial file. */
    method PrepareItem(item0: CopyItem) returns (item: CopyItem, r: Result)
      requires Inv() && status != Completed && Ready(item0)
      modifies this`rows, this`status, this`steered, this`cleared, vol
      ensures Inv() && status != Completed && Matches(item)
      ensures item == item0.(processed := item.processed) && vol.fs == old(vol.fs)
      ensures OnlyRow(old(rows), rows, item.id)
      ensures (old(vol.disturbed) ==> vol.disturbed) && (old(steered) ==> steered)
      ensures old(vol.dead) ==> vol.dead
      ensures r != AskedUser ==> status == old(status) && NoConflict(rows)
      ensures r == AskedUser ==> item.destination in vol.fs && (!vol.dead ==> status == NeedsAttention && !NoConflict(rows))
      ensures r == Done && item.processed > 0 ==> IsFile(vol.fs, item.temp) && |vol.fs[item.temp].data| == item.processed
      ensures r == Done || r == AskedUser || r.Error?
      ensures r == Done && !vol.dead ==> RowIs(item.id, Running) && rows[item.id].processed == item.processed
      ensures r == Done ==> item.processed == if item0.persisted && item0.processed > 0 then OnDisk(vol.fs, item.temp) else 0
      ensures !item0.persisted && job.policy != CancelTransfer ==> (r == AskedUser <==> item0.destination in vol.fs)
      ensures item0.persisted ==> r != AskedUser
      ensures (job.policy != CancelTransfer && !IsDir(vol.fs, item.temp) && !Obstructed(vol.fs, item.temp)
               && (item0.persisted || (item0.destination !in vol.fs && !Obstructed(vol.fs, item0.destination)))) ==> r == Done
    {
      hide Worker.Inv, OnlyRow, NoConflict, ReadyItem, Original, CopiedRow;
      item, r := item0, Done;
      ghost var before := rows;
      ReadyIsFresh(item);
      TakeUp(item);
      ghost var mid := rows;
      OnlyRowSame(rows, item.id);
      if job.policy == CancelTransfer {
        MatchesAnew(item);
        item, r := item.(processed := 0), Error(CancelledByPolicy);
      } else if !item.persisted {
        item, r := CheckConflict(item);
      } else if item.processed > 0 {
        item, r := LookAgain(item);
      }
      OnlyRowTransitive(before, mid, rows, item.id);
    }

    lemma ReadyIsFresh(item: CopyItem)
      requires Ready(item)
      ensures rows != [] && (!item.persisted ==> item.processed == 0)
    {}

    /** A fresh item, out of the way of the finished copies. */
    ghost predicate Fresh(item: CopyItem)
      requires item.id < |rows|
      reads this, vol
    {
      && item.processed == 0 && item.destination != [] && item.temp == TempFor(item.destination)
      && (job.policy != Ask ==> item.destination !in vol.fs)
      && (IsFile(vol.fs, item.destination) ==> Unchanged(G(), vol.fs, item.destination))
      && forall k :: 0 <= k < |rows| && CopiedRow(rows[k]) ==> !(rows[item.id].destination <= rows[k].destination)
    }

    /** The item's row is marked running. */
    method TakeUp(item: CopyItem)
      requires Inv() && status != Completed && Ready(item)
      modifies this`rows, vol
      ensures Inv() && Matches(item) && rows[item.id].status != Completed && NoConflict(rows)
      ensures !vol.dead ==> RowIs(item.id, Running) && rows[item.id].processed == item.processed
      ensures !item.persisted ==> Fresh(item)
      ensures OnlyRow(old(rows), rows, item.id) && vol.fs == old(vol.fs)
      ensures (old(vol.disturbed) ==> vol.disturbed) && (old(vol.dead) ==> vol.dead)
    {
      hide Worker.Inv, OnlyRow, NoConflict, TempFor, Original;
      ghost var before := rows;
      RowStaysClear(item.id, Running, item.processed);
      ReadyIsOpen(item);
      UpdateItemStatus(item.id, Running, item.processed);
      StillOpen(before, item.id);
      if !item.persisted { AskIsClear(before, item); }
    }

    /** A fresh item whose destination exists waits for the user; under the other policies its destination is free. */
    method CheckConflict(item0: CopyItem) returns (item: CopyItem, r: Result)
      requires Inv() && status != Completed && Matches(item0) && rows[item0.id].status != Completed && NoConflict(rows)
      requires Fresh(item0)
      modifies this`rows, this`status, this`steered, this`cleared, vol
      ensures Inv() && status != Completed && Matches(item) && item == item0 && vol.fs == old(vol.fs)
      ensures OnlyRow(old(rows), rows, item.id)
      ensures (old(vol.disturbed) ==> vol.disturbed) && (old(steered) ==> steered)
      ensures old(vol.dead) ==> vol.dead
      ensures r != AskedUser ==> status == old(status) && NoConflict(rows)
      ensures r == AskedUser ==> item.destination in vol.fs && (!vol.dead ==> status == NeedsAttention && !NoConflict(rows))
      ensures r == Done || r == AskedUser || r == Error(Io(NotDir))
      ensures r == AskedUser <==> item0.destination in vol.fs
      ensures r == Done && !vol.dead ==> rows == old(rows)
      ensures item0.destination !in vol.fs && !Obstructed(vol.fs, item0.destination) ==> r == Done
    {
      hide Worker.Inv, OnlyRow, NoConflict;
      item, r := item0, Done;
      OnlyRowSame(rows, item.id);
      var t := ResolveConflictDestination(item.source, item.destination);
      match t
      case Free(d) => item := item.(destination := d, temp := TempFor(d));
      case Bad(cause) => r := Error(cause);  // only a file on the way: the other policies were settled for the whole destination
      case SkipIt => assert false;
      case AskUser =>
        UpdateItemStatus(item.id, Conflict, 0);
        if !vol.dead { RowInConflict(item.id); }
        SetNeedsAttention();
        r := AskedUser;
    }

    method LookAgain(item0: CopyItem) returns (item: CopyItem, r: Result)
      requires Inv() && status != Completed && Matches(item0) && rows[item0.id].status != Completed && NoConflict(rows)
      requires !vol.dead ==> RowIs(item0.id, Running) && rows[item0.id].processed == item0.processed
      modifies this`rows, vol
      ensures Inv() && Matches(item) && item == item0.(processed := item.processed) && vol.fs == old(vol.fs)
      ensures OnlyRow(old(rows), rows, item.id) && NoConflict(rows)
      ensures (old(vol.disturbed) ==> vol.disturbed) && (old(vol.dead) ==> vol.dead)
      ensures r == Done && item.processed > 0 ==> IsFile(vol.fs, item.temp) && |vol.fs[item.temp].data| == item.processed
      ensures r == Done || r.Error?
      ensures r == Done ==> item.processed == OnDisk(vol.fs, item.temp)
      ensures r == Done && !vol.dead ==> RowIs(item.id, Running) && rows[item.id].processed == item.processed
      ensures !IsDir(vol.fs, item.temp) && !Obstructed(vol.fs, item.temp) ==> r == Done
    {
      hide Worker.Inv, OnlyRow, NoConflict;
      item := item0;
      TempFits(item);
      OnlyRowSame(rows, item.id);
      var partial;
      partial, r := PartialFileSize(item.temp, item.size);
      if r != Done { return item.(processed := 0), r; }
      if partial != item.processed {
        item := item.(processed := partial);
        RowStaysClear(item.id, Running, partial);
        UpdateItemStatus(item.id, Running, partial);
      }
    }

    lemma RowInConflict(i: nat)
      requires RowIs(i, Conflict)
      ensures !NoConflict(rows)
    {}

    lemma AskIsClear(before: seq<Row>, item: CopyItem)
      requires Inv() && OnlyRow(before, rows, item.id)
      requires rows[item.id].destination == item.destination && before[item.id].status != Completed
      requires forall k :: 0 <= k < |before| && CopiedRow(before[k]) ==> !(item.destination <= before[k].destination)
      ensures forall k :: 0 <= k < |rows| && CopiedRow(rows[k]) ==> !(rows[item.id].destination <= rows[k].destination)
    {}

    /** One item from start to finish. It is copied whole, or it stays uncompleted. */
    method CopyOne(item0: CopyItem, base: nat, items: nat) returns (copied: nat, r: Result)
      requires Inv() && status != Completed && Ready(item0)
      requires !vol.dead ==> base == DoneBytes(rows) && items == DoneItems(rows) && reported <= base
      modifies this`rows, this`status, this`steered, this`cleared, this`processedBytes, this`processedItems, this`reported, vol
      ensures Inv() && status != Completed && Matches(item0.(processed := copied))
      ensures OnlyRow(old(rows), rows, item0.id)
      ensures Worked(old(vol.fs), vol.fs, item0.temp, item0.destination) && Appeared(old(vol.fs), item0)
      ensures (old(vol.disturbed) ==> vol.disturbed) && (old(steered) ==> steered)
      ensures old(vol.dead) ==> vol.dead && vol.fs == old(vol.fs)
      ensures r != AskedUser ==> (steered || status == old(status)) && (!vol.dead ==> NoConflict(rows))
      ensures r == Done ==> status == Cancelled || (Copied(item0, copied) && ClearFor(old(vol.fs), item0))
      ensures r == Done && !vol.dead && status != Cancelled ==> reported <= base + copied
      ensures (job.policy != CancelTransfer && ClearFor(old(vol.fs), item0)
               && !vol.disturbed && !steered && old(status) !in {Paused, Cancelled}) ==> r == Done
      ensures r == AskedUser && !vol.dead ==> status == NeedsAttention && !NoConflict(rows)
      ensures r != AskedUser && old(status) == Cancelled ==> status == Cancelled
      ensures r == JobPaused ==> vol.disturbed || steered || old(status) in {Paused, Cancelled}
      ensures job.policy != CancelTransfer && ClearFor(old(vol.fs), item0) && !vol.disturbed ==> r == Done || r == JobPaused
      ensures !item0.persisted && job.policy != CancelTransfer ==> (r == AskedUser <==> item0.destination in old(vol.fs))
      ensures !item0.persisted && job.policy != CancelTransfer && r.Error? && !vol.disturbed ==> item0.destination !in vol.fs
      ensures item0.persisted ==> r != AskedUser
      ensures r == Done && status != Cancelled && !vol.disturbed ==> Tidy(vol.fs, Parent(item0.temp))
      ensures r == JobPaused ==> Staged(old(vol.fs), vol.fs, item0.temp, item0.temp)
      ensures r == JobPaused && !vol.dead ==> status == Paused && PausedAt(item0.id)
    {
      hide Worker.Inv, OnlyRow, NoConflict, DoneBytes, DoneItems, Sizes, Staged, Worked, Way, RowMatches;
      hide Worker.Copying, ReadyItem, Original, IsFile, IsDir, Beside, Clear, Worker.PausedAt, Tidy;
      ghost var before, fs0 := rows, vol.fs;
      ReadyIsOpen(item0);
      ItemIsBeside(item0);
      WayIsFree(fs0, item0);
      var item;
      item, r := PrepareItem(item0);
      OnlyRowCounts(before, rows, item.id);
      StagedSame2(fs0, item);
      StageFacts(fs0, item);
      MatchesAnew(item);
      if r != Done { return 0, r; }
      StillOpen(before, item.id);
      ghost var mid := rows;
      copied, r := CopyPrepared(item, base, items);
      OnlyRowTransitive(before, mid, rows, item.id);
    }

    /** The copy itself, once it is known where the item goes and how much of it is on disk. */
    method CopyPrepared(item: CopyItem, base: nat, items: nat) returns (copied: nat, r: Result)
      requires Inv() && status != Completed && Matches(item)
      requires !vol.dead ==>
        && rows[item.id].status != Completed && NoConflict(rows)
        && (item.processed > 0 ==> IsFile(vol.fs, item.temp) && |vol.fs[item.temp].data| == item.processed)
        && base == DoneBytes(rows) && items == DoneItems(rows) && reported <= base + item.processed
      modifies this`rows, this`status, this`steered, this`processedBytes, this`processedItems, this`reported, vol
      ensures Inv() && status != Completed && Matches(item.(processed := copied))
      ensures OnlyRow(old(rows), rows, item.id)
      ensures Worked(old(vol.fs), vol.fs, item.temp, item.destination) && Appeared(old(vol.fs), item)
      ensures (old(vol.disturbed) ==> vol.disturbed) && (old(steered) ==> steered) && (steered || status == old(status))
      ensures old(vol.dead) ==> vol.dead && vol.fs == old(vol.fs)
      ensures !vol.dead ==> NoConflict(rows)
      ensures old(status) == Cancelled ==> status == Cancelled
      ensures r == Done ==> status == Cancelled || (Copied(item, copied) && ClearFor(old(vol.fs), item))
      ensures r == Done && !vol.dead && status != Cancelled ==> reported <= base + copied
      ensures ClearFor(old(vol.fs), item) && !vol.disturbed && !steered && old(status) !in {Paused, Cancelled} ==> r == Done
      ensures r == JobPaused ==> vol.disturbed || steered || old(status) in {Paused, Cancelled}
      ensures r == Done || r == JobPaused || r.Error?
      ensures r == Done && status != Cancelled && !vol.disturbed ==> Tidy(vol.fs, Parent(item.temp))
      ensures r.Error? && !vol.disturbed && item.destination in vol.fs ==> item.destination in old(vol.fs)
      ensures ClearFor(old(vol.fs), item) && !vol.disturbed ==> !r.Error?
      ensures r == JobPaused ==> Staged(old(vol.fs), vol.fs, item.temp, item.temp)
      ensures r == JobPaused && !vol.dead ==> status == Paused && PausedAt(item.id)
    {
      hide Worker.Inv, OnlyRow, NoConflict, DoneBytes, DoneItems, Sizes, Staged, Worked, Way, Worker.Copying, Worker.PausedAt, Tidy;
      ghost var fs0 := vol.fs;
      OnlyRowSame(rows, item.id);
      StagedSame2(fs0, item);
      r := StageTemp(item, base, items);
      ghost var fs1 := vol.fs;
      StageFacts(fs0, item);
      MatchesAnew(item);
      if r != Done { return 0, r; }
      copied, r := CopyStaged(item, base, items);
      StagedThenWorked(fs0, fs1, vol.fs, item.temp, item.destination);
      if r == JobPaused { StagedTransitive(fs0, fs1, vol.fs, item.temp, item.temp); }
    }

    lemma ReadyIsOpen(item: CopyItem)
      requires Ready(item)
      ensures Matches(item) && rows[item.id].status != Completed && NoConflict(rows)
    {}

    lemma MatchesAnew(item: CopyItem)
      requires Matches(item)
      ensures Matches(item.(processed := 0))
    {}

    lemma WayIsFree(fs: Tree, item: CopyItem)
      requires Beside(item.temp, item.destination)
      ensures ClearFor(fs, item) ==> item.destination !in fs && !IsDir(fs, item.temp)
      ensures ClearFor(fs, item) ==> !Obstructed(fs, item.temp) && !Obstructed(fs, item.destination)
    {
      if ClearFor(fs, item) { WayHasNoFile(fs, vol.device, item.temp, item.destination); }
    }

    lemma StageFacts(fs0: Tree, item: CopyItem)
      requires Inv() && Matches(item) && Staged(fs0, vol.fs, item.temp, item.temp)
      ensures Staged(fs0, vol.fs, item.temp, item.destination) && Worked(fs0, vol.fs, item.temp, item.destination)
      ensures WayFor(fs0, item) <==> WayFor(vol.fs, item)
      ensures IsFile(vol.fs, item.temp) ==> !IsFile(fs0, Parent(item.temp))
      ensures item.destination in vol.fs ==> item.destination in fs0
    {
      hide Worker.Inv, Way;
      StagedWidens(fs0, vol.fs, item.temp, item.destination);
      StagedIsWorked(fs0, vol.fs, item.temp, item.destination);
      ItemIsBeside(item);
      OnTheWayToBeside(item.destination, item.temp, item.destination);
      StagedKeepsWay(fs0, vol.fs, vol.device, item.temp, item.destination);
      if IsFile(vol.fs, item.temp) { TempDirIsThere(item); }
    }

    lemma StillOpen(before: seq<Row>, i: nat)
      requires OnlyRow(before, rows, i) && before[i].status != Completed
      ensures rows[i].status != Completed
    {}

    // ----- The plan -----

    /** Lists the files to copy, and makes the directories they go to. */
    method PlanCopy(destination: Path) returns (items: seq<CopyItem>, r: Result)
      requires Inv() && status != Completed && rows == []
      requires job.source in vol.fs ==> GoodRoot(G(), destination)
      modifies vol
      ensures Inv() && (old(vol.disturbed) ==> vol.disturbed)
      ensures old(vol.dead) ==> vol.dead && vol.fs == old(vol.fs)
      ensures r == Done ==> job.source in old(vol.fs) && GoodRoot(G(), destination) && Plan(G(), destination, items)
      ensures r == Done ==> forall p :: IsFile(vol.fs, p) && job.source <= p ==> exists k :: 0 <= k < |items| && items[k].source == p
      ensures r == Done ==>
        forall k :: 0 <= k < |items| ==> items[k].destination in vol.fs ==> items[k].destination in old(vol.fs)
      ensures r == Done || r.Error?
      ensures Grows(old(vol.fs), vol.fs)
      ensures r == Done ==> DirsMade(old(vol.fs), job.source, destination, vol.fs)
      ensures RoomFor(old(vol.fs), vol.device, job.source, destination) && job.source in old(vol.fs) && !vol.disturbed ==> r == Done
      ensures r == Done ==>
        (RoomFor(old(vol.fs), vol.device, job.source, destination) <==> CanFinish(vol.fs, vol.device, RowsOf(items)))
    {
      hide Worker.Inv, RoomFor, CanFinish, DirsMade;
      ghost var fs0 := vol.fs;
      PlanFacts();
      if job.source !in vol.fs { return [], Error(SourceMissing); }
      if vol.fs[job.source].File? {
        SingleFile(G(), destination, vol.fs);
        DirsMadeStarts(fs0, job.source, destination);
        PlanStarts(G(), destination, fs0);
        ghost var it := CopyItem(0, job.source, destination, TempFor(destination), |vol.fs[job.source].data|, 0, false);
        if RoomFor(fs0, vol.device, job.source, destination) {
          PlanIsClear(G(), destination, [it], fs0, vol.fs, vol.device);
        }
        if CanFinish(vol.fs, vol.device, RowsOf([it])) {
          assert PlanItem(G(), destination, [it][0]);
          SingleRoom(G(), destination, it, vol.fs, vol.device);
        }
        return [CopyItem(0, job.source, destination, TempFor(destination), |vol.fs[job.source].data|, 0, false)], Done;
      }
      items, r := PlanTree(destination);
    }

    method PlanTree(destination: Path) returns (items: seq<CopyItem>, r: Result)
      requires Inv() && status != Completed && rows == [] && GoodRoot(G(), destination) && IsDir(vol.fs, job.source)
      modifies vol
      ensures Inv() && (old(vol.disturbed) ==> vol.disturbed)
      ensures old(vol.dead) ==> vol.dead && vol.fs == old(vol.fs)
      ensures r == Done ==> Plan(G(), destination, items)
      ensures r == Done ==> forall p :: IsFile(vol.fs, p) && job.source <= p ==> exists k :: 0 <= k < |items| && items[k].source == p
      ensures r == Done ==>
        forall k :: 0 <= k < |items| ==> items[k].destination in vol.fs ==> items[k].destination in old(vol.fs)
      ensures r == Done || r.Error?
      ensures Grows(old(vol.fs), vol.fs)
      ensures r == Done ==> DirsMade(old(vol.fs), job.source, destination, vol.fs)
      ensures RoomFor(old(vol.fs), vol.device, job.source, destination) && !vol.disturbed ==> r == Done
      ensures r == Done ==>
        (RoomFor(old(vol.fs), vol.device, job.source, destination) <==> CanFinish(vol.fs, vol.device, RowsOf(items)))
    {
      hide Worker.Inv, MirrorsOnly, PlanSoFar, Plan, GoodRoot, IsWalk, WalkSoFar, Grows, Fit, NothingNewInSource, WellFormed;
      hide RoomFor, CanFinish, DirsPassable, DirsMadeOf, DirsMade;
      PlanFacts();
      NoDirsYet(destination);
      ghost var fs0 := vol.fs;
      var order := WalkDir(vol.fs, job.source);
      items := [];
      PlanStarts(G(), destination, fs0);
      DirsMadeStarts(fs0, job.source, destination);
      var i := 0;
      while i < |order|
        invariant 0 <= i <= |order|
        invariant Inv() && (old(vol.disturbed) ==> vol.disturbed) && (old(vol.dead) ==> vol.dead && vol.fs == fs0)
        invariant Grows(fs0, vol.fs) && MirrorsOnly(fs0, job.source, destination, vol.fs) && |order[..i]| == i
        invariant DirsMadeOf(fs0, job.source, destination, vol.fs, order[..i])
        invariant PlanSoFar(G(), destination, items, fs0, order[..i]) && DirsPassable(fs0, job.source, destination, order[..i])
      {
        WalkAt(fs0, job.source, order, i);
        items, r := PlanEntry(destination, items, order[i], fs0, order[..i]);
        if r != Done { return; }
        i := i + 1;
      }
      assert order[..i] == order;
      PlanFacts();
      AllMade(fs0, job.source, destination, vol.fs, order);
      PlanComplete(G(), destination, items, fs0, order, vol.fs);
      if RoomFor(fs0, vol.device, job.source, destination) {
        SourceThen(fs0);
        PlanIsClear(G(), destination, items, fs0, vol.fs, vol.device);
      }
      if CanFinish(vol.fs, vol.device, RowsOf(items)) {
        RootIsPath(destination);
        RoomWasThere(G(), destination, items, fs0, order, vol.fs, vol.device);
      }
      return items, Done;
    }

    lemma RootIsPath(destination: Path)
      requires GoodRoot(G(), destination)
      ensures destination != []
    {}

    lemma NoDirsYet(destination: Path)
      ensures DirsPassable(vol.fs, job.source, destination, [])
    {}

    /** What is in the source now was there when only directories have been added since. */
    lemma SourceThen(fs0: Tree)
      requires Inv() && Grows(fs0, vol.fs)
      ensures NothingNewInSource(G(), fs0)
    {}

    /** One entry of the walk: a directory is made at the destination, a file is listed. */
    method PlanEntry(destination: Path, listed: seq<CopyItem>, p: Path, ghost fs0: Tree, ghost seen: seq<Path>)
      returns (items: seq<CopyItem>, r: Result)
      requires Inv() && status != Completed && rows == [] && GoodRoot(G(), destination)
      requires WellFormed(fs0) && Grows(fs0, vol.fs) && p in fs0 && job.source <= p && p !in seen
      requires PlanSoFar(G(), destination, listed, fs0, seen) && MirrorsOnly(fs0, job.source, destination, vol.fs)
      requires DirsPassable(fs0, job.source, destination, seen) && DirsMadeOf(fs0, job.source, destination, vol.fs, seen)
      modifies vol
      ensures Inv() && (old(vol.disturbed) ==> vol.disturbed)
      ensures old(vol.dead) ==> vol.dead && vol.fs == old(vol.fs)
      ensures Grows(fs0, vol.fs) && MirrorsOnly(fs0, job.source, destination, vol.fs)
      ensures r == Done ==> PlanSoFar(G(), destination, items, fs0, seen + [p])
      ensures r == Done ==> DirsPassable(fs0, job.source, destination, seen + [p])
      ensures r == Done ==> DirsMadeOf(fs0, job.source, destination, vol.fs, seen + [p])
      ensures r == Done || r.Error?
      ensures RoomFor(fs0, vol.device, job.source, destination) && !vol.disturbed ==> r == Done
    {
      hide Worker.Inv, MirrorsOnly, PlanSoFar, Plan, RoomFor, FileOnPath, DirsPassable, Passable, DirsMadeOf;
      items, r := listed, Done;
      ghost var fs1 := vol.fs;
      PlanFacts();
      InvValid();
      PlanSource(G(), fs0, vol.fs, p);
      RootTarget(G(), destination, p);
      var target := destination + p[|job.source|..];
      if vol.fs[p] == Dir {
        ghost var before := vol.fs;
        DirHasRoom(fs0, destination, p);
        var e := MkdirAll(target);
        MirrorsGrow(fs0, job.source, destination, before, vol.fs, p);
        InvValid();
        if e != Ok { return items, Error(Io(e)); }
        PlanSkipsDir(G(), destination, items, fs0, seen, p);
        PlanFacts();
        MadeWasPassable(fs0, vol.fs, target);
      } else {
        PlanTakesFile(G(), destination, items, fs0, seen, p);
        items := items + [CopyItem(|items|, p, target, TempFor(target), |vol.fs[p].data|, 0, false)];
      }
      OneMoreDir(fs0, job.source, destination, seen, p);
      OneMoreMade(fs0, job.source, destination, fs1, vol.fs, seen, p);
    }

    lemma DirHasRoom(fs0: Tree, destination: Path, p: Path)
      requires Grows(fs0, vol.fs) && p in fs0 && fs0[p] == Dir && job.source <= p
      ensures RoomFor(fs0, vol.device, job.source, destination) ==> !FileOnPath(vol.fs, destination + p[|job.source|..])
    {
      hide Clear, Grows, FileOnPath;
      if RoomFor(fs0, vol.device, job.source, destination) {
        assert RoomAt(fs0, vol.device, job.source, destination, p);
        StaysPassable(fs0, vol.fs, destination + p[|job.source|..]);
      }
    }

    method CreateItem(r: Row)
      requires Inv() && (!vol.dead ==> status != Completed) && SourceKept(G(), vol.fs) && Admitted()
      requires GoodRow(G(), r) && r.status == Queued && r.processed == 0
      requires IsFile(vol.fs, r.temp) ==> vol.fs[r.temp].data <= Original(G(), r)
      requires forall i :: 0 <= i < |rows| ==> rows[i].source != r.source && rows[i].temp != r.temp
      modifies this`rows, vol
      ensures Inv() && vol.fs == old(vol.fs) && (old(vol.disturbed) ==> vol.disturbed)
      ensures old(vol.dead) ==> vol.dead
      ensures rows == old(rows) || rows == old(rows) + [r]
      ensures !vol.dead ==> rows == old(rows) + [r]
    {
      hide Sound, GoodRow;
      AppendKeepsSound(G(), vol.fs, rows, cleared, r);
      var done := vol.Survive();
      if done { rows := rows + [r]; }
    }

    /** Stores the plan, one row at a time. A crash in between leaves the rows of the first items only. */
    method PersistPlan(destination: Path, items: seq<CopyItem>) returns (r: Result)
      requires Inv() && status != Completed && rows == [] && Admitted()
      requires GoodRoot(G(), destination) && Plan(G(), destination, items)
      modifies this`rows, this`totalBytes, this`totalItems, vol
      ensures Inv() && vol.fs == old(vol.fs) && (old(vol.disturbed) ==> vol.disturbed)
      ensures old(vol.dead) ==> vol.dead
      ensures rows <= RowsOf(items)
      ensures r == Done ==> !vol.dead && rows == RowsOf(items) && totalBytes == Sizes(rows) && totalItems == |rows|
      ensures r == Done || (r == Error(Io(Crashed)) && vol.disturbed)
    {
      hide Worker.Inv, Worker.Admitted, Plan, GoodRoot, PlanItem, GoodRow, SourceKept, NoNewFiles, Fit;
      var bytes, i := 0, 0;
      PersistStarts();
      while i < |items|
        invariant 0 <= i <= |items|
        invariant Inv() && vol.fs == old(vol.fs) && (old(vol.disturbed) ==> vol.disturbed) && (old(vol.dead) ==> vol.dead)
        invariant rows == RowsOf(items)[..i] && bytes == Sizes(rows)
      {
        RowFits(G(), destination, items, i, vol.fs);
        RowsStep(items, i);
        CreateItem(RowOf(items[i]));
        InvValid();
        if vol.dead { return Error(Io(Crashed)); }
        bytes := bytes + items[i].size;
        i := i + 1;
      }
      SetJobTotals(bytes, |items|);
      InvValid();
      return if vol.dead then Error(Io(Crashed)) else Done;
    }

    lemma PersistStarts()
      requires Inv() && rows == []
      ensures Fit(G()) && SourceKept(G(), vol.fs) && NoNewFiles(origin, vol.fs)
    {}

    // ----- Resuming a stored plan -----

    /**
     What there is to do for a stored row, whatever is on disk: nothing if it was skipped or its copy is there with its
     size, and for a row that is not completed to go on from its partial file.
     */
    method LookAtRow(stored: Row) returns (open: bool, partial: nat, r: Result)
      ensures open <==> stored.status != Completed
      ensures !open && (stored.skipped || (IsFile(vol.fs, stored.destination) && |vol.fs[stored.destination].data| == stored.size)) ==>
        r == Done
      ensures !open && !stored.skipped && stored.destination !in vol.fs ==> r == Error(CompletedMissing)
      ensures !open && !stored.skipped && IsDir(vol.fs, stored.destination) ==> r == Error(CompletedSizeMismatch)
      ensures !open && !stored.skipped && IsFile(vol.fs, stored.destination) && |vol.fs[stored.destination].data| != stored.size ==>
        r == Error(CompletedSizeMismatch)
      ensures open && r == Done ==>
        partial == (if IsFile(vol.fs, stored.temp) then |vol.fs[stored.temp].data| else 0) && partial <= stored.size
      ensures open ==> (r == Done <==>
        && !IsDir(vol.fs, stored.temp) && !Obstructed(vol.fs, stored.temp)
        && (IsFile(vol.fs, stored.temp) ==> |vol.fs[stored.temp].data| <= stored.size))
      ensures r == Done || r.Error?
    {
      if stored.status == Completed {
        if stored.skipped { return false, 0, Done; }
        if stored.destination !in vol.fs { return false, 0, Error(CompletedMissing); }
        if vol.fs[stored.destination] == Dir || |vol.fs[stored.destination].data| != stored.size {
          return false, 0, Error(CompletedSizeMismatch);
        }
        return false, 0, Done;
      }
      partial, r := PartialFileSize(stored.temp, stored.size);
      return true, partial, r;
    }

    /** A stored row of an earlier claim: checked if it is completed, queued again with what is on disk if it is not. */
    method ResumeRow(n: nat) returns (queued: bool, item: CopyItem, r: Result)
      requires Inv() && status != Completed && n < |rows| && !vol.dead
      modifies this`rows, vol
      ensures Inv() && vol.fs == old(vol.fs) && (old(vol.disturbed) ==> vol.disturbed)
      ensures |rows| == |old(rows)| && forall i :: 0 <= i < |rows| && i != n ==> rows[i] == old(rows)[i]
      ensures r == Done ==> !vol.dead && rows[n] == old(rows)[n].(status := rows[n].status, processed := rows[n].processed)
      ensures SameTargets(old(rows), rows)
      ensures r == Done ==> (queued <==> old(rows)[n].status != Completed) && rows[n].status == (if queued then Queued else Completed)
      ensures r == Done && queued ==> item.id == n && item.persisted && Matches(item)
      ensures r == Done && queued ==> item.processed == rows[n].processed == OnDisk(vol.fs, item.temp)
      ensures old(rows)[n].status == Completed ==> r == Done && rows == old(rows) && vol.disturbed == old(vol.disturbed)
      ensures !IsDir(vol.fs, old(rows)[n].temp) && !Obstructed(vol.fs, old(rows)[n].temp) && !vol.disturbed ==> r == Done
      ensures r == Done || r.Error?
    {
      var stored := rows[n];
      assert GoodRow(G(), stored);
      item := CopyItem(n, stored.source, stored.destination, stored.temp, stored.size, 0, true);
      TempFits(item);
      var partial;
      queued, partial, r := LookAtRow(stored);
      if r != Done || !queued { return; }
      item := item.(processed := partial);
      UpdateItemStatus(n, Queued, partial);
      OnlyRowSameTargets(old(rows), rows, n);
      return true, item, if vol.dead then Error(Io(Crashed)) else Done;
    }

    method ResumeTransferItems() returns (pending: seq<CopyItem>, bytes: nat, items: nat, r: Result)
      requires Inv() && status != Completed && rows != [] && reported == 0 && !vol.dead
      modifies this`rows, this`totalBytes, this`totalItems, this`processedBytes, this`processedItems, this`reported, vol
      ensures Inv() && vol.fs == old(vol.fs) && (old(vol.disturbed) ==> vol.disturbed) && rows != []
      ensures r == Done ==> !vol.dead && Queue(G(), vol.fs, rows, pending, 0) && Waiting(rows) && AsOnDisk(pending)
      ensures r == Done ==> Tallied(bytes, items) && processedBytes == bytes && processedItems == items
      ensures Finished(old(rows)) ==> rows == old(rows) && (r == Done ==> pending == []) && (!vol.disturbed ==> r == Done)
      ensures Finishable() <==> old(Finishable())
      ensures old(Finishable()) && !vol.disturbed ==> r == Done
      ensures r == Done || r.Error?
    {
      hide Worker.Inv, QueueSoFar, Queue, RowMatches, DoneBytes, DoneItems, Sizes, CanFinish, SameTargets;
      var total;
      pending, total, bytes, items, r := LoadRows();
      SameTargetsFinishAlike(vol.fs, vol.device, old(rows), rows);
      if r != Done { return; }
      QueueDone(G(), vol.fs, rows, pending);
      CountsAtMost(rows);
      SetJobTotals(total, |rows|);
      InvValid();
      if vol.dead { return pending, bytes, items, Error(Io(Crashed)); }
      UpdateJobProgress(bytes, items, None);
      InvValid();
      return pending, bytes, items, if vol.dead then Error(Io(Crashed)) else Done;
    }

    /** Each item goes on from what its partial file holds. */
    ghost predicate AsOnDisk(pending: seq<CopyItem>)
      reads vol
    {
      forall j :: 0 <= j < |pending| ==> pending[j].persisted && pending[j].processed == OnDisk(vol.fs, pending[j].temp)
    }

    method LoadRows() returns (pending: seq<CopyItem>, total: nat, bytes: nat, items: nat, r: Result)
      requires Inv() && status != Completed && rows != [] && !vol.dead
      modifies this`rows, vol
      ensures Inv() && vol.fs == old(vol.fs) && (old(vol.disturbed) ==> vol.disturbed) && rows != []
      ensures r == Done ==> !vol.dead && QueueSoFar(rows, pending, |rows|) && Waiting(rows)
      ensures r == Done ==> AsOnDisk(pending)
      ensures r == Done ==> total == Sizes(rows) && bytes == DoneBytes(rows) && items == DoneItems(rows)
      ensures Finished(old(rows)) ==> r == Done && pending == [] && rows == old(rows)
      ensures SameTargets(old(rows), rows)
      ensures CanFinish(vol.fs, vol.device, old(rows)) && !vol.disturbed ==> r == Done
      ensures r == Done || r.Error?
    {
      hide Worker.Inv, QueueSoFar, RowMatches, DoneBytes, DoneItems, Sizes, CanFinish, Clear;
      pending, total, bytes, items, r := [], 0, 0, 0, Done;
      var n := 0;
      LoadStarts(rows);
      while n < |rows|
        invariant 0 <= n <= |rows| == |old(rows)|
        invariant Inv() && !vol.dead && vol.fs == old(vol.fs) && (old(vol.disturbed) ==> vol.disturbed)
        invariant AsOnDisk(pending)
        invariant QueueSoFar(rows, pending, n) && forall i :: 0 <= i < n ==> rows[i].status in {Queued, Completed}
        invariant Finished(old(rows)) ==> pending == [] && rows == old(rows)
        invariant SameTargets(old(rows), rows)
        invariant total == Sizes(rows[..n]) && bytes == DoneBytes(rows[..n]) && items == DoneItems(rows[..n])
      {
        ghost var before := rows;
        var queued, item;
        RowIsBeside(n);
        queued, item, r := ResumeRow(n);
        SameTargetsTransitive(old(rows), before, rows);
        if r != Done {
          FinishableRow(vol.fs, vol.device, old(rows), n);
          return;
        }
        CountsStep(before, rows, n);
        total := total + rows[n].size;
        if queued {
          QueueTakes(before, rows, pending, n, item);
          pending := pending + [item];
        } else {
          QueueSkips(before, rows, pending, n);
          bytes, items := bytes + rows[n].size, items + 1;
        }
        n := n + 1;
      }
      assert rows[..n] == rows;
      r := Done;
    }

    lemma RowIsBeside(n: nat)
      requires Inv() && n < |rows|
      ensures Beside(rows[n].temp, rows[n].destination)
    {
      RowIsGood(n);
    }

    lemma LoadStarts(rows: seq<Row>)
      ensures QueueSoFar(rows, [], 0) && Sizes(rows[..0]) == DoneBytes(rows[..0]) == DoneItems(rows[..0]) == 0
    {}

    /** The tallies of the finished rows, and the job's totals. */
    ghost predicate Tallied(bytes: nat, items: nat)
      reads this
    {
      && bytes == DoneBytes(rows) && items == DoneItems(rows) && reported <= bytes
      && totalBytes == Sizes(rows) && totalItems == |rows|
    }

    // ----- The whole job -----

    /** The items to copy: those of the stored plan, or those of a new one. No items and no error means nothing is left to copy. */
    method TransferItems() returns (pending: seq<CopyItem>, bytes: nat, items: nat, r: Result)
      requires Inv() && status != Completed && reported == 0 && !vol.dead
      requires job.policy != CancelTransfer ==> Admitted()
      modifies this`rows, this`totalBytes, this`totalItems, this`processedBytes, this`processedItems, this`reported
      modifies this`status, this`steered, this`cleared, vol
      ensures Inv() && (old(vol.disturbed) ==> vol.disturbed) && (old(steered) ==> steered)
      ensures r == Done && !vol.dead ==> Waiting(rows) && (old(rows) != [] ==> AsOnDisk(pending))
      ensures r == Done && old(rows) == [] ==> forall k :: 0 <= k < |pending| ==> !pending[k].persisted
      ensures r.Error? && old(rows) == [] && !vol.disturbed ==> rows == []
      ensures r == Done && !vol.dead && status != Completed ==>
        && Queue(G(), vol.fs, rows, pending, 0)
        && (rows != [] ==> Tallied(bytes, items) && (pending == [] ==> processedBytes == bytes && processedItems == items))
        && (pending == [] && rows == [] ==> NoFilesLeft())
      ensures status == Completed ==> pending == [] && rows == [] && !job.isMove && job.policy in {Skip, SkipIdentical}
      ensures old(rows) == [] && r == Done && !vol.dead && status != Completed ==> Mirrored(old(vol.fs), vol.fs)
      ensures old(rows) != [] ==> status == old(status) && rows != [] && vol.fs == old(vol.fs)
      ensures Finished(old(rows)) ==> rows == old(rows) && (r == Done ==> pending == []) && (!vol.disturbed ==> r == Done)
      ensures old(rows) != [] ==> (Finishable() <==> old(Finishable()))
      ensures old(rows) != [] && old(Finishable()) && !vol.disturbed ==> r == Done
      ensures !steered && r == Done && !vol.dead ==> status == old(status) || status == Completed
      ensures old(Startable()) && !vol.disturbed ==> r == Done && Finishable() && status in {old(status), Completed}
      ensures old(rows) == [] && r == Done && Finishable() ==> old(Startable())
      ensures old(rows) == [] && job.policy == CancelTransfer ==> r == Error(CancelledByPolicy) && vol.fs == old(vol.fs)
      ensures r.Error? && old(status) != Completed ==> status != Completed
      ensures r == Done || r.Error?
    {
      hide Worker.Inv, Queue, DoneBytes, DoneItems, Sizes, CanFinish, Worker.Mirrored, GoodRoot, DirsMade, OnDisk;
      InvValid();
      if rows != [] {
        pending, bytes, items, r := ResumeTransferItems();
        return;
      }
      pending, bytes, items, r := [], 0, 0, Done;
      if job.policy == CancelTransfer { return [], 0, 0, Error(CancelledByPolicy); }
      if HasRoom(vol.fs, vol.device, job) { AdmittedStarts(); }
      ghost var fs0 := vol.fs;
      var t := SettleDestination();
      ghost var fs1 := vol.fs;
      match t
      case SkipIt =>
        FinishedCanFinish(vol.fs, vol.device, rows);
        CompleteJob();
        InvValid();
      case Bad(cause) => r := Error(cause);
      case AskUser => assert false;
      case Free(d) =>
        pending, r := NewPlan(d);
        if r == Done { IsMirrored(fs0, fs1, d); }
    }

    /** Every directory of the source, as it was in `fs0`, is at its place where the job goes. */
    ghost predicate Mirrored(fs0: Tree, fs: Tree) {
      exists d :: GoodRoot(Setting(job, origin), d) && DirsMade(fs0, job.source, d, fs)
    }

    lemma IsMirrored(fs0: Tree, fs1: Tree, d: Path)
      requires GoodRoot(G(), d) && DirsMade(fs1, job.source, d, vol.fs)
      requires forall p :: job.source <= p && IsDir(fs0, p) ==> IsDir(fs1, p)
      ensures Mirrored(fs0, vol.fs)
    {
      hide GoodRoot;
      assert DirsMade(fs0, job.source, d, vol.fs);
    }

    lemma StaysMirrored(fs0: Tree, before: Tree)
      requires Inv() && NothingNewInSource(G(), fs0) && DirsKept(job.source, before, vol.fs)
      ensures Mirrored(fs0, before) ==> Mirrored(fs0, vol.fs)
    {
      hide GoodRoot, DirsMade, DirsKept;
      PlanFacts();
      if Mirrored(fs0, before) {
        var d :| GoodRoot(G(), d) && DirsMade(fs0, job.source, d, before);
        MadeStays(G(), fs0, d, before, vol.fs);
      }
    }

    lemma AdmittedStarts()
      requires Inv() && rows == [] && Admitted() && job.policy != CancelTransfer && HasRoom(vol.fs, vol.device, job)
      ensures Startable() <==> job.source in vol.fs || (job.policy == Skip && job.destination in vol.fs)
    {
      hide RoomFor, Without;
    }

    /** Where the job as a whole goes. Under "ask" it goes to its destination, and the conflicts come item by item. */
    method SettleDestination() returns (t: Target)
      requires Inv() && status != Completed && rows == [] && job.policy != CancelTransfer && Admitted() && !vol.dead
      modifies this`cleared, vol
      ensures Inv() && (old(vol.disturbed) ==> vol.disturbed)
      ensures job.source in vol.fs ==> job.source in old(vol.fs)
      ensures old(job.source in vol.fs) && !vol.disturbed ==> job.source in vol.fs
      ensures t.SkipIt? ==> job.policy in {Skip, SkipIdentical}
      ensures forall p :: job.source <= p && IsDir(old(vol.fs), p) ==> IsDir(vol.fs, p)
      ensures t.Free? && job.source in vol.fs ==> GoodRoot(G(), t.path)
      ensures t.Free? && job.source in vol.fs && job.policy != Ask ==> Under(vol.fs, t.path) == {}
      ensures t.Free? || t.SkipIt? || t.Bad?
      ensures old(HasRoom(vol.fs, vol.device, job) && (job.source in vol.fs || job.destination in vol.fs)) && !vol.disturbed ==> !t.Bad?
      ensures t.Free? ==> (RoomFor(vol.fs, vol.device, job.source, t.path) <==> old(HasRoom(vol.fs, vol.device, job)))
      ensures t.SkipIt? ==> old(HasRoom(vol.fs, vol.device, job)) && job.destination in old(vol.fs)
      ensures t.SkipIt? && job.policy != Skip ==> job.source in old(vol.fs)
      ensures t.Free? && job.policy == Skip ==> job.destination !in old(vol.fs)
    {
      hide Worker.Inv, NextFree, RoomFor, Pruned;
      ghost var fs0 := vol.fs;
      InvValid();
      PlanRoot();
      PlanFacts();
      FreshRoot(job.destination);
      if job.policy == Ask {
        RoomThere(fs0, vol.fs, vol.device, job, job.destination);
        return Free(job.destination);
      }
      t := ResolveConflictDestination(job.source, job.destination);
      InvValid();
      SourceDirsStay(fs0);
      if t.Free? {
        if job.destination !in fs0 || job.policy == Overwrite { AbsentIsFree(vol.fs, job.destination); }
        GoodSibling(t.path);
        RoomThere(fs0, vol.fs, vol.device, job, t.path);
      }
      if t.Bad? && HasRoom(fs0, vol.device, job) && job.destination in fs0 && job.policy != Overwrite { NotStuck(fs0, t); }
      if job.destination !in fs0 && job.source in fs0 && HasRoom(fs0, vol.device, job) {
        NothingPruned(fs0, job.destination);
        AbsentIsFree(fs0, job.destination);
        RoomThere(fs0, fs0, vol.device, job, job.destination);
        RoomIsReachable(fs0, vol.device, job.source, job.destination);
      }
    }

    lemma SourceDirsStay(fs0: Tree)
      requires Pruned(fs0, vol.fs, job.destination) && (vol.fs != fs0 ==> Apart(job.source, job.destination))
      ensures forall p :: job.source <= p && IsDir(fs0, p) ==> IsDir(vol.fs, p)
    {
      if vol.fs != fs0 {
        forall p | job.source <= p && p in fs0
          ensures p in vol.fs
        {
          assert job.destination <= p ==> job.destination <= job.source || job.source <= job.destination;
        }
      }
    }

    /** A job that has room is not refused, if nothing else goes wrong. */
    lemma NotStuck(fs: Tree, t: Target)
      requires Inv() && HasRoom(fs, vol.device, job) && job.destination in fs && t.Bad? && job.policy != Overwrite
      ensures job.policy == SkipIdentical ==>
        IsFile(fs, job.source) && IsFile(fs, job.destination) && fs[job.source] == fs[job.destination]
      ensures job.policy == Rename ==> !NextFree(fs, job.destination, None)
    {
      if job.policy == Rename {
        hide NextFree;
        var d :| NextFree(fs, job.destination, Some(d)) && RoomFor(fs, vol.device, job.source, d);
        if NextFree(fs, job.destination, None) { OneAnswer(fs, job.destination, Some(d), None); }
      }
    }

    /** Plans the copy to `destination` and stores the plan. */
    method NewPlan(destination: Path) returns (pending: seq<CopyItem>, r: Result)
      requires Inv() && status != Completed && reported == 0 && rows == []
      requires job.source in vol.fs && !vol.dead ==> Admitted()
      requires job.source in vol.fs ==> GoodRoot(G(), destination)
      requires job.source in vol.fs && job.policy != Ask && !vol.dead ==> Under(vol.fs, destination) == {}
      modifies this`rows, this`totalBytes, this`totalItems, vol
      ensures Inv() && (old(vol.disturbed) ==> vol.disturbed)
      ensures r == Done && !vol.dead ==>
        && Queue(G(), vol.fs, rows, pending, 0) && Waiting(rows)
        && (rows != [] ==> Tallied(0, 0) && pending != [])
        && (rows == [] ==> NoFilesLeft())
      ensures r == Done ==> job.source in old(vol.fs) && DirsMade(old(vol.fs), job.source, destination, vol.fs)
      ensures r == Done ==> forall k :: 0 <= k < |pending| ==> !pending[k].persisted
      ensures r.Error? && !vol.disturbed ==> rows == []
      ensures r == Done || r.Error?
      ensures RoomFor(old(vol.fs), vol.device, job.source, destination) && job.source in old(vol.fs) && !vol.disturbed ==>
        r == Done && Finishable()
      ensures r == Done && Finishable() ==>
        RoomFor(old(vol.fs), vol.device, job.source, destination) && job.source in old(vol.fs)
    {
      hide Worker.Inv, Queue, DoneBytes, DoneItems, Sizes, Plan, GoodRoot, RoomFor, CanFinish, FileOnPath, DirsMade;
      ghost var fs0 := vol.fs;
      PlanFacts();
      pending, r := PlanCopy(destination);
      if r == Done { PlanIsFresh(G(), destination, pending); }
      ghost var fs1 := vol.fs;
      InvValid();
      if r != Done { return; }
      if pending == [] {
        RootHasRoom(fs0, destination);
        FinishedCanFinish(vol.fs, vol.device, RowsOf(pending));
        r := PlanNothing(destination);
        MadeGrows(fs0, fs1, destination);
        return [], r;
      }
      if vol.dead { return pending, Error(Io(Crashed)); }
      PersistStarts();
      r := PersistPlan(destination, pending);
      if r == Done {
        PlanFacts();
        if job.policy != Ask { TargetsAreFree(G(), destination, pending, fs0, vol.fs); }
        FreshQueue(G(), destination, pending, vol.fs);
      }
    }

    lemma MadeGrows(fs0: Tree, before: Tree, destination: Path)
      requires Grown(before, vol.fs, destination)
      ensures DirsMade(fs0, job.source, destination, before) ==> DirsMade(fs0, job.source, destination, vol.fs)
    {}

    lemma RootHasRoom(fs0: Tree, destination: Path)
      requires Grows(fs0, vol.fs) && job.source in fs0 && !IsFile(vol.fs, job.source)
      ensures RoomFor(fs0, vol.device, job.source, destination) ==> !FileOnPath(vol.fs, destination)
    {
      assert destination + job.source[|job.source|..] == destination;
      DirHasRoom(fs0, destination, job.source);
    }

    /** A source without files is copied by making the destination's directory. */
    method PlanNothing(destination: Path) returns (r: Result)
      requires Inv() && status != Completed && rows == [] && GoodRoot(G(), destination)
      requires forall p :: p in vol.fs && job.source <= p ==> !IsFile(vol.fs, p)
      modifies vol
      ensures Inv() && (old(vol.disturbed) ==> vol.disturbed)
      ensures r == Done ==> Queue(G(), vol.fs, rows, [], 0) && NoFilesLeft()
      ensures r == Done || r.Error?
      ensures !FileOnPath(old(vol.fs), destination) && !vol.disturbed ==> r == Done
      ensures Finishable() && Grown(old(vol.fs), vol.fs, destination) && (r == Done ==> IsDir(vol.fs, destination))
    {
      hide Worker.Inv, Queue, DoneBytes, DoneItems, Sizes, Plan, GoodRoot, CanFinish, FileOnPath;
      PlanFacts();
      OutsideRoot(G(), destination);
      ghost var before := vol.fs;
      var e := MkdirAll(destination);
      assert forall p :: p in vol.fs && job.source <= p ==> p in before;
      EmptyQueue(G(), vol.fs);
      InvValid();
      FinishedCanFinish(vol.fs, vol.device, rows);
      return if e == Ok then Done else Error(Io(e));
    }

    ghost predicate NoFilesLeft()
      reads this, vol
    {
      forall p :: p in vol.fs && job.source <= p ==> vol.fs[p] == Dir
    }

    /** With no rows yet, the requested destination is one the job may go to and, if it must, may clear. */
    lemma PlanRoot()
      requires Inv() && rows == [] && !(job.source <= job.destination)
      ensures job.destination != []
      ensures job.policy in {Ask, Overwrite} || job.destination !in vol.fs ==> job.source in vol.fs ==> GoodRoot(G(), job.destination)
      ensures job.policy == Overwrite ==> MayClear(job.destination)
    {
      if job.destination <= job.source {
        if job.source in vol.fs { AncestorIsDir(vol.fs, job.destination, job.source); }
      } else {
        ApartStaysOut(G(), job.destination);
      }
    }

    lemma FreshRoot(d: Path)
      requires Inv()
      ensures d !in vol.fs ==> Under(vol.fs, d) == {}
    {
      if d !in vol.fs { AbsentHasNothingUnder(vol.fs, d); }
    }

    /** A free sibling of the requested destination serves as well. */
    lemma GoodSibling(sibling: Path)
      requires Inv() && rows == [] && !(job.source <= job.destination) && job.destination != []
      requires NextFree(vol.fs, job.destination, Some(sibling)) && sibling !in vol.fs
      ensures Under(vol.fs, sibling) == {}
      ensures job.source in vol.fs ==> GoodRoot(G(), sibling)
    {
      hide NextFree;
      AbsentHasNothingUnder(vol.fs, sibling);
      if job.source in vol.fs {
        FreeSibling(vol.fs, job.source, job.destination, sibling);
        ApartStaysOut(G(), sibling);
      }
    }

    lemma PlanFacts()
      requires Inv()
      ensures Fit(G()) && WellFormed(vol.fs) && NothingNewInSource(G(), vol.fs)
    {}

    // ----- The run of one claimed job -----

    /** What the loop over the items knows before item `k`. */
    ghost predicate AtItem(pending: seq<CopyItem>, k: nat, bytes: nat, items: nat)
      reads this, vol
    {
      && Inv() && !vol.dead && status != Completed && rows != [] && k <= |pending|
      && Queue(G(), vol.fs, rows, pending, k) && Tallied(bytes, items) && Waiting(rows)
    }

    /** What a pause or a cancellation seen by the worker leaves: the row that was in hand says so, and no row has failed. */
    ghost predicate Halted()
      reads this, vol
    {
      || (status == Paused && exists i :: PausedAt(i) && WaitingBut(rows, i))
      || (status == Cancelled && (Waiting(rows) || exists i :: RowIs(i, Cancelled) && WaitingBut(rows, i)))
    }

    /** Nothing is in the way of the job: neither of the rows that are left to copy nor, before there are rows, of its start. */
    ghost predicate Able()
      reads this, vol
    {
      if rows == [] then Startable() else Finishable()
    }

    /** One turn of the loop: the item is copied and marked completed, or the run of the job ends here. */
    method CopyNext(pending: seq<CopyItem>, k: nat, bytes: nat, items: nat) returns (nextBytes: nat, nextItems: nat, ended: bool, r: Result)
      requires AtItem(pending, k, bytes, items) && k < |pending|
      modifies this`rows, this`status, this`steered, this`cleared, this`processedBytes, this`processedItems, this`reported, vol
      ensures Inv() && status != Completed && rows != []
      ensures (old(vol.disturbed) ==> vol.disturbed) && (old(steered) ==> steered)
      ensures !ended ==> r == Done && AtItem(pending, k + 1, nextBytes, nextItems)
      ensures !ended ==> processedBytes == nextBytes && processedItems == nextItems
      ensures !ended ==> (Finishable() <==> old(Finishable())) && (steered || status == old(status))
      ensures old(Finishable()) && Quiet(old(status)) ==> !ended
      ensures ended && r == Done && !vol.dead ==> status == NeedsAttention || Halted()
      ensures ended && r == Done && !vol.dead && status == Paused ==> PausedAt(pending[k].id) && (Finishable() <==> old(Finishable()))
      ensures old(Finishable()) && !vol.disturbed ==> r == Done && (ended ==> status != NeedsAttention)
      ensures DirsKept(job.source, old(vol.fs), vol.fs)
      ensures ended && r == Done && !vol.disturbed && !steered && old(status) == Running ==> status == NeedsAttention && !NoConflict(rows)
      ensures r.Error? && !vol.dead ==> RowIs(pending[k].id, Failed) && WaitingBut(rows, pending[k].id)
      ensures r.Error? && !vol.disturbed && !pending[k].persisted ==> rows[pending[k].id].destination !in vol.fs
      ensures !pending[k].persisted && pending[k].destination in old(vol.fs) ==> ended && r == Done && (vol.dead || status in {NeedsAttention, Cancelled})
      ensures !old(Finishable()) ==> !Finishable()
      ensures old(status) == Cancelled ==> ended && r == Done && status == Cancelled && vol.fs == old(vol.fs) && rows == old(rows)
      ensures r == Done || r.Error?
    {
      hide Worker.Inv, Queue, OnlyRow, NoConflict, DoneBytes, DoneItems, Sizes, Worked, Clear, CanFinish, DirsKept;
      nextBytes, nextItems, ended, r := bytes, items, true, Done;
      NotCancelPolicy();
      DirsKeptSame(job.source, vol.fs);
      InvValid();
      var s := GetJobStatus();
      if s == Cancelled { return; }
      QueueHead(G(), vol.fs, rows, pending, k);
      ghost var fs0, rows0 := vol.fs, rows;
      var item := pending[k];
      FinishableRow(fs0, vol.device, rows0, item.id);
      var copied;
      copied, r := CopyOne(item, bytes, items);
      ItemIsBeside(item.(processed := copied));
      WorkedKeepsDirs(job.source, fs0, vol.fs, item.temp, item.destination);
      OnlyRowCounts(rows0, rows, item.id);
      ghost var mid := rows;
      if r != Done {
        OnlyRowSame(rows, item.id);
        if r.Error? {
          MarkItem(rows0, item, Failed, copied);
          OnlyRowTransitive(rows0, mid, rows, item.id);
          OnlyOneWorked(rows0, rows, item.id);
        } else {
          if r == JobPaused && !vol.dead { StillFree(rows0, fs0, item.id); }
          r := Done;
        }
        StillBlocked(rows0, fs0, mid, item.id);
        InvValid();
        return;
      }
      nextBytes, nextItems, ended, r := RecordItem(rows0, fs0, pending, k, copied, bytes, items);
      InvValid();
    }

    /** After a copy without an error: the status is read again, and the item is marked cancelled or completed. */
    method RecordItem(ghost rows0: seq<Row>, ghost fs0: Tree, pending: seq<CopyItem>, k: nat, copied: nat, bytes: nat, items: nat)
      returns (nextBytes: nat, nextItems: nat, ended: bool, r: Result)
      requires Inv() && status != Completed && k < |pending| && rows != [] && (!vol.dead ==> NoConflict(rows))
      requires Queue(G(), fs0, rows0, pending, k) && Worked(fs0, vol.fs, pending[k].temp, pending[k].destination)
      requires OnlyRow(rows0, rows, pending[k].id) && rows0[pending[k].id].status != Completed && Waiting(rows0)
      requires Matches(pending[k].(processed := copied))
      requires status == Cancelled || (Copied(pending[k], copied) && ClearFor(fs0, pending[k]))
      requires DoneBytes(rows) == bytes && DoneItems(rows) == items && totalBytes == Sizes(rows) && totalItems == |rows|
      requires !vol.dead && status != Cancelled ==> reported <= bytes + copied
      modifies this`rows, this`status, this`steered, this`processedBytes, this`processedItems, this`reported, vol
      ensures Inv() && status != Completed && rows != []
      ensures (old(vol.disturbed) ==> vol.disturbed) && (old(steered) ==> steered)
      ensures !ended ==> r == Done && AtItem(pending, k + 1, nextBytes, nextItems)
      ensures !ended ==> processedBytes == nextBytes && processedItems == nextItems
      ensures !ended ==> (Finishable() <==> CanFinish(fs0, vol.device, rows0)) && (steered || status == old(status))
      ensures !vol.disturbed && !steered && old(status) != Cancelled ==> !ended
      ensures !steered ==> status == old(status)
      ensures ended && !vol.dead ==> r == Done && status == Cancelled && RowIs(pending[k].id, Cancelled) && Halted()
      ensures old(status) == Cancelled ==> ended && r == Done && status == Cancelled
      ensures ended && !vol.dead && pending[k].destination in vol.fs ==> !Finishable()
      ensures !CanFinish(fs0, vol.device, rows0) ==> !Finishable()
      ensures (r == Done || (r.Error? && vol.dead)) && vol.fs == old(vol.fs)
    {
      hide Worker.Inv, Queue, OnlyRow, NoConflict, DoneBytes, DoneItems, Sizes, Worked, Clear, CanFinish, RowMatches;
      nextBytes, nextItems, ended, r := bytes, items, true, Done;
      var s := GetJobStatus();
      if s == Cancelled {
        ghost var mid := rows;
        RowPaths(rows0, pending[k], copied);
        MarkItem(rows0, pending[k], Cancelled, copied);
        OnlyRowTransitive(rows0, mid, rows, pending[k].id);
        OnlyOneWorked(rows0, rows, pending[k].id);
        if pending[k].destination in vol.fs { OpenInTheWay(rows0, pending[k].id); }
        StillBlocked(rows0, fs0, mid, pending[k].id);
        return;
      }
      FinishItem(rows0, fs0, pending, k, copied, bytes, items);
      InvValid();
      if vol.dead { return nextBytes, nextItems, true, Error(Io(Crashed)); }
      nextBytes, nextItems := bytes + copied, items + 1;
      CountsAtMost(rows);
      UpdateJobProgress(nextBytes, nextItems, None);
      InvValid();
      if vol.dead { return nextBytes, nextItems, true, Error(Io(Crashed)); }
      ended := false;
    }

    lemma OpenInTheWay(before: seq<Row>, i: nat)
      requires OnlyRow(before, rows, i) && before[i].status != Completed && before[i].destination in vol.fs
      ensures !Finishable()
    {
      CopyInTheWay(vol.fs, vol.device, rows, i);
    }

    lemma RowPaths(rows0: seq<Row>, item: CopyItem, copied: nat)
      requires Matches(item.(processed := copied)) && OnlyRow(rows0, rows, item.id)
      ensures rows0[item.id].temp == item.temp && rows0[item.id].destination == item.destination
    {}

    /** The item in hand has not been completed: what was in the way of the plan still is. */
    lemma StillBlocked(rows0: seq<Row>, fs0: Tree, mid: seq<Row>, i: nat)
      requires Inv() && OnlyRow(rows0, mid, i) && OnlyRow(mid, rows, i) && rows0[i].status != Completed
      requires Worked(fs0, vol.fs, rows0[i].temp, rows0[i].destination)
      ensures !CanFinish(fs0, vol.device, rows0) ==> !Finishable()
    {
      hide Worker.Inv, Worked, CanFinish;
      OnlyRowTransitive(rows0, mid, rows, i);
      OnlyRowSameTargets(rows0, rows, i);
      RowsAreBeside(rows0, i);
      BlockedStays(fs0, vol.fs, vol.device, rows0, rows, i);
    }

    /** The item in hand was paused: the plan can be finished if it could be. */
    lemma StillFree(rows0: seq<Row>, fs0: Tree, i: nat)
      requires Inv() && OnlyRow(rows0, rows, i) && rows0[i].status != Completed && Waiting(rows0) && PausedAt(i)
      requires Staged(fs0, vol.fs, rows0[i].temp, rows0[i].temp) && status == Paused
      ensures CanFinish(fs0, vol.device, rows0) ==> Finishable()
      ensures Halted()
    {
      hide Worker.Inv, Staged, CanFinish;
      OnlyOneWorked(rows0, rows, i);
      OnlyRowSameTargets(rows0, rows, i);
      RowsAreBeside(rows0, i);
      FreeStays(fs0, vol.fs, vol.device, rows0, rows, i);
    }

    /** No crash, no fault and no request of the user since the job was claimed. */
    ghost predicate Quiet(claimed: Status)
      reads this, vol
    {
      !vol.disturbed && !steered && claimed == Running && job.policy != CancelTransfer
    }

    /** The item that was in hand failed or was cancelled. */
    method MarkItem(ghost rows0: seq<Row>, item: CopyItem, s: Status, copied: nat)
      requires Inv() && status != Completed && s in {Failed, Cancelled} && rows != []
      requires Matches(item.(processed := copied)) && OnlyRow(rows0, rows, item.id) && rows0[item.id].status != Completed
      modifies this`rows, vol
      ensures Inv() && (old(vol.disturbed) ==> vol.disturbed) && rows != [] && vol.fs == old(vol.fs) && |rows| == |old(rows)|
      ensures !vol.dead ==> RowIs(item.id, s) && rows == old(rows)[item.id := old(rows)[item.id].(status := s, processed := copied)]
      ensures OnlyRow(old(rows), rows, item.id)
    {
      hide Worker.Inv;
      UpdateItemStatus(item.id, s, copied);
    }

    /** The copied item is marked completed. */
    method FinishItem(ghost rows0: seq<Row>, ghost fs0: Tree, pending: seq<CopyItem>, k: nat, copied: nat, ghost bytes: nat, ghost items: nat)
      requires Inv() && status != Completed && k < |pending| && rows != [] && (!vol.dead ==> NoConflict(rows))
      requires Queue(G(), fs0, rows0, pending, k) && Worked(fs0, vol.fs, pending[k].temp, pending[k].destination)
      requires OnlyRow(rows0, rows, pending[k].id) && rows0[pending[k].id].status != Completed && Waiting(rows0)
      requires Matches(pending[k].(processed := copied)) && Copied(pending[k], copied)
      requires DoneBytes(rows) == bytes && DoneItems(rows) == items && ClearFor(fs0, pending[k])
      modifies this`rows, vol
      ensures Inv() && vol.fs == old(vol.fs) && (old(vol.disturbed) ==> vol.disturbed) && rows != []
      ensures old(vol.dead) ==> vol.dead
      ensures !vol.dead ==>
        && Queue(G(), vol.fs, rows, pending, k + 1) && Waiting(rows) && Sizes(rows) == old(Sizes(rows)) && |rows| == old(|rows|)
        && DoneBytes(rows) == bytes + copied && DoneItems(rows) == items + 1
        && (Finishable() <==> CanFinish(fs0, vol.device, rows0))
      ensures !CanFinish(fs0, vol.device, rows0) ==> !Finishable()
    {
      hide Worker.Inv, Queue, Sizes, DoneBytes, DoneItems, Worked, NoConflict, Clear, CanFinish;
      var i := pending[k].id;
      ghost var mid := rows;
      UpdateItemStatus(i, Completed, copied);
      if rows == mid {
        CopyInTheWay(vol.fs, vol.device, rows, i);
      } else {
        RowsAreBeside(rows0, i);
        CanFinishStep(fs0, vol.fs, vol.device, rows0, rows, i);
      }
      if !vol.dead {
        CountsUpdate(mid, i, mid[i].(status := Completed, processed := copied));
        StillNoConflict(mid, i, Completed, copied);
        OnlyOneWorked(rows0, mid, i);
        QueueMoves(G(), fs0, rows0, vol.fs, rows, pending, k);
      }
    }

    lemma RowsAreBeside(rows0: seq<Row>, i: nat)
      requires Inv() && |rows0| == |rows| && i < |rows|
      requires forall j :: 0 <= j < |rows| ==> rows[j].temp == rows0[j].temp && rows[j].destination == rows0[j].destination
      ensures WellFormed(vol.fs)
      ensures forall j :: 0 <= j < |rows| && j != i ==> rows[j].temp != rows0[i].temp
      ensures forall j :: 0 <= j < |rows| ==> Beside(rows0[j].temp, rows0[j].destination) && TEMP_DIR !in rows0[j].destination
    {
      hide Beside;
      forall j | 0 <= j < |rows|
        ensures Beside(rows0[j].temp, rows0[j].destination) && TEMP_DIR !in rows0[j].destination
      {
        assert GoodRow(G(), rows[j]);
      }
    }

    lemma StillNoConflict(before: seq<Row>, i: nat, s: Status, processed: nat)
      requires NoConflict(before) && i < |before| && s != Conflict
      ensures NoConflict(before[i := before[i].(status := s, processed := processed)])
    {}

    lemma QueueHead(g: Setting, fs: Tree, rows: seq<Row>, pending: seq<CopyItem>, k: nat)
      requires Queue(g, fs, rows, pending, k) && k < |pending|
      ensures ReadyItem(g, fs, rows, pending[k])
      ensures pending[k].id < |rows| && rows[pending[k].id].status != Completed
    {}

    /** A finished move removes its source, entry by entry. */
    method FinishMove() returns (r: Result)
      requires Inv() && (job.isMove ==> status != Completed && (Finished(rows) || NoFilesLeft()))
      modifies vol
      ensures Inv() && (old(vol.disturbed) ==> vol.disturbed)
      ensures old(vol.dead) ==> vol.dead
      ensures r == Done ==> (job.isMove ==> Under(vol.fs, job.source) == {})
      ensures r == Done || (r.Error? && vol.disturbed)
      ensures DirsKept(job.source, old(vol.fs), vol.fs)
    {
      if !job.isMove { return Done; }
      ghost var before := vol.fs;
      var e := vol.RemoveAll(job.source);
      SourceRemovalKeepsSound(G(), before, vol.fs, rows, cleared);
      PrunedKeepsDirs(job.source, before, vol.fs);
      return if e == Ok then Done else Error(Io(e));
    }

    /** What is refused before anything is planned. */
    method CheckRequest() returns (r: Result)
      requires Inv() && !vol.dead
      ensures r == Done && job.policy != CancelTransfer ==> Admitted()
      ensures rows != [] || Startable() ==> r == Done
      ensures r == Done <==>
        && !(job.isMove && (job.policy in {Skip, SkipIdentical} || sourceIsRoot)) && !(job.source <= job.destination)
        && (job.policy == SkipIdentical ==> IsFile(vol.fs, job.source))
      ensures job.isMove && job.policy in {Skip, SkipIdentical} ==> r == Error(PolicyNotForMove)
      ensures job.isMove && job.policy !in {Skip, SkipIdentical} && sourceIsRoot ==> r == Error(RootOperation)
      ensures !job.isMove && job.policy == SkipIdentical && job.source !in vol.fs ==> r == Error(SourceMissing)
      ensures !job.isMove && job.policy == SkipIdentical && IsDir(vol.fs, job.source) ==> r == Error(DirectoryNotSupported)
      ensures r == Done || r.Error?
    {
      if job.isMove && job.policy in {Skip, SkipIdentical} { return Error(PolicyNotForMove); }
      if job.policy == SkipIdentical {
        SourceStillFile();
        if job.source !in vol.fs { return Error(SourceMissing); }
        if vol.fs[job.source] == Dir { return Error(DirectoryNotSupported); }
      }
      if job.isMove && sourceIsRoot { return Error(RootOperation); }
      if job.source <= job.destination { return Error(DestinationInsideSource); }
      return Done;
    }

    lemma SourceStillFile()
      requires Inv() && !job.isMove
      ensures job.policy == SkipIdentical && rows != [] ==> IsFile(vol.fs, job.source)
      ensures IsFile(vol.fs, job.source) ==> IsFile(origin, job.source)
    {}

    /** The loop over the items. Without items there is nothing to do, and nothing stops it. */
    method CopyAll(pending: seq<CopyItem>, bytes0: nat, items0: nat) returns (ended: bool, r: Result)
      requires Inv() && !vol.dead && Waiting(rows)
      requires status != Completed ==>
        && Queue(G(), vol.fs, rows, pending, 0)
        && (rows != [] ==> Tallied(bytes0, items0) && (pending == [] ==> processedBytes == bytes0 && processedItems == items0))
        && (pending == [] && rows == [] ==> NoFilesLeft())
      requires status == Completed ==> pending == [] && rows == [] && !job.isMove
      modifies this`rows, this`status, this`steered, this`cleared, this`processedBytes, this`processedItems, this`reported, vol
      ensures Inv() && (old(vol.disturbed) ==> vol.disturbed) && (old(steered) ==> steered)
      ensures pending == [] ==> !ended && rows == old(rows) && status == old(status)
      ensures !ended ==> r == Done && !vol.dead && (rows != [] ==> Counted())
      ensures if ended then status != Completed else old(Finishable())
      ensures rows == [] <==> old(rows) == []
      ensures ended && !old(Finishable()) ==> !Finishable()
      ensures r.Error? && !vol.disturbed && (forall k :: 0 <= k < |pending| ==> !pending[k].persisted) ==> FailedAhead()
      ensures old(status) == Cancelled && pending != [] ==> ended && r == Done && status == Cancelled
      ensures old(Finishable()) && Quiet(old(status)) ==> !ended
      ensures ended && r == Done && !vol.dead ==> status == NeedsAttention || (Halted() && (status == Paused ==> (Finishable() <==> old(Finishable()))))
      ensures old(Finishable()) && !vol.disturbed ==> r == Done && (ended ==> status != NeedsAttention)
      ensures DirsKept(job.source, old(vol.fs), vol.fs)
      ensures ended && r == Done && !vol.disturbed && !steered && old(status) == Running ==> status == NeedsAttention && !NoConflict(rows)
      ensures !ended && job.isMove ==> status != Completed && (Finished(rows) || NoFilesLeft())
      ensures r == Done || r.Error?
    {
      hide Worker.Inv, Queue, DoneBytes, DoneItems, Sizes, CanFinish, DirsKept;
      ended, r := false, Done;
      DirsKeptSame(job.source, vol.fs);
      if rows == [] { FinishedCanFinish(vol.fs, vol.device, rows); }
      if status == Completed { return; }
      if pending != [] { QueueHead(G(), vol.fs, rows, pending, 0); }
      var k, bytes, items := 0, bytes0, items0;
      while k < |pending|
        invariant Inv() && (old(vol.disturbed) ==> vol.disturbed) && (old(steered) ==> steered)
        invariant r == Done && !ended && (Finishable() <==> old(Finishable())) && (steered || status == old(status))
        invariant old(status) == Cancelled ==> k == 0 && status == Cancelled
        invariant (rows == [] <==> old(rows) == []) && DirsKept(job.source, old(vol.fs), vol.fs)
        invariant pending != [] ==> AtItem(pending, k, bytes, items)
        invariant k > 0 ==> processedBytes == bytes && processedItems == items
        invariant pending == [] ==> vol.fs == old(vol.fs) && rows == old(rows) && status == old(status) && !vol.dead
        invariant pending == [] ==> processedBytes == old(processedBytes) && processedItems == old(processedItems)
      {
        ghost var before := vol.fs;
        bytes, items, ended, r := CopyNext(pending, k, bytes, items);
        DirsKeptTransitive(job.source, old(vol.fs), before, vol.fs);
        InvValid();
        if ended { return; }
        k := k + 1;
      }
      if rows != [] {
        QueueEnds(G(), vol.fs, rows, pending);
        FinishedCanFinish(vol.fs, vol.device, rows);
      }
    }

    /** No failed row has anything at its destination. */
    ghost predicate FailedAhead()
      reads this, vol
    {
      forall i :: 0 <= i < |rows| && rows[i].status == Failed ==> rows[i].destination !in vol.fs
    }

    lemma NotCancelPolicy()
      requires Inv()
      ensures rows != [] ==> job.policy != CancelTransfer
    {}

    /** A claimed job, from the checks to completion, a stop or an error. */
    method ProcessTransfer() returns (r: Result)
      requires Inv() && status != Completed && reported == 0 && !vol.dead
      modifies this`rows, this`totalBytes, this`totalItems, this`processedBytes, this`processedItems, this`reported
      modifies this`status, this`steered, this`cleared, vol
      ensures Inv() && (old(vol.disturbed) ==> vol.disturbed) && (old(steered) ==> steered)
      ensures Finished(old(rows)) ==> rows == old(rows) && (!vol.disturbed ==> r == Done && status == Completed)
      ensures Finished(old(rows)) && !steered ==> status in {old(status), Completed} && (r == Done && !vol.dead ==> status == Completed)
      ensures old(rows) != [] ==> rows != [] && (status == Completed ==> old(Finishable())) && (!old(Finishable()) ==> !Finishable())
      ensures old(rows) != [] && old(Finishable()) && !vol.disturbed && !steered && old(status) == Running ==>
        r == Done && status == Completed
      ensures r == Done && !vol.disturbed && !steered && old(status) == Running ==>
        status == Completed || (status == NeedsAttention && !NoConflict(rows))
      ensures old(rows) == [] && status == Completed ==> old(Startable())
      ensures old(Startable()) && !vol.disturbed && !steered && old(status) == Running ==> r == Done && status == Completed
      ensures r == Done && !vol.dead ==> status in {Completed, NeedsAttention} || Halted()
      ensures old(Able()) && !vol.disturbed ==> r == Done && status != NeedsAttention && (status == Paused ==> Able())
      ensures old(rows) != [] ==> DirsKept(job.source, old(vol.fs), vol.fs)
      ensures old(rows) == [] && status == Completed && job.policy !in {Skip, SkipIdentical} ==> Mirrored(old(vol.fs), vol.fs)
      ensures old(rows) == [] && r.Error? && !vol.disturbed ==> FailedAhead()
      ensures r == Done || r.Error?
    {
      hide Worker.Inv, Worker.Admitted, RoomFor, Queue, DoneBytes, DoneItems, Sizes, CanFinish, DirsKept, Worker.Mirrored;
      NotCancelPolicy();
      ghost var fs0 := vol.fs;
      PlanFacts();
      DirsKeptSame(job.source, fs0);
      r := CheckRequest();
      if r != Done { return; }
      var pending, bytes, items;
      pending, bytes, items, r := TransferItems();
      InvValid();
      if r != Done { return; }
      if rows == [] { FinishedCanFinish(vol.fs, vol.device, rows); }
      if vol.dead { return Error(Io(Crashed)); }
      ghost var fs1 := vol.fs;
      r := CopyAndFinish(pending, bytes, items);
      StaysMirrored(fs0, fs1);
      InvValid();
    }

    /**
     The loop over the items and the end of the job. A cancellation that came before it is kept exactly if there is an
     item, before which the worker looks at the status.
     */
    method CopyAndFinish(pending: seq<CopyItem>, bytes: nat, items: nat) returns (r: Result)
      requires Inv() && !vol.dead && Waiting(rows)
      requires status != Completed ==>
        && Queue(G(), vol.fs, rows, pending, 0)
        && (rows != [] ==> Tallied(bytes, items) && (pending == [] ==> processedBytes == bytes && processedItems == items))
        && (pending == [] && rows == [] ==> NoFilesLeft())
      requires status == Completed ==> pending == [] && rows == [] && !job.isMove
      modifies this`rows, this`status, this`steered, this`cleared, this`processedBytes, this`processedItems, this`reported, vol
      ensures Inv() && (old(vol.disturbed) ==> vol.disturbed) && (old(steered) ==> steered)
      ensures old(status) == Cancelled && pending != [] ==> status == Cancelled
      ensures old(status) == Cancelled && !vol.disturbed ==> (status == Cancelled <==> pending != [])
      ensures (rows == [] <==> old(rows) == []) && (status == Completed ==> old(Finishable()))
      ensures !old(Finishable()) ==> !Finishable()
      ensures r.Error? && !vol.disturbed && (forall k :: 0 <= k < |pending| ==> !pending[k].persisted) ==> FailedAhead()
      ensures DirsKept(job.source, old(vol.fs), vol.fs)
      ensures pending == [] ==> rows == old(rows) && (!steered ==> status in {old(status), Completed})
      ensures pending == [] ==> (!vol.disturbed ==> r == Done) && (r == Done && !vol.dead ==> status == Completed)
      ensures r == Done && !vol.dead ==> status in {Completed, NeedsAttention} || Halted()
      ensures old(Finishable()) && !vol.disturbed ==> r == Done && status != NeedsAttention && (status == Paused ==> Finishable())
      ensures old(Finishable()) && !vol.disturbed && !steered && old(status) == Running ==> r == Done && status == Completed
      ensures r == Done && !vol.disturbed && !steered && old(status) == Running ==>
        status == Completed || (status == NeedsAttention && !NoConflict(rows))
      ensures r == Done || r.Error?
    {
      hide Worker.Inv, Queue, DoneBytes, DoneItems, Sizes, CanFinish, NoConflict, DirsKept;
      NotCancelPolicy();
      ghost var fs0 := vol.fs;
      if pending != [] { QueueHead(G(), vol.fs, rows, pending, 0); }
      var ended;
      ended, r := CopyAll(pending, bytes, items);
      InvValid();
      if ended { return; }
      ghost var fs1 := vol.fs;
      r := FinishJob();
      DirsKeptTransitive(job.source, fs0, fs1, vol.fs);
      InvValid();
    }

    /** A cancellation after the last look: whatever the turn ends with, it overwrites the cancellation. */
    method CancelledTooLate(end: Status)
      requires Inv() && !vol.dead && status == Running && end in TRANSFER_ENDS
      requires end == Completed ==> (rows != [] ==> Counted()) && (job.isMove ==> Finished(rows) || NoFilesLeft())
      modifies this`status, this`steered, vol
      ensures Inv() && (!vol.disturbed ==> status == end)
    {
      hide Worker.Inv, DoneBytes, DoneItems, Sizes;
      var _ := Cancel();
      if end == Completed {
        var _ := FinishJob();
      } else if end == Failed {
        FailJob();
      } else {
        SetNeedsAttention();
      }
      InvValid();
    }

    /** The end of a job whose items are all done. */
    method FinishJob() returns (r: Result)
      requires Inv() && !vol.dead && (rows != [] ==> Counted())
      requires job.isMove ==> status != Completed && (Finished(rows) || NoFilesLeft())
      modifies this`status, this`steered, vol
      ensures Inv() && (old(vol.disturbed) ==> vol.disturbed) && (old(steered) ==> steered)
      ensures !vol.disturbed ==> r == Done
      ensures !steered ==> status in {old(status), Completed}
      ensures r == Done ==> vol.dead || (status == Completed && (job.isMove ==> Under(vol.fs, job.source) == {}))
      ensures DirsKept(job.source, old(vol.fs), vol.fs)
      ensures r == Done || r.Error?
    {
      hide Worker.Inv, DoneBytes, DoneItems, Sizes;
      InvValid();
      r := FinishMove();
      InvValid();
      if r != Done { return; }
      CompleteJob();
      InvValid();
    }

    /** One turn of the worker: it claims the job if it is queued, runs it, and records an error. */
    method RunOnce()
      requires Inv() && !vol.dead
      modifies this`rows, this`totalBytes, this`totalItems, this`processedBytes, this`processedItems, this`reported
      modifies this`status, this`steered, this`cleared, vol
      ensures Inv() && (old(vol.disturbed) ==> vol.disturbed)
      ensures old(status) != Queued ==>
        status == old(status) && rows == old(rows) && vol.fs == old(vol.fs) && !vol.dead && steered == old(steered)
      ensures Finished(old(rows)) ==> rows == old(rows)
      ensures old(status) == Queued && Finished(old(rows)) && !vol.disturbed ==> status == Completed
      ensures Finished(old(rows)) && !steered ==> status in {old(status), Running, Completed, Failed}
      ensures old(status) == Queued && Finished(old(rows)) && !steered && !vol.dead ==> status in {Completed, Failed}
      ensures old(status) == Queued && old(rows) != [] && status == Completed ==> old(Finishable())
      ensures old(rows) != [] ==> rows != [] && (!old(Finishable()) ==> !Finishable())
      ensures old(status) == Queued && old(rows) != [] && !vol.disturbed && !steered ==> (status == Completed <==> old(Finishable()))
      ensures old(status) == Queued && !vol.disturbed && !steered ==> status in TRANSFER_ENDS
      ensures old(status) == Queued && !vol.dead ==> status in TRANSFER_ENDS || Halted()
      ensures old(status) == Queued && old(rows) == [] && !vol.disturbed && status == Failed ==> FailedAhead()
      ensures old(rows) != [] ==> DirsKept(job.source, old(vol.fs), vol.fs)
      ensures old(status) == Queued && old(rows) == [] && status == Completed && job.policy !in {Skip, SkipIdentical} ==>
        Mirrored(old(vol.fs), vol.fs)
      ensures old(status) == Queued && old(Able()) && !vol.disturbed ==>
        status == Completed || (steered && Halted() && (status == Paused ==> Able()))
      ensures status == NeedsAttention && old(status) == Queued && !vol.disturbed && !steered ==> !NoConflict(rows)
      ensures old(status) == Queued && old(rows) == [] && status == Completed ==> old(Startable())
      ensures old(status) == Queued && old(rows) == [] && !vol.disturbed && !steered ==> (status == Completed <==> old(Startable()))
    {
      hide Worker.Inv, CanFinish, HasRoom, NoConflict, DirsKept;
      DirsKeptSame(job.source, vol.fs);
      if status != Queued { return; }
      Claim();
      InvValid();
      if vol.dead { return; }
      var r := ProcessTransfer();
      InvValid();
      if r.Error? { FailJob(); }
      InvValid();
    }

    /**
     A job that nothing is in the way of: however often the user pauses it in a turn and resumes it, the next turn that
     is left alone completes it, unless there was a crash or a fault.
     */
    method PauseAgainAndAgain(times: nat)
      requires Inv() && !vol.dead && status == Queued && Able()
      modifies this, vol
      ensures Inv()
      ensures !vol.disturbed ==> status == Completed || Halted()
      ensures !vol.disturbed && !steered ==> status == Completed
    {
      hide Worker.Inv, HasRoom, CanFinish, WaitingBut;
      var n := 0;
      while n < times
        invariant Inv() && 0 <= n <= times
        invariant !vol.disturbed ==> status == Completed || (status == Queued && Able()) || (status == Cancelled && Halted() && steered)
      {
        InvValid();
        if !vol.dead && status == Queued { RunOnce(); }
        InvValid();
        if !vol.dead && status == Paused { var _ := ResumeJob(); }
        n := n + 1;
      }
      InvValid();
      if !vol.dead && status == Queued { RunOnce(); }
    }

    /**
     A move whose files are all copied but whose source is not yet gone: however often the turn is cut short by a crash,
     the first one after it that is not completes the job. A fault, unlike a crash, ends such a job as failed.
     */
    method FinishAgainAndAgain(times: nat)
      requires Inv() && !vol.dead && status == Queued && Finished(rows)
      modifies this, vol
      ensures Inv() && rows == old(rows)
      ensures !vol.disturbed && !steered && status != Failed ==> status == Completed && Closed()
    {
      hide Worker.Inv, Finished;
      var n := 0;
      while n < times
        invariant Inv() && rows == old(rows) && 0 <= n <= times
        invariant steered || status in {Queued, Completed, Failed} || (vol.dead && status == Running)
      {
        if !vol.dead { RunOnce(); }
        if vol.dead { Recover(); }
        n := n + 1;
      }
      if !vol.dead && status == Queued { RunOnce(); }
      InvMeans();
      InvValid();
      FinishedHasRows();
    }

    lemma FinishedHasRows()
      ensures Finished(rows) ==> rows != []
    {}

    method Claim()
      requires Inv() && !vol.dead && status == Queued
      modifies this`status, this`reported, this`steered, vol
      ensures Inv() && vol.fs == old(vol.fs) && (old(vol.disturbed) ==> vol.disturbed)
      ensures status in {Queued, Running} && (!vol.dead ==> status == Running && reported == 0 && !steered)
    {
      hide Sound, Finished;
      var done := vol.Survive();
      if done { status, reported, steered := Running, 0, false; }
    }

    /** The server starts again: an interrupted job and its interrupted rows are queued. */
    method Recover()
      requires Inv()
      modifies this`status, this`rows, vol
      ensures Inv() && vol.fs == old(vol.fs) && |rows| == |old(rows)|
      ensures !vol.dead ==> status != Running
      ensures status == old(status) || (old(status) == Running && status == Queued)
      ensures !vol.dead && old(status) == Running ==> status == Queued && rows == Requeued(old(rows))
      ensures Finished(rows) <==> Finished(old(rows))
      ensures Finished(old(rows)) ==> rows == old(rows)
      ensures Finishable() <==> old(Finishable())
    {
      vol.Restart();
      var done := vol.Survive();
      if done { MarkInterrupted(); }
    }

    method MarkInterrupted()
      requires Inv()
      modifies this`status, this`rows
      ensures Inv() && |rows| == |old(rows)|
      ensures status == if old(status) == Running then Queued else old(status)
      ensures rows == if status == Queued then Requeued(old(rows)) else old(rows)
      ensures Finished(rows) <==> Finished(old(rows))
      ensures Finished(old(rows)) ==> rows == old(rows)
      ensures Finishable() <==> old(Finishable())
    {
      hide CanFinish, Finished, Sound, DoneBytes, DoneItems, Sizes, SameTargets;
      FinishedStays(rows);
      RequeuedSameTargets(rows);
      SameTargetsFinishAlike(vol.fs, vol.device, rows, Requeued(rows));
      if status == Running { status := Queued; }
      if status == Queued {
        var queued := Requeued(rows);
        RequeueKeepsSound(G(), vol.fs, rows, cleared, queued);
        rows := queued;
      }
    }

    /** A failed or cancelled row is queued again, and with it a failed or cancelled job. */
    method RetryItem(i: nat) returns (ok: bool)
      requires Inv() && !vol.dead
      modifies this`status, this`rows, this`processedBytes, this`processedItems, vol
      ensures Inv() && vol.fs == old(vol.fs)
      ensures ok <==> i < |old(rows)| && old(rows)[i].status in {Failed, Cancelled}
      ensures !ok ==> rows == old(rows) && status == old(status)
      ensures ok ==>
        || (vol.dead && rows == old(rows) && status == old(status))
        || (rows == old(rows)[i := old(rows)[i].(status := Queued, processed := 0)] &&
            status == if old(status) in {Failed, Cancelled} then Queued else old(status))
      ensures (rows == [] <==> old(rows) == []) && (Finishable() <==> old(Finishable()))
    {
      hide Sound, CanFinish;
      if i >= |rows| || rows[i].status !in {Failed, Cancelled} { return false; }
      RowChangeKeepsSound(G(), vol.fs, rows, cleared, i, rows[i].(status := Queued, processed := 0));
      SameTargetsFinishAlike(vol.fs, vol.device, rows, rows[i := rows[i].(status := Queued, processed := 0)]);
      var done := vol.Survive();
      if done {
        rows := rows[i := rows[i].(status := Queued, processed := 0)];
        if status in {Failed, Cancelled} { status, processedBytes, processedItems := Queued, 0, 0; }
      }
      return true;
    }

    /** The job is queued again and its rows are deleted, one statement each: it starts anew from what is on disk. */
    method Retry() returns (again: Worker)
      requires Inv() && !vol.dead && status in {Failed, Cancelled}
      modifies this`status, this`processedBytes, this`processedItems, vol
      ensures vol.fs == old(vol.fs) && again.Inv() && again.vol == vol && again.job == job
      ensures again == this ==> vol.dead && status in {old(status), Queued}
      ensures again != this ==>
        fresh(again) && again.status == Queued && again.rows == [] && again.answered == {} && again.origin == vol.fs
    {
      hide Sound, Finished, Fit;
      var done := vol.Survive();
      if done { status, processedBytes, processedItems := Queued, 0, 0; }
      if vol.dead { return this; }
      done := vol.Survive();
      if !done { return this; }
      SoundFitsAgain(G(), vol.fs, rows, cleared);
      again := new Worker(vol, job, sourceIsRoot);
    }

    /**
     A job that is retried and goes on. While its source was whole nothing of it is lost; after that, what had been
     copied is kept unless the policy or the user overwrites it.
     */
    method RetryAndRun(events: seq<Event>) returns (again: Worker)
      requires Inv() && !vol.dead && status in {Failed, Cancelled}
      modifies this, vol
      ensures again.Inv() && again.vol == vol && again.job == job
      ensures !(job.isMove && Finished(old(rows))) && !(job.isMove && Finished(again.rows)) ==>
        forall p :: IsFile(origin, p) && job.source <= p ==> p in vol.fs && vol.fs[p] == origin[p]
      ensures forall i :: 0 <= i < |again.rows| && !again.rows[i].skipped ==>
        again.rows[i].source in again.origin && Safe(again.G(), vol.fs, again.rows, again.rows[i].source)
      ensures again != this && !(job.isMove && Finished(old(rows))) ==>
        forall p :: IsFile(origin, p) && job.source <= p ==> p in again.origin && again.origin[p] == origin[p]
      ensures again != this ==>
        forall i :: 0 <= i < |old(rows)| && CopiedRow(old(rows)[i]) && (forall c :: c in again.Chosen() ==> !(c <= old(rows)[i].destination)) ==>
          old(rows)[i].destination in vol.fs && vol.fs[old(rows)[i].destination] == File(Original(G(), old(rows)[i]))
    {
      hide Worker.Inv, Fit, Original, Safe, FilesAccounted, IsPartial;
      ghost var rows0, fs0 := rows, vol.fs;
      InvMeans();
      CopiesAreThere();
      again := Retry();
      again.Run(events);
      if again != this {
        forall i | 0 <= i < |rows0| && CopiedRow(rows0[i])
          ensures !IsPartial(again.rows, rows0[i].destination)
        {
          again.NotPartial(rows0[i].destination);
        }
      }
    }

    lemma CopiesAreThere()
      requires Inv()
      ensures forall i :: 0 <= i < |rows| && CopiedRow(rows[i]) ==>
        && rows[i].destination in vol.fs && vol.fs[rows[i].destination] == File(Original(G(), rows[i]))
        && !(job.source <= rows[i].destination) && TEMP_DIR !in rows[i].destination
    {
      forall i | 0 <= i < |rows|
        ensures GoodRow(G(), rows[i])
      {}
    }

    lemma NotPartial(p: Path)
      requires Inv() && TEMP_DIR !in p
      ensures !IsPartial(rows, p)
    {
      forall i | 0 <= i < |rows|
        ensures rows[i].temp != p
      {
        RowIsGood(i);
      }
    }

    // ----- The user's answers to conflicts -----

    /** Records that the user wants a row skipped, and counts it as done. */
    method SkipRow(i: nat)
      requires Inv() && status != Completed && i < |rows| && rows[i].status == Conflict
      modifies this`rows, vol
      ensures Inv() && vol.fs == old(vol.fs) && (old(vol.disturbed) ==> vol.disturbed)
      ensures |rows| == |old(rows)| && forall k :: 0 <= k < |rows| && k != i ==> rows[k] == old(rows)[k]
      ensures !vol.dead ==> Answered(vol.fs, old(rows)[i], rows[i], ChooseSkip)
    {
      hide GoodRow, Original, DoneBytes, DoneItems, Sizes, WellFormed, GoodRows, SourceKept, NothingNewInSource;
      hide CopiesExact, TempsArePrefixes, OthersKept, Fit;
      RowChangeKeepsSound(G(), vol.fs, rows, cleared, i, rows[i].(skipped := true));
      hide Sound;
      var done := vol.Survive();
      if done { rows := rows[i := rows[i].(skipped := true)]; }
      UpdateItemStatus(i, Completed, rows[i].size);
    }

    /** Removes what is in the way of a row, and queues the row. */
    method OverwriteRow(i: nat) returns (ok: bool)
      requires Inv() && status != Completed && i < |rows| && rows[i].status == Conflict && !vol.dead
      modifies this`rows, this`cleared, this`answered, vol
      ensures Inv() && (old(vol.disturbed) ==> vol.disturbed)
      ensures |rows| == |old(rows)| && forall k :: 0 <= k < |rows| && k != i ==> rows[k] == old(rows)[k]
      ensures answered == old(answered) + {old(rows)[i].destination}
      ensures ok && !vol.dead ==> Answered(vol.fs, old(rows)[i], rows[i], ChooseOverwrite)
      ensures Pruned(old(vol.fs), vol.fs, old(rows)[i].destination)
      ensures !ok ==> vol.disturbed
    {
      hide Sound, GoodRow, Original, DoneBytes, DoneItems, Sizes, WellFormed, Pruned;
      var d := rows[i].destination;
      ConflictMayBeCleared(i);
      answered := answered + {d};
      var e := ClearDestination(d);
      InvValid();
      if e != Ok { return false; }
      assert d !in Under(vol.fs, d);
      UpdateItemStatus(i, Queued, 0);
      return true;
    }

    lemma ConflictMayBeCleared(i: nat)
      requires Inv() && i < |rows| && rows[i].status == Conflict
      ensures rows[i].destination != [] && Apart(job.source, rows[i].destination)
      ensures forall k :: 0 <= k < |rows| && CopiedRow(rows[k]) ==> !(rows[i].destination <= rows[k].destination)
    {
      assert GoodRow(G(), rows[i]);
    }

    /** Sends a row to a free name beside its destination, and queues it. */
    method RenameRow(i: nat) returns (ok: bool)
      requires Inv() && status != Completed && i < |rows| && rows[i].status == Conflict
      modifies this`rows, vol
      ensures Inv() && vol.fs == old(vol.fs) && (old(vol.disturbed) ==> vol.disturbed)
      ensures |rows| == |old(rows)| && forall k :: 0 <= k < |rows| && k != i ==> rows[k] == old(rows)[k]
      ensures ok && !vol.dead ==> Answered(vol.fs, old(rows)[i], rows[i], ChooseRename)
      ensures !ok ==> rows == old(rows) && old(rows)[i].destination != [] && NextFree(vol.fs, old(rows)[i].destination, None)
    {
      hide Worker.Inv, NextFree, Sound, GoodRow, GoodTarget;
      HasTarget(i);
      var found := NextAvailablePath(vol.fs, rows[i].destination);
      if found.None? { return false; }
      FreeNameIsGood(i, found.value);
      UpdateItemDestination(i, found.value);
      UpdateItemStatus(i, Queued, 0);
      return true;
    }

    lemma HasTarget(i: nat)
      requires Inv() && i < |rows|
      ensures rows[i].destination != []
    {
      assert GoodRow(G(), rows[i]);
    }

    method UpdateItemDestination(i: nat, d: Path)
      requires Inv() && status != Completed && i < |rows| && rows[i].status == Conflict
      requires d !in vol.fs && GoodTarget(G(), d) && Parent(d) == Parent(rows[i].destination)
      modifies this`rows, vol
      ensures Inv() && vol.fs == old(vol.fs) && (old(vol.disturbed) ==> vol.disturbed)
      ensures rows == old(rows) || rows == old(rows)[i := old(rows)[i].(destination := d)]
      ensures !vol.dead ==> rows == old(rows)[i := old(rows)[i].(destination := d)]
      ensures old(vol.dead) ==> vol.dead
    {
      hide Sound, GoodTarget;
      RedirectKeepsSound(G(), vol.fs, rows, cleared, i, d);
      var done := vol.Survive();
      if done { rows := rows[i := rows[i].(destination := d)]; }
    }

    lemma FreeNameIsGood(i: nat, d: Path)
      requires Inv() && i < |rows| && rows[i].status != Completed && rows[i].destination != []
      requires NextFree(vol.fs, rows[i].destination, Some(d))
      ensures d !in vol.fs && GoodTarget(G(), d) && Parent(d) == Parent(rows[i].destination)
    {
      hide NextFree;
      assert GoodRow(G(), rows[i]);
      AncestorIsDir(vol.fs, job.source, rows[i].source);
      FreeSibling(vol.fs, job.source, rows[i].destination, d);
    }

    method ResolveRow(i: nat, answer: Resolution) returns (ok: bool)
      requires Inv() && status != Completed && i < |rows| && rows[i].status == Conflict && !vol.dead
      modifies this`rows, this`cleared, this`answered, vol
      ensures Inv() && (old(vol.disturbed) ==> vol.disturbed)
      ensures |rows| == |old(rows)| && forall k :: 0 <= k < |rows| && k != i ==> rows[k] == old(rows)[k]
      ensures ok && !vol.dead ==> Answered(vol.fs, old(rows)[i], rows[i], answer)
      ensures answered == old(answered) + (if answer == ChooseOverwrite then {old(rows)[i].destination} else {})
      ensures Pruned(old(vol.fs), vol.fs, old(rows)[i].destination)
      ensures answer != ChooseOverwrite ==> vol.fs == old(vol.fs)
      ensures !ok ==> vol.disturbed || answer == ChooseRename
    {
      match answer
      case ChooseSkip =>
        SkipRow(i);
        ok := true;
      case ChooseOverwrite => ok := OverwriteRow(i);
      case ChooseRename => ok := RenameRow(i);
    }

    /** The answers are applied to the conflicting rows in turn; when none is left the job is queued again. */
    method ResolveConflicts(answers: Answers) returns (ok: bool)
      requires Inv() && !vol.dead
      modifies this`rows, this`status, this`steered, this`cleared, this`answered, vol
      ensures Inv() && (old(vol.disturbed) ==> vol.disturbed) && |rows| == |old(rows)|
      ensures old(status) != NeedsAttention || (answers.byRow == map[] && answers.others.None?) || NoConflict(old(rows)) ==>
        !ok && rows == old(rows) && vol.fs == old(vol.fs) && status == old(status)
      ensures answered <= old(answered) + OverwriteTargets(old(rows), answers)
      ensures ok && !vol.dead ==> forall k :: 0 <= k < |rows| ==>
        if old(rows)[k].status == Conflict && answers.For(k).Some? then Settled(old(rows)[k], rows[k], answers.For(k).value)
        else rows[k] == old(rows)[k]
      ensures ok && !vol.dead ==> forall k :: 0 <= k < |rows| && old(rows)[k].status == Conflict ==>
        && (k in answers.byRow ==> Settled(old(rows)[k], rows[k], answers.byRow[k]))
        && (k !in answers.byRow && answers.others.Some? ==> Settled(old(rows)[k], rows[k], answers.others.value))
        && (k !in answers.byRow && answers.others.None? ==> rows[k] == old(rows)[k])
      ensures (!vol.disturbed && old(status) == NeedsAttention && (answers.byRow != map[] || answers.others.Some?)
               && !NoConflict(old(rows)) && !steered && forall k: nat :: answers.For(k) != Some(ChooseRename)) ==> ok
      ensures ok && !vol.dead && !steered ==> (status == Queued <==> NoConflict(rows))
      ensures ok && !vol.dead && NoConflict(rows) ==> status == Queued
    {
      hide Worker.Inv, NextFree, Answered, Settled;
      if status != NeedsAttention || (answers.byRow == map[] && answers.others.None?) || NoConflict(rows) { return false; }
      var i := 0;
      while i < |rows|
        invariant Inv() && !vol.dead && (old(vol.disturbed) ==> vol.disturbed) && 0 <= i <= |rows| == |old(rows)|
        invariant answered <= old(answered) + OverwriteTargets(old(rows), answers)
        invariant status == old(status) && steered == old(steered)
        invariant forall k :: 0 <= k < i ==>
          if old(rows)[k].status == Conflict && answers.For(k).Some? then Settled(old(rows)[k], rows[k], answers.For(k).value)
          else rows[k] == old(rows)[k]
        invariant forall k :: i <= k < |rows| ==> rows[k] == old(rows)[k]
      {
        if rows[i].status == Conflict && answers.For(i).Some? {
          ghost var before := rows[i];
          var mine := ResolveRow(i, answers.For(i).value);
          InvValid();
          if !mine || vol.dead { return false; }
          AnsweredIsSettled(vol.fs, before, rows[i], answers.For(i).value);
        }
        i := i + 1;
      }
      Interfere();
      if !NoConflict(rows) { return true; }
      ok := ResumeNeedsAttentionJob();
    }

    /** A job that still waits for the user is queued; one that was cancelled meanwhile stays so. */
    method ResumeNeedsAttentionJob() returns (ok: bool)
      requires Inv() && !vol.dead
      modifies this`status, vol
      ensures Inv() && vol.fs == old(vol.fs) && (old(vol.disturbed) ==> vol.disturbed)
      ensures !vol.dead ==> (ok <==> old(status) == NeedsAttention) && status == if ok then Queued else old(status)
      ensures vol.dead ==> vol.disturbed
    {
      var done := vol.Survive();
      ok := done && status == NeedsAttention;
      if ok { status := Queued; }
      InvValid();
    }

    // ----- Whole runs -----

    method Step(e: Event)
      requires Inv()
      modifies this, vol
      ensures Inv()
      ensures answered == old(answered) || (e.Resolve? && answered <= old(answered) + OverwriteTargets(old(rows), e.answers))
      ensures old(status) == Cancelled && !e.RetryRow? ==> status == Cancelled
      ensures old(rows) != [] ==> rows != []
      ensures old(rows) != [] && !e.Resolve? && !old(Finishable()) ==> !Finishable()
      ensures old(rows) != [] && !e.Resolve? ==> DirsKept(job.source, old(vol.fs), vol.fs)
    {
      hide Worker.Inv, CanFinish, HasRoom, DirsKept;
      DirsKeptSame(job.source, vol.fs);
      if vol.dead && !e.Start? { return; }
      match e
      case Start => Recover();
      case Turn => RunOnce();
      case Pause => var _ := PauseJob();
      case Resume => var _ := ResumeJob();
      case CancelIt => var _ := Cancel();
      case Resolve(answers) => var _ := ResolveConflicts(answers);
      case RetryRow(i) => var _ := RetryItem(i);
    }

    /**
     Any number of starts of the server, turns of the worker, pauses, resumes, cancellations, answers and retries, in
     any order. A turn may end anywhere, so what holds at the end of a run holds at every moment of one.
     */
    method Run(events: seq<Event>)
      requires Inv()
      modifies this, vol
      ensures Inv()
      ensures !(job.isMove && Finished(rows)) ==>
        forall p :: IsFile(origin, p) && job.source <= p ==> p in vol.fs && vol.fs[p] == origin[p]
      ensures forall i :: 0 <= i < |rows| && !rows[i].skipped ==>
        IsFile(origin, rows[i].source) && Safe(G(), vol.fs, rows, rows[i].source)
      ensures forall p :: IsFile(vol.fs, p) ==>
        Unchanged(G(), vol.fs, p) || IsPartial(rows, p) || IsCopy(G(), rows, p, vol.fs[p])
      ensures forall i :: 0 <= i < |rows| && IsFile(vol.fs, rows[i].temp) ==> vol.fs[rows[i].temp].data <= Original(G(), rows[i])
      ensures forall p :: IsFile(origin, p) && !(job.source <= p) && (forall c :: c in Chosen() ==> !(c <= p)) && !IsPartial(rows, p) ==>
        p in vol.fs && vol.fs[p] == origin[p]
      ensures status == Completed && rows != [] ==>
        && Finished(rows) && processedBytes == totalBytes == Sizes(rows) && processedItems == totalItems == |rows|
        && (job.isMove ==> Under(vol.fs, job.source) == {})
      ensures (forall k :: 0 <= k < |events| ==> !events[k].Resolve?) ==> answered == old(answered)
      ensures old(status) == Cancelled && (forall k :: 0 <= k < |events| ==> !events[k].RetryRow?) ==> status == Cancelled
      ensures old(rows) != [] && !old(Finishable()) && (forall k :: 0 <= k < |events| ==> !events[k].Resolve?) ==>
        !Finishable() && status != Completed
      ensures old(rows) != [] && (forall k :: 0 <= k < |events| ==> !events[k].Resolve?) ==>
        DirsKept(job.source, old(vol.fs), vol.fs)
    {
      hide Worker.Inv, CanFinish, DirsKept;
      DirsKeptSame(job.source, vol.fs);
      var k := 0;
      while k < |events|
        invariant 0 <= k <= |events| && Inv()
        invariant old(status) == Cancelled && (forall j :: 0 <= j < k ==> !events[j].RetryRow?) ==> status == Cancelled
        invariant old(rows) != [] ==> rows != []
        invariant old(rows) != [] && !old(Finishable()) && (forall j :: 0 <= j < k ==> !events[j].Resolve?) ==> !Finishable()
        invariant (forall j :: 0 <= j < k ==> !events[j].Resolve?) ==> answered == old(answered)
        invariant old(rows) != [] && (forall j :: 0 <= j < k ==> !events[j].Resolve?) ==> DirsKept(job.source, old(vol.fs), vol.fs)
      {
        ghost var before := vol.fs;
        Step(events[k]);
        if DirsKept(job.source, old(vol.fs), before) && DirsKept(job.source, before, vol.fs) {
          DirsKeptTransitive(job.source, old(vol.fs), before, vol.fs);
        }
        k := k + 1;
      }
      InvMeans();
      if Finished(rows) { FinishedCanFinish(vol.fs, vol.device, rows); }
    }

    lemma InvMeans()
      requires Inv()
      ensures !(job.isMove && Finished(rows)) ==>
        forall p :: IsFile(origin, p) && job.source <= p ==> p in vol.fs && vol.fs[p] == origin[p]
      ensures forall i :: 0 <= i < |rows| && !rows[i].skipped ==>
        IsFile(origin, rows[i].source) && Safe(G(), vol.fs, rows, rows[i].source)
      ensures FilesAccounted(G(), vol.fs, rows) && TempsArePrefixes(G(), vol.fs, rows)
      ensures forall p :: IsFile(origin, p) && !(job.source <= p) && (forall c :: c in Chosen() ==> !(c <= p)) && !IsPartial(rows, p) ==>
        p in vol.fs && vol.fs[p] == origin[p]
      ensures status == Completed && rows != [] ==> Closed()
    {
      hide Fit, WellFormed, FilesAccounted, TempsArePrefixes, IsPartial, GoodRow, Original, Safe, DoneBytes, DoneItems, Sizes;
      if !(job.isMove && Finished(rows)) {
        forall p | IsFile(origin, p) && job.source <= p
          ensures p in vol.fs && vol.fs[p] == origin[p]
        {
          UnfinishedKeepsEverything(G(), vol.fs, rows, cleared, p);
        }
      }
      forall i | 0 <= i < |rows| && !rows[i].skipped
        ensures IsFile(origin, rows[i].source) && Safe(G(), vol.fs, rows, rows[i].source)
      {
        RowIsSafe(G(), vol.fs, rows, cleared, i);
      }
    }
  }
}
