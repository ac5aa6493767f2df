/**
 Chunked upload of one file by one client: the client asks how much the server has and sends the next chunk from
 there; the server writes chunks into a partial file and renames it when it has the whole. Requests may be aborted,
 replies lost, writes cut short, and the server may stop anywhere.
 */
module Upload {
  import opened FileSystem
  import opened JobStatus
  import opened Volumes
  import opened Names

  const CHUNK_SIZE: nat := 1048576
  const MAX_CHUNK: nat := 2097152
  const MAX_TOTAL: nat := 21474836480

  datatype Policy = Ask | Overwrite | Rename
  datatype Refusal = BadRequest | TooLarge | NotDirectory | UploadCancelled | UploadPaused | ServerError
  datatype Reply = Accepted(received: nat, complete: bool, job: nat) | Refused(why: Refusal) | NoReply

  /** What the client's call returns: whether it calls the file complete, and whether the server had said so. */
  datatype Outcome = Outcome(complete: bool, answered: bool)

  class Session {
    const vol: Volume
    const dir: Path
    const name: string
    const policy: Policy
    const file: Bytes
    var jobs: seq<Status>
    var ticket: Option<nat>  // the job id stored beside the partial file
    ghost const origin: Tree
    ghost var meddled: bool  // the user, another request or the network has interfered

    function TempDir(): Path {
      dir + [TEMP_DIR]
    }

    function Partial(): Path {
      TempDir() + [name + ".partial"]
    }

    function Destination(): Path {
      dir + [name]
    }

    /** Files other than the partial one are as they were, but for what an overwritten destination held. */
    ghost predicate OthersKept(fs: Tree) {
      forall p :: IsFile(origin, p) && p != Partial() && !(policy == Overwrite && Destination() <= p) ==>
        p in fs && fs[p] == origin[p]
    }

    ghost predicate PartialIsPrefix(fs: Tree) {
      Partial() in fs ==> fs[Partial()].File? && fs[Partial()].data <= file
    }

    /** What holds whatever is sent to the server. */
    ghost predicate Base()
      reads vol
    {
      vol.Valid() && name != TEMP_DIR && OthersKept(vol.fs)
    }

    /** What holds when this client alone sends its file. */
    ghost predicate Inv()
      reads vol
    {
      Base() && PartialIsPrefix(vol.fs)
    }

    /** The partial file is as it was, or gone. */
    ghost predicate PartialKept(before: Tree, after: Tree) {
      Partial() in after ==> Partial() in before && after[Partial()] == before[Partial()]
    }

    constructor (vol: Volume, dir: Path, name: string, policy: Policy, file: Bytes)
      requires vol.Valid() && name != TEMP_DIR
      requires dir + [TEMP_DIR, name + ".partial"] in vol.fs ==>
        vol.fs[dir + [TEMP_DIR, name + ".partial"]].File? && vol.fs[dir + [TEMP_DIR, name + ".partial"]].data <= file
      ensures Inv() && this.vol == vol && this.dir == dir && this.name == name && this.policy == policy && this.file == file
      ensures origin == vol.fs && jobs == [] && ticket == None
    {
      this.vol, this.dir, this.name, this.policy, this.file := vol, dir, name, policy, file;
      jobs, ticket, origin, meddled := [], None, vol.fs, false;
      assert dir + [TEMP_DIR] + [name + ".partial"] == dir + [TEMP_DIR, name + ".partial"];
    }

    lemma Places()
      requires Base()
      ensures Parent(Partial()) == TempDir() && Parent(Destination()) == dir && Parent(TempDir()) == dir
      ensures !(Partial() <= Destination()) && !(Destination() <= Partial()) && !(Partial() <= TempDir()) && Partial() != []
      ensures Destination() != []
    {
      assert Partial()[|dir|] == TEMP_DIR && Destination()[|dir|] == name;
    }

    /** How many bytes the partial file has. */
    function Received(fs: Tree): nat {
      if Partial() in fs && fs[Partial()].File? then |fs[Partial()].data| else 0
    }

    /** The user, and other requests, may do anything to the status of a job. */
    method OthersAct()
      requires Base()
      modifies this`jobs, this`meddled
      ensures Base() && |jobs| == |old(jobs)| && (old(meddled) ==> meddled)
      ensures !meddled ==> jobs == old(jobs)
    {
      if * { return; }
      var statuses: seq<Status> :| |statuses| == |jobs|;
      jobs, meddled := statuses, true;
    }

    // ----- What a quiet upload needs -----

    /** The target directory is there, and the policy finds a place for the file in it. */
    ghost predicate Ready(fs: Tree) {
      && IsDir(fs, dir) && !IsFile(fs, TempDir()) && !IsDir(fs, Partial())
      && (forall x, y {:trigger vol.device(x), vol.device(y)} :: dir <= x && dir <= y ==> vol.device(x) == vol.device(y))
      && (Destination() in fs ==> policy == Overwrite || (policy == Rename && CandidateFree(fs)))
    }

    ghost predicate CandidateFree(fs: Tree) {
      exists i :: 1 <= i <= MAX_CANDIDATES && Candidate(Destination(), i) !in fs
    }

    predicate JobGoesOn(job: Option<nat>)
      reads this
    {
      job.Some? ==> job.value < |jobs| && jobs[job.value] !in {Paused, Cancelled}
    }

    /** Writing into the partial file takes none of the names the file may get. */
    lemma StaysReady(before: Tree, after: Tree)
      requires Base() && Ready(before)
      requires forall q :: q in before ==> q in after && (q != Partial() ==> after[q] == before[q])
      requires IsDir(after, Partial()) ==> IsDir(before, Partial())
      requires forall q :: q in after && q !in before ==> q == Partial() || (q <= TempDir() && after[q] == Dir)
      ensures Ready(after)
    {
      Places();
      assert Destination()[|dir|] == name && TempDir()[|dir|] == TEMP_DIR;
      assert Destination() in after ==> Destination() in before;
      if CandidateFree(before) {
        var i :| 1 <= i <= MAX_CANDIDATES && Candidate(Destination(), i) !in before;
        CandidateShape(Destination(), i);
        NoSpaceHere(Candidate(Destination(), i));
      }
    }

    lemma NoSpaceHere(c: Path)
      requires c != [] && Parent(c) == dir && ' ' in c[|c| - 1]
      ensures c != Partial() && !(c <= TempDir())
    {
      assert TempDir()[|TempDir()| - 1] == TEMP_DIR && ' ' !in TEMP_DIR;
      assert |c| == |dir| + 1;
    }

    // ----- Steps on the partial file and the destination -----

    method DropPartial()
      requires Base()
      modifies vol
      ensures Base() && (old(vol.dead) ==> vol.dead) && (old(vol.disturbed) ==> vol.disturbed)
      ensures vol.fs == old(vol.fs) || vol.fs == old(vol.fs) - {Partial()}
      ensures !vol.disturbed && !IsDir(old(vol.fs), Partial()) ==> Partial() !in vol.fs
    {
      Places();
      if IsFile(vol.fs, Partial()) { FileIsLeaf(vol.fs, Partial()); }
      var _ := vol.Remove(Partial());
    }

    /** The chunk is the part of this client's file at `offset`, where the server has come at least. */
    ghost predicate Honest(fs: Tree, offset: nat, chunk: Bytes) {
      offset <= Received(fs) && offset + |chunk| <= |file| && chunk == file[offset..offset + |chunk|]
    }

    /** One write into the partial file. A prefix of the file stays one, whatever part of an honest chunk arrives. */
    method WriteChunk(offset: nat, chunk: Bytes) returns (e: Errno)
      requires Base() && !vol.dead && chunk != []
      modifies vol
      ensures Base() && (old(vol.disturbed) ==> vol.disturbed)
      ensures Honest(old(vol.fs), offset, chunk) && PartialIsPrefix(old(vol.fs)) ==> PartialIsPrefix(vol.fs)
      ensures e == Crashed <==> vol.dead
      ensures e == Ok ==> IsFile(vol.fs, Partial()) && Received(vol.fs) >= offset + |chunk|
      ensures e == Ok && offset == old(Received(vol.fs)) ==> Received(vol.fs) == offset + |chunk|
      ensures forall p :: IsFile(old(vol.fs), p) ==> IsFile(vol.fs, p)
      ensures !vol.disturbed && Ready(old(vol.fs)) ==> e == Ok
      ensures Ready(old(vol.fs)) ==> Ready(vol.fs)
    {
      hide Session.Ready, WellFormed, Session.OthersKept, Splice;
      ghost var before, had := vol.fs, Received(vol.fs);
      e := OpenPartial();
      if e != Ok { return; }
      ghost var mid := vol.fs;
      var n;
      e, n := vol.WriteAt(Partial(), offset, chunk);
      if n > 0 { SpliceLength(mid[Partial()].data, offset, chunk[..n]); }
      if Honest(before, offset, chunk) && PartialIsPrefix(before) {
        assert mid[Partial()].data == file[..had];
        assert chunk[..n] == file[offset..offset + n];
        SpliceOfPrefix(file, had, offset, n);
      }
      Rewritten(mid, vol.fs);
    }

    lemma SpliceLength(data: Bytes, offset: nat, block: Bytes)
      requires block != []
      ensures |Splice(data, offset, block)| == if offset + |block| > |data| then offset + |block| else |data|
    {}

    /** Only the partial file's bytes change. */
    lemma Rewritten(before: Tree, after: Tree)
      requires vol.Valid() && name != TEMP_DIR && OthersKept(before) && Partial() in before
      requires vol.fs == after && IsFile(after, Partial()) && after == before[Partial() := after[Partial()]]
      ensures Base()
      ensures Ready(before) ==> Ready(after)
    {
      assert OthersKept(after);
      if Ready(before) { StaysReady(before, after); }
    }

    /** Makes the temporary directory and the partial file if they are not there yet. */
    method OpenPartial() returns (e: Errno)
      requires Base() && !vol.dead
      modifies vol
      ensures Base() && (old(vol.disturbed) ==> vol.disturbed)
      ensures e == Crashed <==> vol.dead
      ensures e == Ok ==> IsFile(vol.fs, Partial())
      ensures IsFile(vol.fs, Partial()) ==>
        vol.fs[Partial()] == if Partial() in old(vol.fs) then old(vol.fs)[Partial()] else File([])
      ensures IsDir(vol.fs, Partial()) ==> IsDir(old(vol.fs), Partial())
      ensures forall p :: IsFile(old(vol.fs), p) ==> IsFile(vol.fs, p)
      ensures !vol.disturbed && Ready(old(vol.fs)) ==> e == Ok
      ensures Ready(old(vol.fs)) ==> Ready(vol.fs)
    {
      hide Session.Ready, FileOnPath;
      ghost var before := vol.fs;
      Places();
      NoWall(before);
      e := vol.MkdirAll(TempDir());
      if Ready(before) { StaysReady(before, vol.fs); }
      if e != Ok { return; }
      ghost var mid := vol.fs;
      e := vol.OpenFile(Partial(), false);
      if Ready(before) { StaysReady(mid, vol.fs); }
    }

    lemma NoWall(fs: Tree)
      requires WellFormed(fs)
      ensures Ready(fs) ==> !FileOnPath(fs, TempDir())
    {
      if Ready(fs) {
        forall i | 0 <= i <= |TempDir()|
          ensures !IsFile(fs, TempDir()[..i])
        {
          if i <= |dir| {
            assert TempDir()[..i] == dir[..i];
            AncestorIsDir(fs, dir[..i], dir);
          } else {
            assert TempDir()[..i] == TempDir();
          }
        }
      }
    }

    /** Where the file goes: its destination if free, or what the policy says. */
    method ResolveConflict() returns (ok: bool, d: Path)
      requires Base() && !vol.dead
      modifies vol
      ensures Base() && (old(vol.disturbed) ==> vol.disturbed)
      ensures ok ==> !vol.dead && d != [] && Parent(d) == dir && d !in vol.fs && d != TempDir()
      ensures ok && policy != Overwrite ==> NextFree(old(vol.fs), Destination(), Some(d))
      ensures ok && policy == Overwrite ==> d == Destination()
      ensures policy != Overwrite ==> vol.fs == old(vol.fs)
      ensures policy == Ask ==> (ok <==> Destination() !in old(vol.fs))
      ensures !vol.disturbed && Ready(old(vol.fs)) ==> ok
      ensures IsDir(old(vol.fs), dir) ==> IsDir(vol.fs, dir)
      ensures PartialKept(old(vol.fs), vol.fs)
      ensures Partial() in old(vol.fs) ==> Partial() in vol.fs
    {
      Places();
      d := Destination();
      assert d[|dir|] == name && TempDir()[|dir|] == TEMP_DIR;
      if d !in vol.fs { return true, d; }
      match policy
      case Ask => return false, d;
      case Overwrite =>
        var e := vol.RemoveAll(d);
        if e != Ok { return false, d; }
        assert d !in Under(vol.fs, d);
        return true, d;
      case Rename =>
        var r := NextAvailablePath(vol.fs, d);
        if r.None? { return false, d; }
        d := r.value;
        FreeNameHere(d);
        return true, d;
    }

    lemma FreeNameHere(d: Path)
      requires Base() && Destination() in vol.fs && NextFree(vol.fs, Destination(), Some(d))
      ensures d != [] && Parent(d) == dir && d !in vol.fs && d != TempDir()
    {
      Places();
      var i :| 1 <= i <= MAX_CANDIDATES && d == Candidate(Destination(), i);
      CandidateShape(Destination(), i);
      assert TempDir()[|TempDir()| - 1] == TEMP_DIR && ' ' !in TEMP_DIR;
    }

    /** What the partial file holds is renamed, and nothing is replaced. */
    method Finalize(job: nat) returns (ok: bool, ghost d: Path)
      requires Base() && !vol.dead && job < |jobs| && IsFile(vol.fs, Partial())
      modifies this`jobs, this`ticket, this`meddled, vol
      ensures Base() && |jobs| == |old(jobs)| && (old(vol.disturbed) ==> vol.disturbed)
      ensures ok ==> !vol.dead && Stored(old(vol.fs), vol.fs, d) && jobs[job] == Completed && ticket == None
      ensures PartialKept(old(vol.fs), vol.fs)
      ensures !vol.disturbed && Ready(old(vol.fs)) ==> ok
      ensures old(meddled) ==> meddled
    {
      ghost var before := vol.fs;
      hide Session.Base, WellFormed, NextFree;
      var dst;
      ok, dst := ResolveConflict();
      d := dst;
      if !ok { return; }
      SameDeviceHere(before, dst);
      ok := Publish(dst);
      ticket := None;
      if !ok { return; }
      ok := CompleteJob(job);
    }

    lemma SameDeviceHere(fs: Tree, d: Path)
      requires d != [] && Parent(d) == dir
      ensures Ready(fs) ==> IsDir(fs, dir) && vol.device(Partial()) == vol.device(d)
    {
      assert dir <= Partial() && dir <= d;
    }

    /** The rename, and the removal of the temporary directory if nothing else is in it. */
    method Publish(dst: Path) returns (ok: bool)
      requires Base() && !vol.dead && IsFile(vol.fs, Partial())
      requires dst != [] && Parent(dst) == dir && dst !in vol.fs && dst != TempDir()
      modifies vol
      ensures Base() && (old(vol.disturbed) ==> vol.disturbed)
      ensures ok ==> dst in vol.fs && vol.fs[dst] == old(vol.fs)[Partial()]
      ensures PartialKept(old(vol.fs), vol.fs)
      ensures !vol.disturbed && IsDir(old(vol.fs), dir) && vol.device(Partial()) == vol.device(dst) ==> ok
    {
      hide Session.OthersKept;
      Places();
      ghost var before := vol.fs;
      var e := vol.RenameNoReplace(Partial(), dst);
      RenameKeepsInv(before, dst);
      if e != Ok { return false; }
      ghost var stored := vol.fs;
      var _ := vol.Remove(TempDir());
      KeptAfterRmdir(stored, dst);
      Places2();
      return true;
    }

    /** What was in the partial file lies at `d`, in the target directory, where nothing was before unless the policy is to overwrite. */
    ghost predicate Stored(before: Tree, after: Tree, d: Path) {
      && Partial() in before && d in after && after[d] == before[Partial()]
      && (if policy == Overwrite then d == Destination() else NextFree(before, Destination(), Some(d)) && d !in before)
    }

    lemma RenameKeepsInv(before: Tree, dst: Path)
      requires vol.Valid() && name != TEMP_DIR && OthersKept(before) && WellFormed(before)
      requires IsFile(before, Partial()) && dst !in before && Parent(dst) == dir && dst != []
      requires vol.fs == before || (vol.fs == Moved(before, Partial(), dst) && RenameErr(before, Partial(), dst, true) == Ok)
      ensures Base()
      ensures vol.fs != before ==> vol.fs == (before - {Partial()})[dst := before[Partial()]]
    {
      if vol.fs != before { MovedFile(before, Partial(), dst); }
    }

    lemma KeptAfterRmdir(before: Tree, dst: Path)
      requires vol.Valid() && name != TEMP_DIR && OthersKept(before) && WellFormed(before)
      requires IsFile(before, dst) && dst != TempDir() && IsDir(before, TempDir())
      requires vol.fs == before || vol.fs == before - {TempDir()}
      ensures Base() && dst in vol.fs && vol.fs[dst] == before[dst]
    {
      Places2();
    }

    lemma Places2()
      ensures Partial() != TempDir()
    {}

    /** The job's last updates; the statuses end as the worker's methods leave them. */
    method CompleteJob(job: nat) returns (ok: bool)
      requires Base() && job < |jobs|
      modifies this`jobs, this`meddled, vol
      ensures Base() && |jobs| == |old(jobs)| && vol.fs == old(vol.fs) && (old(vol.disturbed) ==> vol.disturbed)
      ensures (!vol.dead ==> jobs[job] == Completed) && (!vol.disturbed ==> ok)
      ensures ok <==> !vol.dead
      ensures old(meddled) ==> meddled
    {
      OthersAct();
      ok := vol.Survive();
      if ok { jobs := jobs[job := Completed]; }
      if vol.dead { ok := false; }
    }

    // ----- The server -----

    /** How much the server has, and the job it belongs to. */
    method HandleStatus() returns (received: nat, job: Option<nat>)
      requires Base()
      ensures received == Received(vol.fs) && job == ticket
      ensures Inv() ==> received <= |file|
    {
      received := Received(vol.fs);
      job := ticket;
      assert Inv() && Partial() in vol.fs ==> |vol.fs[Partial()].data| <= |file|;
    }

    /** A new job for the first chunk. When a step fails the partial file goes and the job has failed. */
    method StartJob() returns (ok: bool, job: nat)
      requires Base() && !vol.dead
      modifies this`jobs, this`ticket, this`meddled, vol
      ensures Base() && |jobs| >= |old(jobs)| && (old(vol.disturbed) ==> vol.disturbed)
      ensures ok ==> !vol.dead && job < |jobs| && vol.fs == old(vol.fs) && ticket == Some(job) && jobs[job] == Running
      ensures !ok && !vol.dead ==> job < |jobs| && jobs[job] == Failed
      ensures !ok && !vol.disturbed && !IsDir(old(vol.fs), Partial()) ==> Partial() !in vol.fs && ticket == None
      ensures PartialKept(old(vol.fs), vol.fs)
      ensures forall p :: IsFile(vol.fs, p) ==> IsFile(old(vol.fs), p)
      ensures (old(meddled) ==> meddled) && (!vol.disturbed && !meddled ==> ok)
    {
      ok, job := false, |jobs|;
      var done := vol.Survive();
      if done { jobs := jobs + [Queued]; }
      if vol.dead { return; }
      var stored := WriteTicket(job);
      if vol.dead { return; }
      if !stored {
        DropPartial();
        FailJob(job);
        return;
      }
      ok := BeginJob(job);
      if !ok && !vol.dead {
        DropPartial();
        ticket := None;
        FailJob(job);
      }
    }

    /** A write of the ticket that fails or is cut short may leave anything. */
    method WriteTicket(job: nat) returns (ok: bool)
      requires Base() && !vol.dead
      modifies this`ticket, vol
      ensures Base() && vol.fs == old(vol.fs) && (old(vol.disturbed) ==> vol.disturbed)
      ensures (ok ==> !vol.dead && ticket == Some(job)) && (!vol.disturbed ==> ok)
    {
      ticket := *;
      var done := vol.Survive();
      var faulty := vol.ReadFault();
      ok := done && !vol.dead && !faulty;
      if ok { ticket := Some(job); }
    }

    /** Only a queued job is started. */
    method BeginJob(job: nat) returns (ok: bool)
      requires Base() && !vol.dead && job < |jobs|
      modifies this`jobs, this`meddled, vol
      ensures Base() && |jobs| == |old(jobs)| && vol.fs == old(vol.fs) && (old(vol.disturbed) ==> vol.disturbed)
      ensures ok ==> !vol.dead && jobs[job] == Running
      ensures !meddled ==> (ok <==> !vol.dead && old(jobs)[job] == Queued) && (old(jobs)[job] != Queued ==> jobs == old(jobs))
      ensures (old(meddled) ==> meddled) && (vol.dead ==> vol.disturbed)
    {
      OthersAct();
      if jobs[job] != Queued { return false; }
      var done := vol.Survive();
      if done { jobs := jobs[job := Running]; }
      ok := !vol.dead;
    }

    /** The checks that look at no job, in their order. */
    function Refusal(offset: nat, chunk: nat, total: nat, isDirectory: bool): (r: Option<Refusal>)
      ensures r.None? <==> isDirectory && 1 <= chunk <= 2 * 1024 * 1024 && offset + chunk <= total <= 20 * 1024 * 1024 * 1024
      ensures r == Some(NotDirectory) <==> !isDirectory && 1 <= total <= 20 * 1024 * 1024 * 1024 && offset <= total
      ensures r == Some(TooLarge) <==>
        isDirectory && 1 <= total <= 20 * 1024 * 1024 * 1024 && offset <= total && chunk > 2 * 1024 * 1024
    {
      if total == 0 || total > MAX_TOTAL || offset > total then Some(BadRequest)
      else if !isDirectory then Some(NotDirectory)
      else if chunk == 0 then Some(BadRequest)
      else if chunk > MAX_CHUNK then Some(TooLarge)
      else if offset + chunk > total then Some(BadRequest)
      else None
    }

    /** What a chunk is refused for before any job is looked at. */
    ghost function RefusedFor(fs: Tree, offset: nat, chunk: Bytes, total: nat): Option<Refusal> {
      Refusal(offset, |chunk|, total, IsDir(fs, dir))
    }

    /**
     One chunk, whatever is sent. An acknowledged chunk brings the server further; "complete" means that a file of the
     announced size lies in the target directory, and from an honest client that it is the client's file.
     */
    method HandleChunk(offset: nat, chunk: Bytes, total: nat, jobID: Option<nat>) returns (r: Reply, ghost d: Path)
      requires Base() && !vol.dead
      modifies this`jobs, this`ticket, this`meddled, vol
      ensures Base() && |jobs| >= |old(jobs)| && (old(vol.disturbed) ==> vol.disturbed)
      ensures Honest(old(vol.fs), offset, chunk) && PartialIsPrefix(old(vol.fs)) ==> PartialIsPrefix(vol.fs)
      ensures r.Accepted? ==> !vol.dead && r.received == offset + |chunk| > offset && (r.complete <==> r.received == total)
      ensures r.Accepted? && !r.complete ==> Received(vol.fs) >= r.received
      ensures r.Accepted? && !r.complete && offset == old(Received(vol.fs)) ==> Received(vol.fs) == r.received
      ensures r.Accepted? && r.complete ==> IsFile(vol.fs, d) && |vol.fs[d].data| == total && Parent(d) == dir
      ensures r.Accepted? && r.complete && total == |file| && Honest(old(vol.fs), offset, chunk) && PartialIsPrefix(old(vol.fs)) ==>
        vol.fs[d] == File(file)
      ensures r.Accepted? && r.complete && policy != Overwrite ==> !IsFile(old(vol.fs), d)
      ensures r.Accepted? && r.complete ==>
        r.job < |jobs| && jobs[r.job] == Completed && (jobID.Some? ==> r.job == jobID.value) && ticket == None
      ensures r.Accepted? && !r.complete && jobID.None? ==> ticket == Some(r.job)
      ensures !vol.dead ==> r != NoReply
      ensures RefusedFor(old(vol.fs), offset, chunk, total).Some? ==>
        r == Refused(RefusedFor(old(vol.fs), offset, chunk, total).value) && vol.fs == old(vol.fs) && jobs == old(jobs)
      ensures RefusedFor(old(vol.fs), offset, chunk, total).None? && jobID.Some? && !meddled ==>
        if jobID.value >= |old(jobs)| then r == Refused(ServerError) && vol.fs == old(vol.fs)
        else if old(jobs)[jobID.value] == Cancelled then r == Refused(UploadCancelled) && jobs == old(jobs)
        else if old(jobs)[jobID.value] == Paused then r == Refused(UploadPaused) && vol.fs == old(vol.fs) && jobs == old(jobs)
        else r !in {Refused(UploadCancelled), Refused(UploadPaused)}
      ensures r.Accepted? && !r.complete ==> r.job < |jobs| && JobGoesOn(Some(r.job)) && (jobID.Some? ==> r.job == jobID.value)
      ensures r == Refused(UploadPaused) ==> jobID.Some? && jobID.value < |jobs| && jobs[jobID.value] == Paused && vol.fs == old(vol.fs)
      ensures r == Refused(UploadCancelled) ==> jobID.Some? && jobID.value < |jobs| && jobs[jobID.value] == Cancelled
      ensures r == Refused(UploadCancelled) ==>
        ticket == None && (!vol.disturbed && !IsDir(old(vol.fs), Partial()) ==> Partial() !in vol.fs)
      ensures old(meddled) ==> meddled
      ensures (!vol.disturbed && !meddled && RefusedFor(old(vol.fs), offset, chunk, total).None? && offset == old(Received(vol.fs))
               && Ready(old(vol.fs)) && old(JobGoesOn(jobID))) ==> r.Accepted?
      ensures r.Accepted? && !r.complete && Ready(old(vol.fs)) ==> Ready(vol.fs)
    {
      hide Session.Ready, Session.OthersKept, WellFormed;
      d := [];
      r := NoReply;
      ReadyHasDir(vol.fs);
      DeadIsDisturbed();
      var refusal := Refusal(offset, |chunk|, total, dir in vol.fs && vol.fs[dir] == Dir);
      if refusal.Some? { return Refused(refusal.value), d; }
      var job := 0;
      if jobID.Some? {
        OthersAct();
        if jobID.value >= |jobs| { return Refused(ServerError), d; }
        job := jobID.value;
        if jobs[job] == Cancelled {
          DropPartial();
          ticket := None;
          return Refused(UploadCancelled), d;
        }
        if jobs[job] == Paused { return Refused(UploadPaused), d; }
      }
      var e := WriteChunk(offset, chunk);
      DeadIsDisturbed();
      if e != Ok { return if vol.dead then NoReply else Refused(ServerError), d; }
      ghost var written := vol.fs;
      if jobID.None? {
        var ok;
        ok, job := StartJob();
        if !ok { return if vol.dead then NoReply else Refused(ServerError), d; }
      }
      var received := offset + |chunk|;
      if received < total { return Accepted(received, false, job), d; }
      r, d := FinishUpload(job, total);
      if r.Accepted? {
        NewFile(old(vol.fs), written, d);
        if total == |file| && PartialIsPrefix(written) { PrefixOfFullSize(written[Partial()].data, file); }
      }
    }

    lemma ReadyHasDir(fs: Tree)
      ensures Ready(fs) ==> IsDir(fs, dir)
    {}

    lemma DeadIsDisturbed()
      requires Base()
      ensures !vol.disturbed ==> !vol.dead
    {}

    lemma NewFile(before: Tree, written: Tree, d: Path)
      requires forall p :: IsFile(before, p) ==> IsFile(written, p)
      ensures d !in written ==> !IsFile(before, d)
    {}

    /** The last chunk has arrived: the size check, the rename, the job's end. */
    method FinishUpload(job: nat, total: nat) returns (r: Reply, ghost d: Path)
      requires Base() && !vol.dead && job < |jobs| && IsFile(vol.fs, Partial())
      modifies this`jobs, this`ticket, this`meddled, vol
      ensures Base() && |jobs| == |old(jobs)| && (old(vol.disturbed) ==> vol.disturbed)
      ensures r.Accepted? ==> !vol.dead && r == Accepted(total, true, job) && d in vol.fs && vol.fs[d] == old(vol.fs)[Partial()] && Parent(d) == dir
      ensures r.Accepted? ==> Received(old(vol.fs)) == total
      ensures r.Accepted? && policy != Overwrite ==> d !in old(vol.fs)
      ensures r.Refused? ==> r.why == ServerError && jobs[job] == Failed
      ensures (r.Accepted? ==> jobs[job] == Completed) && (!vol.dead ==> r != NoReply && ticket == None)
      ensures r.Refused? && !vol.disturbed ==> Partial() !in vol.fs
      ensures PartialKept(old(vol.fs), vol.fs) && (old(meddled) ==> meddled)
      ensures !vol.disturbed && Ready(old(vol.fs)) && Received(old(vol.fs)) == total ==> r.Accepted?
    {
      hide Session.Ready, Session.OthersKept, WellFormed;
      d := [];
      if |vol.fs[Partial()].data| != total {
        DropPartial();
        ticket := None;
        FailJob(job);
        return if vol.dead then NoReply else Refused(ServerError), d;
      }
      var ok;
      ok, d := Finalize(job);
      if !ok {
        DropPartial();
        ticket := None;
        FailJob(job);
        return if vol.dead then NoReply else Refused(ServerError), d;
      }
      StoredIsHere(old(vol.fs), d);
      return Accepted(total, true, job), d;
    }

    lemma StoredIsHere(before: Tree, d: Path)
      requires Stored(before, vol.fs, d)
      ensures d in vol.fs && vol.fs[d] == before[Partial()] && Parent(d) == dir
      ensures policy != Overwrite ==> d !in before
    {
      if d != Destination() {
        var i :| 1 <= i <= MAX_CANDIDATES && d == Candidate(Destination(), i);
        CandidateShape(Destination(), i);
      }
    }

    method FailJob(job: nat)
      requires Base() && job < |jobs|
      modifies this`jobs, vol
      ensures Base() && |jobs| == |old(jobs)| && vol.fs == old(vol.fs) && (old(vol.disturbed) ==> vol.disturbed)
      ensures old(vol.dead) ==> vol.dead
      ensures !vol.dead ==> jobs == old(jobs)[job := Failed]
    {
      var done := vol.Survive();
      if done { jobs := jobs[job := Failed]; }
    }

    // ----- The client -----

    /**
     The client's loop. It ends after at most one turn per remaining byte, because every acknowledged chunk brings it
     further. It calls the file complete when the server said so, and also when the server already had as many bytes
     as the file at the start: then nothing was sent, and nothing said that the file is stored.
     */
    method UploadFileWithResume() returns (o: Outcome, ghost d: Path)
      requires Inv() && !vol.dead
      modifies this`jobs, this`ticket, this`meddled, vol
      ensures Inv() && (old(vol.disturbed) ==> vol.disturbed)
      ensures o.complete && o.answered ==> d in vol.fs && vol.fs[d] == File(file) && Parent(d) == dir
      ensures o.complete ==> (o.answered <==> old(Received(vol.fs)) < |file|)
      ensures old(Received(vol.fs)) >= |file| ==> o == Outcome(true, false) && vol.fs == old(vol.fs)
      ensures (!vol.disturbed && !meddled && old(Received(vol.fs)) < |file| <= MAX_TOTAL && Ready(old(vol.fs))
               && old(JobGoesOn(ticket))) ==> o == Outcome(true, true)
      ensures !meddled && old(Received(vol.fs)) < |file| && !old(JobGoesOn(ticket)) ==> o == Outcome(false, false)
    {
      hide Session.Ready, Session.OthersKept, WellFormed, Session.Received;
      d := [];
      var offset, job := HandleStatus();
      ghost var started := Ready(vol.fs) && JobGoesOn(ticket);
      if offset >= |file| { return Outcome(true, false), d; }
      while offset < |file|
        invariant Inv() && !vol.dead && (old(vol.disturbed) ==> vol.disturbed)
        invariant offset == Received(vol.fs) < |file|
        invariant started ==> Ready(vol.fs) && JobGoesOn(job)
        invariant !meddled && !old(JobGoesOn(ticket)) ==> job == old(ticket) && jobs == old(jobs)
        decreases |file| - offset
      {
        if * {
          meddled := true;  // the user aborts, or the connection is lost before the request
          return Outcome(false, false), d;
        }
        var end := if offset + CHUNK_SIZE < |file| then offset + CHUNK_SIZE else |file|;
        var r;
        ReadyHasDir(vol.fs);
        r, d := HandleChunk(offset, file[offset..end], |file|, job);
        if !r.Accepted? || vol.dead { return Outcome(false, false), d; }
        if * {
          meddled := true;  // the reply is lost
          return Outcome(false, false), d;
        }
        job, offset := Some(r.job), r.received;
        if r.complete { return Outcome(true, true), d; }
      }
      assert false;  // the server's own comparison has already said "complete"
    }

    /** Any number of tries of one file, with the server started again in between. */
    method TryAgainAndAgain(times: nat)
      requires Inv()
      modifies this`jobs, this`ticket, this`meddled, vol
      ensures Inv()
      ensures Partial() in vol.fs ==> vol.fs[Partial()].File? && vol.fs[Partial()].data <= file
      ensures OthersKept(vol.fs)
    {
      var n := 0;
      while n < times
        invariant Inv()
      {
        if vol.dead { vol.Restart(); }
        OthersAct();
        var o, d := UploadFileWithResume();
        n := n + 1;
      }
    }
  }
}
