/** Which job the worker takes next, that it gets through its queue, and what a restart makes of interrupted jobs. */
module Scheduling {
  import opened JobStatus
  import opened Names

  datatype Kind = Copy | Move | Trash | Restore | Upload | Extract | Archive | Checksum | DiskAnalyze | DuplicateFind

  datatype Job = Job(kind: Kind, created: nat, status: Status, items: seq<Status>)

  /** The classes of jobs, in the order the worker asks for them. */
  function Classes(): seq<set<Kind>> {
    [{Trash, Restore}, {Copy, Move}, {Extract, Archive}, {Checksum}, {DiskAnalyze}, {DuplicateFind}]
  }

  predicate WorkerOwned(kind: Kind) {
    kind != Upload
  }

  lemma ClassesCover(kind: Kind)
    ensures WorkerOwned(kind) <==> exists c :: 0 <= c < |Classes()| && kind in Classes()[c]
  {
    var c := match kind
      case Trash => 0 case Restore => 0 case Copy => 1 case Move => 1 case Extract => 2 case Archive => 2
      case Checksum => 3 case DiskAnalyze => 4 case DuplicateFind => 5 case Upload => 0;
    assert WorkerOwned(kind) ==> kind in Classes()[c];
  }

  predicate Waiting(job: Job, kinds: set<Kind>) {
    job.status == Queued && job.kind in kinds
  }

  predicate InClass(jobs: seq<Job>, c: nat)
    requires c < |Classes()|
  {
    exists i :: 0 <= i < |jobs| && Waiting(jobs[i], Classes()[c])
  }

  /** The jobs the worker has still to take. */
  function QueuedJobs(jobs: seq<Job>): set<nat> {
    set i | 0 <= i < |jobs| && jobs[i].status == Queued && WorkerOwned(jobs[i].kind)
  }

  /** Job `i` is the one to take: the oldest that waits in the first class that has any. */
  ghost predicate IsNext(jobs: seq<Job>, i: nat) {
    i < |jobs| && exists c :: 0 <= c < |Classes()| && OldestInFirst(jobs, i, c)
  }

  ghost predicate OldestInFirst(jobs: seq<Job>, i: nat, c: nat)
    requires i < |jobs| && c < |Classes()|
  {
    && Waiting(jobs[i], Classes()[c])
    && (forall d :: 0 <= d < c ==> !InClass(jobs, d))
    && (forall j :: 0 <= j < |jobs| && Waiting(jobs[j], Classes()[c]) ==> jobs[i].created <= jobs[j].created)
  }

  /** What comes before what: the trash, copies, archives, checksums, disk usage, duplicates. */
  function Rank(kind: Kind): nat {
    match kind
    case Trash => 1 case Restore => 1
    case Copy => 2 case Move => 2
    case Extract => 3 case Archive => 3
    case Checksum => 4
    case DiskAnalyze => 5
    case DuplicateFind => 6
    case Upload => 7
  }

  /** The job to take is the most urgent and then the oldest of all that are queued, uploads aside. */
  lemma NextExactly(jobs: seq<Job>, i: nat)
    ensures IsNext(jobs, i) <==>
      && i in QueuedJobs(jobs)
      && forall j :: j in QueuedJobs(jobs) ==>
           || Rank(jobs[i].kind) < Rank(jobs[j].kind)
           || (Rank(jobs[i].kind) == Rank(jobs[j].kind) && jobs[i].created <= jobs[j].created)
  {
    forall j | 0 <= j < |jobs|
      ensures forall c :: 0 <= c < |Classes()| ==> (Waiting(jobs[j], Classes()[c]) <==> jobs[j].status == Queued && Rank(jobs[j].kind) == c + 1)
    {
      RankOfClass(jobs[j].kind);
    }
    if i in QueuedJobs(jobs) && forall j :: j in QueuedJobs(jobs) ==>
           || Rank(jobs[i].kind) < Rank(jobs[j].kind)
           || (Rank(jobs[i].kind) == Rank(jobs[j].kind) && jobs[i].created <= jobs[j].created) {
      RankOfClass(jobs[i].kind);
      var c := Rank(jobs[i].kind) - 1;
      assert OldestInFirst(jobs, i, c);
    }
    if IsNext(jobs, i) {
      var c :| 0 <= c < |Classes()| && OldestInFirst(jobs, i, c);
      forall j | j in QueuedJobs(jobs)
        ensures Rank(jobs[j].kind) >= c + 1
      {
        RankOfClass(jobs[j].kind);
        var d := Rank(jobs[j].kind) - 1;
        if d < c { assert Waiting(jobs[j], Classes()[d]) && InClass(jobs, d); }
      }
    }
  }

  lemma RankOfClass(kind: Kind)
    ensures |Classes()| == 6 && (WorkerOwned(kind) <==> Rank(kind) <= 6)
    ensures forall c :: 0 <= c < |Classes()| ==> (kind in Classes()[c] <==> Rank(kind) == c + 1)
  {}

  /** How the processor of a kind may leave its job. */
  function Ends(kind: Kind): set<Status> {
    if kind in {Copy, Move} then TRANSFER_ENDS else OTHER_ENDS
  }

  lemma SomeEnd(kind: Kind)
    ensures Completed in Ends(kind) && Queued !in Ends(kind) && Running !in Ends(kind)
  {}

  class Worker {
    var jobs: seq<Job>

    constructor (jobs: seq<Job>)
      ensures this.jobs == jobs
    {
      this.jobs := jobs;
    }

    /** Takes the oldest waiting job of the given kinds, if there is one. */
    method ClaimNext(kinds: set<Kind>) returns (claimed: Option<nat>)
      modifies this
      ensures claimed.None? <==> forall j :: 0 <= j < |old(jobs)| ==> !Waiting(old(jobs)[j], kinds)
      ensures claimed.None? ==> jobs == old(jobs)
      ensures claimed.Some? ==>
        && claimed.value < |old(jobs)| && Waiting(old(jobs)[claimed.value], kinds)
        && (forall j :: 0 <= j < |old(jobs)| && Waiting(old(jobs)[j], kinds) ==> old(jobs)[claimed.value].created <= old(jobs)[j].created)
        && jobs == old(jobs)[claimed.value := old(jobs)[claimed.value].(status := Running)]
    {
      claimed := None;
      for i := 0 to |jobs|
        invariant jobs == old(jobs)
        invariant claimed.None? ==> forall j :: 0 <= j < i ==> !Waiting(jobs[j], kinds)
        invariant claimed.Some? ==> claimed.value < i && Waiting(jobs[claimed.value], kinds)
        invariant claimed.Some? ==> forall j :: 0 <= j < i && Waiting(jobs[j], kinds) ==> jobs[claimed.value].created <= jobs[j].created
      {
        if Waiting(jobs[i], kinds) && (claimed.None? || jobs[i].created < jobs[claimed.value].created) { claimed := Some(i); }
      }
      if claimed.Some? {
        jobs := jobs[claimed.value := jobs[claimed.value].(status := Running)];
      }
    }

    /** A processor ends its job, asks the user, or reports an error, which fails the job. */
    method RunJob(i: nat)
      requires i < |jobs| && jobs[i].status == Running
      modifies this
      ensures |jobs| == |old(jobs)| && jobs[i].status in Ends(jobs[i].kind)
      ensures jobs[i].kind == old(jobs)[i].kind && jobs[i].created == old(jobs)[i].created
      ensures forall j :: 0 <= j < |jobs| && j != i ==> jobs[j] == old(jobs)[j]
    {
      var items: seq<Status> := *;
      SomeEnd(jobs[i].kind);
      var status :| status in Ends(jobs[i].kind);
      jobs := jobs[i := jobs[i].(items := items, status := status)];
    }

    /** One turn: the classes are asked in their fixed order, and the first job found is run to its end. */
    method RunOnce() returns (ran: Option<nat>)
      modifies this
      ensures ran.None? <==> QueuedJobs(old(jobs)) == {}
      ensures ran.None? ==> jobs == old(jobs)
      ensures ran.Some? ==> IsNext(old(jobs), ran.value)
      ensures ran.Some? ==> |jobs| == |old(jobs)| && jobs[ran.value].status in Ends(jobs[ran.value].kind)
      ensures ran.Some? ==> forall j :: 0 <= j < |jobs| && j != ran.value ==> jobs[j] == old(jobs)[j]
      ensures ran.Some? ==> QueuedJobs(jobs) == QueuedJobs(old(jobs)) - {ran.value} && ran.value in QueuedJobs(old(jobs))
    {
      hide *;
      ran := None;
      var c := 0;
      while c < |Classes()|
        invariant 0 <= c <= |Classes()| && jobs == old(jobs) && ran == None
        invariant forall d :: 0 <= d < c ==> !InClass(jobs, d)
      {
        ran := ClaimNext(Classes()[c]);
        Found(old(jobs), c, ran);
        if ran.Some? {
          RunJob(ran.value);
          RanOne(old(jobs), jobs, ran.value);
          return;
        }
        c := c + 1;
      }
      NothingWaits(jobs);
    }

    lemma Found(before: seq<Job>, c: nat, claimed: Option<nat>)
      requires c < |Classes()| && forall d :: 0 <= d < c ==> !InClass(before, d)
      requires claimed.None? <==> forall j :: 0 <= j < |before| ==> !Waiting(before[j], Classes()[c])
      requires claimed.Some? ==> claimed.value < |before| && Waiting(before[claimed.value], Classes()[c])
      requires claimed.Some? ==>
        forall j :: 0 <= j < |before| && Waiting(before[j], Classes()[c]) ==> before[claimed.value].created <= before[j].created
      ensures claimed.Some? ==> IsNext(before, claimed.value)
      ensures claimed.None? ==> !InClass(before, c)
    {
      if claimed.Some? { assert OldestInFirst(before, claimed.value, c); }
    }

    lemma NothingWaits(jobs: seq<Job>)
      requires forall d :: 0 <= d < |Classes()| ==> !InClass(jobs, d)
      ensures QueuedJobs(jobs) == {}
    {
      forall i | i in QueuedJobs(jobs)
        ensures false
      {
        ClassesCover(jobs[i].kind);
        var c :| 0 <= c < |Classes()| && jobs[i].kind in Classes()[c];
        assert Waiting(jobs[i], Classes()[c]);
        assert InClass(jobs, c);
      }
    }

    lemma RanOne(before: seq<Job>, after: seq<Job>, i: nat)
      requires IsNext(before, i) && |after| == |before| && after[i].status in Ends(before[i].kind)
      requires forall j :: 0 <= j < |after| && j != i ==> after[j] == before[j]
      ensures i in QueuedJobs(before) && QueuedJobs(after) == QueuedJobs(before) - {i}
    {
      var c :| 0 <= c < |Classes()| && OldestInFirst(before, i, c);
      ClassesCover(before[i].kind);
    }

    /** Left alone, the worker empties its queue. */
    method Drain() returns (turns: nat)
      modifies this
      ensures QueuedJobs(jobs) == {} && turns == |QueuedJobs(old(jobs))| && |jobs| == |old(jobs)|
      ensures forall i :: i in QueuedJobs(old(jobs)) ==> jobs[i].status in Ends(jobs[i].kind)
      ensures forall i :: 0 <= i < |jobs| && i !in QueuedJobs(old(jobs)) ==> jobs[i] == old(jobs)[i]
    {
      turns := 0;
      while true
        invariant |jobs| == |old(jobs)| && QueuedJobs(jobs) <= QueuedJobs(old(jobs))
        invariant turns + |QueuedJobs(jobs)| == |QueuedJobs(old(jobs))|
        invariant forall i :: i in QueuedJobs(old(jobs)) - QueuedJobs(jobs) ==> jobs[i].status in Ends(jobs[i].kind)
        invariant forall i :: 0 <= i < |jobs| && i !in QueuedJobs(old(jobs)) ==> jobs[i] == old(jobs)[i]
        decreases |QueuedJobs(jobs)|
      {
        ghost var before := jobs;
        var ran := RunOnce();
        if ran.None? { return; }
        turns := turns + 1;
      }
    }
  }

  // ----- Restart -----

  /** Jobs of these kinds take up where they stopped. */
  predicate Resumable(kind: Kind) {
    kind in {Copy, Move, Trash, Restore}
  }

  function RecoveredItems(items: seq<Status>): (r: seq<Status>)
    ensures |r| == |items|
    ensures forall i :: 0 <= i < |r| ==> r[i] == if items[i] == Running then Queued else items[i]
  {
    seq(|items|, i requires 0 <= i < |items| => if items[i] == Running then Queued else items[i])
  }

  /** The first update: interrupted jobs that can go on are queued. */
  function Requeue(job: Job): Job {
    if job.status == Running && Resumable(job.kind) then job.(status := Queued) else job
  }

  /** The second: the running items of queued jobs that can go on are queued. */
  function RequeueItems(job: Job): Job {
    if job.status == Queued && Resumable(job.kind) then job.(items := RecoveredItems(job.items)) else job
  }

  /** The third: the other interrupted jobs have failed. */
  function FailRest(job: Job): Job {
    if job.status == Running && !Resumable(job.kind) then job.(status := Failed) else job
  }

  function RecoveredJob(job: Job): Job {
    FailRest(RequeueItems(Requeue(job)))
  }

  /** What the restart's three updates make of the job table. */
  function Recovered(jobs: seq<Job>): (r: seq<Job>)
    ensures |r| == |jobs|
  {
    seq(|jobs|, i requires 0 <= i < |jobs| => RecoveredJob(jobs[i]))
  }

  /** After a restart nothing is running, interrupted resumable jobs are queued with all their items, and nothing else has changed. */
  lemma RecoveryLeavesNothingRunning(jobs: seq<Job>, i: nat)
    requires i < |jobs|
    ensures var was, now := jobs[i], Recovered(jobs)[i];
      && now.status != Running && now.kind == was.kind && now.created == was.created && |now.items| == |was.items|
      && (was.status == Running ==> now.status == if was.kind in {Copy, Move, Trash, Restore} then Queued else Failed)
      && (was.status !in {Running, Queued} ==> now == was) && (was.status == Queued ==> now.status == Queued)
      && (now.status == Queued && was.kind in {Copy, Move, Trash, Restore} ==> forall k :: 0 <= k < |now.items| ==> now.items[k] != Running)
      && (was.kind !in {Copy, Move, Trash, Restore} ==> now.items == was.items)
      && (forall k :: 0 <= k < |now.items| ==> now.items[k] == was.items[k] || (was.items[k] == Running && now.items[k] == Queued))
  {}

  /** The queue has grown by exactly the interrupted jobs that can go on. */
  lemma RecoveryQueuesTheInterrupted(jobs: seq<Job>)
    ensures QueuedJobs(Recovered(jobs)) ==
      QueuedJobs(jobs) + set i | 0 <= i < |jobs| && jobs[i].status == Running && Resumable(jobs[i].kind)
  {
    forall i | 0 <= i < |jobs|
      ensures i in QueuedJobs(Recovered(jobs)) <==>
        i in QueuedJobs(jobs) || (jobs[i].status == Running && Resumable(jobs[i].kind))
    {
      RecoveryLeavesNothingRunning(jobs, i);
    }
  }

  lemma RecoveryTwiceIsOnce(jobs: seq<Job>)
    ensures Recovered(Recovered(jobs)) == Recovered(jobs)
  {
    forall i | 0 <= i < |jobs|
      ensures RecoveredJob(RecoveredJob(jobs[i])) == RecoveredJob(jobs[i])
    {
      var once := RecoveredJob(jobs[i]);
      assert RecoveredJob(once).items == once.items;
    }
  }
}
