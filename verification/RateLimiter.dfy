/** The fixed-window limiter in front of logins: how many requests it lets through, and that forgetting idle visitors changes nothing. */
module RateLimiter {
  import opened Names

  datatype Visitor = Visitor(count: nat, windowStart: nat, lastSeen: nat)

  /** An accepted request: when it came, and when its window began. */
  datatype Stamp = Stamp(time: nat, start: nat)

  /** What a window lets through: its first request always, and up to the rate. */
  function Burst(rate: int): nat {
    if rate < 1 then 1 else rate
  }

  function Starting(log: seq<Stamp>, s: nat): set<nat> {
    set i | 0 <= i < |log| && log[i].start == s
  }

  /** Every request lies in its window, and windows do not overlap. */
  ghost predicate Spaced(window: nat, log: seq<Stamp>) {
    && (forall i :: 0 <= i < |log| ==> log[i].start <= log[i].time < log[i].start + window)
    && (forall i, j :: 0 <= i < j < |log| ==> log[i].start == log[j].start || log[i].start + window <= log[j].start)
  }

  /** Every window was opened by a request that came when it began. */
  ghost predicate Opened(log: seq<Stamp>) {
    forall i :: 0 <= i < |log| ==> IsOpened(log, log[i].start)
  }

  ghost predicate IsOpened(log: seq<Stamp>, s: nat) {
    exists j :: 0 <= j < |log| && log[j] == Stamp(s, s)
  }

  ghost predicate Bounded(rate: int, log: seq<Stamp>) {
    forall i :: 0 <= i < |log| ==> |Starting(log, log[i].start)| <= Burst(rate)
  }

  /** The accepted requests of one key: windows that do not overlap, each opened by its first request. */
  ghost predicate GoodLog(rate: int, window: nat, log: seq<Stamp>) {
    Spaced(window, log) && Opened(log) && Bounded(rate, log)
  }

  function Within(log: seq<Stamp>, window: nat, from: nat): set<nat> {
    set i | 0 <= i < |log| && from <= log[i].time < from + window
  }

  /** Two accepted requests of one interval whose windows both began before it, or both in it, share a window. */
  lemma SameWindow(rate: int, window: nat, log: seq<Stamp>, from: nat, i: nat, j: nat)
    requires GoodLog(rate, window, log) && i in Within(log, window, from) && j in Within(log, window, from)
    requires log[i].start < from <==> log[j].start < from
    ensures log[i].start == log[j].start
  {
    hide Opened, Bounded;
  }

  lemma Opening(rate: int, window: nat, log: seq<Stamp>, i: nat) returns (open: nat)
    requires GoodLog(rate, window, log) && i < |log|
    ensures open < |log| && log[open] == Stamp(log[i].start, log[i].start)
    ensures |Starting(log, log[i].start)| <= Burst(rate)
  {
    hide Spaced;
    assert IsOpened(log, log[i].start);
    open :| 0 <= open < |log| && log[open] == Stamp(log[i].start, log[i].start);
  }

  /** Requests of an interval that began their window before it all share one window, and its opening request is not among them. */
  lemma EarlierPart(rate: int, window: nat, log: seq<Stamp>, from: nat, part: set<nat>)
    requires GoodLog(rate, window, log) && part == set i | i in Within(log, window, from) && log[i].start < from
    ensures |part| <= Burst(rate) - 1
  {
    hide GoodLog, Burst;
    if part == {} {
      assert Burst(rate) >= 1 by { BurstIsPositive(rate); }
    } else {
      var i :| i in part;
      var s := log[i].start;
      var open := Opening(rate, window, log, i);
      forall j | j in part
        ensures log[j].start == s
      {
        SameWindow(rate, window, log, from, i, j);
      }
      assert open !in part;
      assert part + {open} <= Starting(log, s);
      SubsetSize(part + {open}, Starting(log, s));
    }
  }

  lemma BurstIsPositive(rate: int)
    ensures Burst(rate) >= 1
  {}

  lemma LaterPart(rate: int, window: nat, log: seq<Stamp>, from: nat, part: set<nat>)
    requires GoodLog(rate, window, log) && part == set i | i in Within(log, window, from) && log[i].start >= from
    ensures |part| <= Burst(rate)
  {
    hide GoodLog, Burst;
    if part != {} {
      var i :| i in part;
      var open := Opening(rate, window, log, i);
      forall j | j in part
        ensures log[j].start == log[i].start
      {
        SameWindow(rate, window, log, from, i, j);
      }
      SubsetSize(part, Starting(log, log[i].start));
    }
  }

  /** No interval as long as a window holds more than twice the rate of accepted requests; not even that many. */
  lemma FewInAnyInterval(rate: int, window: nat, log: seq<Stamp>, from: nat)
    requires GoodLog(rate, window, log)
    ensures |Within(log, window, from)| <= 2 * Burst(rate) - 1
  {
    var a := set i | i in Within(log, window, from) && log[i].start < from;
    var b := set i | i in Within(log, window, from) && log[i].start >= from;
    EarlierPart(rate, window, log, from, a);
    LaterPart(rate, window, log, from, b);
    assert Within(log, window, from) == a + b && a !! b;
  }

  // ----- The steps, on the table of visitors -----

  function Allowed(rate: int, window: nat, visitors: map<string, Visitor>, key: string, now: nat): (map<string, Visitor>, bool) {
    if key !in visitors || now - visitors[key].windowStart >= window then
      (visitors[key := Visitor(1, now, now)], true)
    else
      var v := visitors[key].(count := visitors[key].count + 1, lastSeen := now);
      (visitors[key := v], v.count <= rate)
  }

  function Cleaned(window: nat, visitors: map<string, Visitor>, now: nat): map<string, Visitor> {
    map k | k in visitors && now - visitors[k].lastSeen <= window :: visitors[k]
  }

  function At(visitors: map<string, Visitor>, key: string): Option<Visitor> {
    if key in visitors then Some(visitors[key]) else None
  }

  /** What the table knows of a key's accepted requests. */
  ghost predicate Consistent(rate: int, window: nat, log: seq<Stamp>, v: Option<Visitor>, clock: nat) {
    && GoodLog(rate, window, log) && (forall i :: 0 <= i < |log| ==> log[i].time <= clock)
    && match v
       case Some(v) =>
         && v.windowStart <= v.lastSeen <= clock && v.count >= 1
         && log != [] && log[|log| - 1].start == v.windowStart
         && |Starting(log, v.windowStart)| == (if v.count <= Burst(rate) then v.count else Burst(rate))
       case None => log == [] || log[|log| - 1].start + window <= clock
  }

  /** A request that opens a window is logged. */
  lemma OpensWindow(rate: int, window: nat, log: seq<Stamp>, v: Option<Visitor>, clock: nat, now: nat)
    requires window > 0 && Consistent(rate, window, log, v, clock) && clock <= now
    requires v.Some? ==> now - v.value.windowStart >= window
    ensures Consistent(rate, window, log + [Stamp(now, now)], Some(Visitor(1, now, now)), now)
  {
    hide Spaced, Opened, Bounded;
    var longer := log + [Stamp(now, now)];
    forall i | 0 <= i < |log|
      ensures log[i].start + window <= now
    {
      LastIsLatest(rate, window, log, i);
    }
    StartingGrows(log, Stamp(now, now));
    assert Starting(log, now) == {};
    GoodLogGrows(rate, window, log, Stamp(now, now));
  }

  lemma LastIsLatest(rate: int, window: nat, log: seq<Stamp>, i: nat)
    requires GoodLog(rate, window, log) && i < |log|
    ensures log[i].start <= log[|log| - 1].start
  {
    hide Opened, Bounded;
    if i < |log| - 1 {
      assert log[i].start == log[|log| - 1].start || log[i].start + window <= log[|log| - 1].start;
    }
  }

  lemma StartingGrows(log: seq<Stamp>, stamp: Stamp)
    ensures forall s: nat {:trigger Starting(log, s)} :: Starting(log + [stamp], s) == Starting(log, s) + if s == stamp.start then {|log|} else {}
  {}

  lemma GoodLogGrows(rate: int, window: nat, log: seq<Stamp>, stamp: Stamp)
    requires GoodLog(rate, window, log) && stamp.start <= stamp.time < stamp.start + window
    requires forall i :: 0 <= i < |log| ==> log[i].start == stamp.start || log[i].start + window <= stamp.start
    requires stamp.start == stamp.time || exists i :: 0 <= i < |log| && log[i].start == stamp.start
    requires |Starting(log, stamp.start)| < Burst(rate)
    ensures GoodLog(rate, window, log + [stamp])
  {
    hide Spaced, Opened, Bounded;
    SpacedGrows(window, log, stamp);
    OpenedGrows(log, stamp);
    BoundedGrows(rate, log, stamp);
  }

  lemma SpacedGrows(window: nat, log: seq<Stamp>, stamp: Stamp)
    requires Spaced(window, log) && stamp.start <= stamp.time < stamp.start + window
    requires forall i :: 0 <= i < |log| ==> log[i].start == stamp.start || log[i].start + window <= stamp.start
    ensures Spaced(window, log + [stamp])
  {}

  lemma OpenedGrows(log: seq<Stamp>, stamp: Stamp)
    requires Opened(log) && (stamp.start == stamp.time || exists i :: 0 <= i < |log| && log[i].start == stamp.start)
    ensures Opened(log + [stamp])
  {
    var longer := log + [stamp];
    forall i | 0 <= i < |longer|
      ensures IsOpened(longer, longer[i].start)
    {
      if i == |log| && stamp.start == stamp.time {
        assert longer[i] == Stamp(stamp.start, stamp.start);
      } else {
        var k := if i < |log| then i else (var k :| 0 <= k < |log| && log[k].start == stamp.start; k);
        assert IsOpened(log, log[k].start);
        var open :| 0 <= open < |log| && log[open] == Stamp(log[k].start, log[k].start);
        assert longer[open] == log[open];
      }
    }
  }

  lemma BoundedGrows(rate: int, log: seq<Stamp>, stamp: Stamp)
    requires Bounded(rate, log) && |Starting(log, stamp.start)| < Burst(rate)
    ensures Bounded(rate, log + [stamp])
  {
    var longer := log + [stamp];
    StartingGrows(log, stamp);
    forall i | 0 <= i < |longer|
      ensures |Starting(longer, longer[i].start)| <= Burst(rate)
    {
      assert i < |log| ==> |Starting(log, log[i].start)| <= Burst(rate);
      assert Starting(longer, longer[i].start) == Starting(log, longer[i].start) + if longer[i].start == stamp.start then {|log|} else {};
    }
  }

  lemma BeforeLast(window: nat, log: seq<Stamp>, i: nat)
    requires Spaced(window, log) && i < |log|
    ensures log[i].start == log[|log| - 1].start || log[i].start + window <= log[|log| - 1].start
  {}

  /** A request inside an open window is logged if it is let through. */
  lemma InWindow(rate: int, window: nat, log: seq<Stamp>, v: Visitor, clock: nat, now: nat)
    requires window > 0 && Consistent(rate, window, log, Some(v), clock) && clock <= now && now - v.windowStart < window
    ensures var after := v.(count := v.count + 1, lastSeen := now);
      if after.count <= rate then Consistent(rate, window, log + [Stamp(now, v.windowStart)], Some(after), now)
      else Consistent(rate, window, log, Some(after), now)
  {
    hide Opened, Bounded, Spaced;
    if v.count + 1 <= rate {
      var stamp := Stamp(now, v.windowStart);
      forall i | 0 <= i < |log|
        ensures log[i].start == v.windowStart || log[i].start + window <= v.windowStart
      {
        BeforeLast(window, log, i);
      }
      StartingGrows(log, stamp);
      GoodLogGrows(rate, window, log, stamp);
    }
  }

  class Limiter {
    const rate: int
    const window: nat
    var visitors: map<string, Visitor>
    ghost var clock: nat
    ghost var log: map<string, seq<Stamp>>

    ghost predicate Valid()
      reads this
    {
      window > 0 && forall key :: Consistent(rate, window, LogOf(key), At(visitors, key), clock)
    }

    constructor (rate: int, window: nat)
      requires window > 0
      ensures Valid() && this.rate == rate && this.window == window && visitors == map[] && log == map[]
    {
      this.rate, this.window := rate, window;
      visitors, log, clock := map[], map[], 0;
    }

    method Allow(key: string, now: nat) returns (ok: bool)
      requires Valid() && clock <= now
      modifies this
      ensures Valid() && clock == now
      ensures (visitors, ok) == Allowed(rate, window, old(visitors), key, now)
      ensures log == if ok then old(log)[key := old(LogOf(key)) + [Stamp(now, visitors[key].windowStart)]] else old(log)
    {
      hide Consistent;
      ghost var logs, table := log, visitors;
      TimePasses(now);
      if At(visitors, key).None? || now - visitors[key].windowStart >= window {
        OpensWindow(rate, window, LogOf(key), At(visitors, key), clock, now);
      } else {
        InWindow(rate, window, LogOf(key), visitors[key], clock, now);
      }
      if key !in visitors || now - visitors[key].windowStart >= window {
        log := log[key := LogOf(key) + [Stamp(now, now)]];
        visitors := visitors[key := Visitor(1, now, now)];
        ok := true;
      } else {
        var v := visitors[key].(lastSeen := now, count := visitors[key].count + 1);
        ok := v.count <= rate;
        if ok { log := log[key := LogOf(key) + [Stamp(now, v.windowStart)]]; }
        visitors := visitors[key := v];
      }
      clock := now;
      forall k
        ensures Consistent(rate, window, LogOf(k), At(visitors, k), clock)
      {
        if k != key { assert LogOf(k) == old(LogOf(k)) && At(visitors, k) == At(table, k); }
      }
    }

    /** The other keys stay consistent as the clock moves on. */
    lemma TimePasses(now: nat)
      requires Valid() && clock <= now
      ensures forall k {:trigger LogOf(k)} :: Consistent(rate, window, LogOf(k), At(visitors, k), now)
    {}

    ghost function LogOf(key: string): seq<Stamp>
      reads this
    {
      if key in log then log[key] else []
    }

    /** Forgets the visitors not seen for longer than a window. */
    method Cleanup(now: nat)
      requires Valid() && clock <= now
      modifies this`visitors, this`clock
      ensures Valid() && clock == now && visitors == Cleaned(window, old(visitors), now) && log == old(log)
      ensures forall k :: k in old(visitors) && now - old(visitors)[k].lastSeen > window ==> k !in visitors
      ensures forall k :: k in old(visitors) && now - old(visitors)[k].lastSeen <= window ==> k in visitors
    {
      ghost var table := visitors;
      TimePasses(now);
      visitors := Cleaned(window, visitors, now);
      clock := now;
      forall k
        ensures Consistent(rate, window, LogOf(k), At(visitors, k), clock)
      {
        assert At(visitors, k) == At(table, k) || At(visitors, k) == None;
      }
    }

    lemma FewAccepted(key: string, from: nat)
      requires Valid()
      ensures |Within(LogOf(key), window, from)| <= 2 * Burst(rate) - 1
      ensures forall i :: 0 <= i < |LogOf(key)| && from <= LogOf(key)[i].time && LogOf(key)[i].time - from < window ==>
        i in Within(LogOf(key), window, from)
    {
      assert Consistent(rate, window, LogOf(key), At(visitors, key), clock);
      FewInAnyInterval(rate, window, LogOf(key), from);
    }
  }

  // ----- Whole runs -----

  datatype Event = Request(key: string, at: nat) | CleanUp(at: nat)

  function After(rate: int, window: nat, visitors: map<string, Visitor>, e: Event): map<string, Visitor> {
    match e
    case Request(key, at) => Allowed(rate, window, visitors, key, at).0
    case CleanUp(at) => Cleaned(window, visitors, at)
  }

  /** The answers to the requests of a run. */
  function Answers(rate: int, window: nat, visitors: map<string, Visitor>, events: seq<Event>): seq<bool>
    decreases |events|
  {
    if events == [] then []
    else
      (if events[0].Request? then [Allowed(rate, window, visitors, events[0].key, events[0].at).1] else []) +
      Answers(rate, window, After(rate, window, visitors, events[0]), events[1..])
  }

  function Requests(events: seq<Event>): seq<Event> {
    if events == [] then [] else (if events[0].Request? then [events[0]] else []) + Requests(events[1..])
  }

  ghost predicate InOrder(events: seq<Event>, clock: nat) {
    && (forall i :: 0 <= i < |events| ==> clock <= events[i].at)
    && (forall i, j :: 0 <= i < j < |events| ==> events[i].at <= events[j].at)
  }

  /** A visitor whose window is still open. */
  function Live(window: nat, visitors: map<string, Visitor>, key: string, clock: nat): Option<Visitor> {
    if key in visitors && clock - visitors[key].windowStart < window then Some(visitors[key]) else None
  }

  ghost predicate Alike(window: nat, a: map<string, Visitor>, b: map<string, Visitor>, clock: nat) {
    forall key :: Live(window, a, key, clock) == Live(window, b, key, clock)
  }

  ghost predicate Sane(visitors: map<string, Visitor>) {
    forall key :: key in visitors ==> visitors[key].windowStart <= visitors[key].lastSeen
  }

  lemma AllowedAlike(rate: int, window: nat, a: map<string, Visitor>, b: map<string, Visitor>, clock: nat, key: string, now: nat)
    requires window > 0 && Alike(window, a, b, clock) && clock <= now && Sane(a) && Sane(b)
    requires forall k :: k in a ==> a[k].windowStart <= clock
    requires forall k :: k in b ==> b[k].windowStart <= clock
    ensures Allowed(rate, window, a, key, now).1 == Allowed(rate, window, b, key, now).1
    ensures Alike(window, Allowed(rate, window, a, key, now).0, Allowed(rate, window, b, key, now).0, now)
    ensures Sane(Allowed(rate, window, a, key, now).0)
    ensures forall k :: k in Allowed(rate, window, a, key, now).0 ==> Allowed(rate, window, a, key, now).0[k].windowStart <= now
  {
    assert Live(window, a, key, clock) == Live(window, b, key, clock);
    var a1, b1 := Allowed(rate, window, a, key, now).0, Allowed(rate, window, b, key, now).0;
    forall k
      ensures Live(window, a1, k, now) == Live(window, b1, k, now)
    {
      assert Live(window, a, k, clock) == Live(window, b, k, clock);
    }
  }

  lemma CleanedAlike(window: nat, a: map<string, Visitor>, b: map<string, Visitor>, clock: nat, now: nat)
    requires Alike(window, a, b, clock) && clock <= now && Sane(a)
    ensures Alike(window, Cleaned(window, a, now), b, now)
  {
    forall k
      ensures Live(window, Cleaned(window, a, now), k, now) == Live(window, b, k, now)
    {
      assert Live(window, a, k, clock) == Live(window, b, k, clock);
    }
  }

  lemma Symmetric(window: nat, a: map<string, Visitor>, b: map<string, Visitor>, clock: nat)
    requires Alike(window, a, b, clock)
    ensures Alike(window, b, a, clock)
  {
    forall k
      ensures Live(window, b, k, clock) == Live(window, a, k, clock)
    {
      assert Live(window, a, k, clock) == Live(window, b, k, clock);
    }
  }

  /** Two runs from alike tables answer the requests alike, wherever one of them cleans up. */
  lemma {:induction false} AlikeRuns(rate: int, window: nat, a: map<string, Visitor>, b: map<string, Visitor>, clock: nat, events: seq<Event>)
    requires window > 0 && Alike(window, a, b, clock) && InOrder(events, clock) && Sane(a) && Sane(b)
    requires forall k :: k in a ==> a[k].windowStart <= clock
    requires forall k :: k in b ==> b[k].windowStart <= clock
    ensures Answers(rate, window, a, events) == Answers(rate, window, b, Requests(events))
    decreases |events|
  {
    hide Alike, Sane, Allowed, Live;
    if events != [] {
      var e, rest := events[0], events[1..];
      assert InOrder(rest, e.at);
      match e
      case Request(key, at) =>
        AllowedAlike(rate, window, a, b, clock, key, at);
        Symmetric(window, a, b, clock);
        AllowedAlike(rate, window, b, a, clock, key, at);
        AlikeRuns(rate, window, Allowed(rate, window, a, key, at).0, Allowed(rate, window, b, key, at).0, at, rest);
        assert Requests(events) == [e] + Requests(rest) && ([e] + Requests(rest))[1..] == Requests(rest);
      case CleanUp(at) =>
        CleanedAlike(window, a, b, clock, at);
        SaneCleaned(window, a, at);
        assert Requests(events) == [] + Requests(rest) == Requests(rest);
        AlikeRuns(rate, window, Cleaned(window, a, at), b, at, rest);
    }
  }

  lemma SaneCleaned(window: nat, a: map<string, Visitor>, now: nat)
    requires Sane(a)
    ensures Sane(Cleaned(window, a, now))
  {}

  /** Cleaning up, at any moments, changes no answer. */
  lemma CleanupChangesNoAnswer(rate: int, window: nat, events: seq<Event>)
    requires window > 0 && InOrder(events, 0)
    ensures Answers(rate, window, map[], events) == Answers(rate, window, map[], Requests(events))
  {
    AlikeRuns(rate, window, map[], map[], 0, events);
  }

  // ----- The bound is reached -----

  function Repeated(n: nat, e: Event): seq<Event> {
    if n == 0 then [] else [e] + Repeated(n - 1, e)
  }

  function AllTrue(n: nat): seq<bool> {
    if n == 0 then [] else [true] + AllTrue(n - 1)
  }

  function AfterMany(rate: int, window: nat, visitors: map<string, Visitor>, key: string, at: nat, n: nat): map<string, Visitor>
    decreases n
  {
    if n == 0 then visitors else AfterMany(rate, window, Allowed(rate, window, visitors, key, at).0, key, at, n - 1)
  }

  /** A number of requests at one moment of an open window that the rate still allows. */
  lemma {:induction false} FitInWindow(rate: int, window: nat, visitors: map<string, Visitor>, key: string, at: nat, n: nat, rest: seq<Event>)
    requires key in visitors && at - visitors[key].windowStart < window && visitors[key].count + n <= rate
    ensures var after := AfterMany(rate, window, visitors, key, at, n);
      && key in after && after[key].windowStart == visitors[key].windowStart
      && Answers(rate, window, visitors, Repeated(n, Request(key, at)) + rest) == AllTrue(n) + Answers(rate, window, after, rest)
    decreases n
  {
    var e := Request(key, at);
    if n == 0 {
      NoneInWindow(rate, window, visitors, key, at, e, rest);
    } else {
      hide *;
      Unfold(rate, window, visitors, key, at, n, e);
      OneInWindow(rate, window, visitors, key, at);
      var next := Allowed(rate, window, visitors, key, at).0;
      FitInWindow(rate, window, next, key, at, n - 1, rest);
      OneAnswer(rate, window, visitors, e, Repeated(n - 1, e) + rest);
      assert Repeated(n, e) + rest == [e] + (Repeated(n - 1, e) + rest);
      var tail := Answers(rate, window, AfterMany(rate, window, next, key, at, n - 1), rest);
      assert [true] + (AllTrue(n - 1) + tail) == AllTrue(n) + tail;
    }
  }

  lemma NoneInWindow(rate: int, window: nat, visitors: map<string, Visitor>, key: string, at: nat, e: Event, rest: seq<Event>)
    ensures Repeated(0, e) + rest == rest && AfterMany(rate, window, visitors, key, at, 0) == visitors
    ensures AllTrue(0) + Answers(rate, window, visitors, rest) == Answers(rate, window, visitors, rest)
  {}

  lemma Unfold(rate: int, window: nat, visitors: map<string, Visitor>, key: string, at: nat, n: nat, e: Event)
    requires n > 0
    ensures Repeated(n, e) == [e] + Repeated(n - 1, e) && AllTrue(n) == [true] + AllTrue(n - 1)
    ensures AfterMany(rate, window, visitors, key, at, n) ==
      AfterMany(rate, window, Allowed(rate, window, visitors, key, at).0, key, at, n - 1)
  {}

  lemma OneInWindow(rate: int, window: nat, visitors: map<string, Visitor>, key: string, at: nat)
    requires key in visitors && at - visitors[key].windowStart < window && visitors[key].count + 1 <= rate
    ensures var next := Allowed(rate, window, visitors, key, at);
      next.1 && key in next.0 && next.0[key].windowStart == visitors[key].windowStart && next.0[key].count == visitors[key].count + 1
  {}

  lemma OneAnswer(rate: int, window: nat, visitors: map<string, Visitor>, e: Event, rest: seq<Event>)
    requires e.Request?
    ensures Answers(rate, window, visitors, [e] + rest) ==
      [Allowed(rate, window, visitors, e.key, e.at).1] + Answers(rate, window, Allowed(rate, window, visitors, e.key, e.at).0, rest)
  {
    assert ([e] + rest)[1..] == rest;
  }

  /** `rate - 1` requests at the end of one window and `rate` at the start of the next are all let through. */
  lemma BoundIsReached(rate: nat, window: nat, key: string)
    requires rate >= 1 && window >= 2
    ensures Answers(rate, window, map[],
                    [Request(key, 0)] + (Repeated(rate - 1, Request(key, window - 1)) + ([Request(key, window)] + Repeated(rate - 1, Request(key, window))))) ==
      [true] + (AllTrue(rate - 1) + ([true] + AllTrue(rate - 1)))
  {
    hide Answers;
    var tail := Repeated(rate - 1, Request(key, window));
    var next := [Request(key, window)] + tail;
    OneAnswer(rate, window, map[], Request(key, 0), Repeated(rate - 1, Request(key, window - 1)) + next);
    var first := Allowed(rate, window, map[], key, 0).0;
    FitInWindow(rate, window, first, key, window - 1, rate - 1, next);
    var mid := AfterMany(rate, window, first, key, window - 1, rate - 1);
    OneAnswer(rate, window, mid, Request(key, window), tail);
    var second := Allowed(rate, window, mid, key, window).0;
    FitInWindow(rate, window, second, key, window, rate - 1, []);
    NoAnswers(rate, window, AfterMany(rate, window, second, key, window, rate - 1));
    assert tail + [] == tail && AllTrue(rate - 1) + [] == AllTrue(rate - 1);
  }

  lemma NoAnswers(rate: int, window: nat, visitors: map<string, Visitor>)
    ensures Answers(rate, window, visitors, []) == []
  {}
}
