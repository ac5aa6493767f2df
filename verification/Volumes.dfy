/**
 A tree together with the life of the server process. Every primitive may be the
 last thing the process does, either just before or just after it takes effect.
 A dead process changes nothing until the next start, so the state at any moment
 of a run is the state that some run of the same code leaves when it dies there.
 */
module Volumes {
  import opened FileSystem

  /** One primitive: a process that was dead does nothing; one that dies here did it or did not; a fault of the disk does nothing. */
  ghost predicate Did(before: Tree, after: Tree, wasDead: bool, dead: bool, e: Errno, verdict: Errno, effect: Tree) {
    if wasDead then dead && e == Crashed && after == before
    else if dead then e == Crashed && (after == before || (verdict == Ok && after == effect))
    else if e == Fault then after == before
    else e == verdict && after == (if verdict == Ok then effect else before)
  }

  class Volume {
    var fs: Tree
    var dead: bool
    ghost var disturbed: bool  // a crash or an I/O fault has happened since the server last started
    const device: Path -> nat

    ghost predicate Valid()
      reads this
    {
      WellFormed(fs) && (dead ==> disturbed)
    }

    constructor (tree: Tree, device: Path -> nat)
      requires WellFormed(tree)
      ensures Valid() && fs == tree && !dead && !disturbed
      ensures this.device == device
    {
      fs, dead, disturbed := tree, false, false;
      this.device := device;
    }

    /** The server process starts again on what is on disk. */
    method Restart()
      requires Valid()
      modifies this
      ensures Valid() && fs == old(fs) && !dead && !disturbed
    {
      dead, disturbed := false, false;
    }

    method Commit(verdict: Errno, effect: Tree) returns (e: Errno)
      requires Valid() && verdict != Crashed && verdict != Fault
      requires verdict == Ok ==> WellFormed(effect)
      modifies this
      ensures Valid() && (old(disturbed) ==> disturbed) && (e == Fault ==> disturbed)
      ensures Did(old(fs), fs, old(dead), dead, e, verdict, effect)
    {
      if dead { return Crashed; }
      if * {
        dead, disturbed := true, true;
        if * {
          if verdict == Ok { fs := effect; }
        }
        return Crashed;
      }
      if * {
        disturbed := true;
        return Fault;
      }
      if verdict == Ok { fs := effect; }
      return verdict;
    }

    /** A step outside the tree, such as one database statement: does the process get past it? */
    method Survive() returns (done: bool)
      requires Valid()
      modifies this
      ensures Valid() && fs == old(fs) && (old(disturbed) ==> disturbed)
      ensures old(dead) ==> dead && !done
      ensures !dead ==> done
    {
      if dead { return false; }
      if * {
        dead, disturbed := true, true;
        done := *;
        return;
      }
      return true;
    }

    method Mkdir(p: Path) returns (e: Errno)
      requires Valid()
      modifies this
      ensures Valid() && (old(disturbed) ==> disturbed) && (e == Fault ==> disturbed)
      ensures Did(old(fs), fs, old(dead), dead, e, CreateErr(old(fs), p), old(fs)[p := Dir])
    {
      e := Commit(CreateErr(fs, p), fs[p := Dir]);
    }

    /** Exclusive creation of an empty file. */
    method CreateFile(p: Path) returns (e: Errno)
      requires Valid()
      modifies this
      ensures Valid() && (old(disturbed) ==> disturbed) && (e == Fault ==> disturbed)
      ensures Did(old(fs), fs, old(dead), dead, e, CreateErr(old(fs), p), old(fs)[p := File([])])
    {
      CreateKeepsWellFormed(fs, p, File([]));
      e := Commit(CreateErr(fs, p), fs[p := File([])]);
    }

    method RenameNoReplace(src: Path, dst: Path) returns (e: Errno)
      requires Valid() && src != []
      modifies this
      ensures Valid() && (old(disturbed) ==> disturbed) && (e == Fault ==> disturbed)
      ensures Did(old(fs), fs, old(dead), dead, e, RenameErr(old(fs), src, dst, device(src) == device(dst)),
                  Moved(old(fs), src, dst))
    {
      var verdict := RenameErr(fs, src, dst, device(src) == device(dst));
      if verdict == Ok { MovedKeepsWellFormed(fs, src, dst); }
      e := Commit(verdict, Moved(fs, src, dst));
    }

    /** Removes a file or an empty directory. */
    method Remove(p: Path) returns (e: Errno)
      requires Valid()
      modifies this
      ensures Valid() && (old(disturbed) ==> disturbed) && (e == Fault ==> disturbed)
      ensures Did(old(fs), fs, old(dead), dead, e, UnlinkErr(old(fs), p), old(fs) - {p})
    {
      if UnlinkErr(fs, p) == Ok { UnlinkKeepsWellFormed(fs, p); }
      e := Commit(UnlinkErr(fs, p), fs - {p});
    }

    method OpenFile(p: Path, truncate: bool) returns (e: Errno)
      requires Valid()
      modifies this
      ensures Valid() && (old(disturbed) ==> disturbed) && (e == Fault ==> disturbed)
      ensures Did(old(fs), fs, old(dead), dead, e, OpenErr(old(fs), p), Opened(old(fs), p, truncate))
    {
      if OpenErr(fs, p) == Ok { WriteKeepsWellFormed(fs, p, File([])); }
      e := Commit(OpenErr(fs, p), Opened(fs, p, truncate));
    }

    /** Writes `block` at `offset` of an open file; a fault or a crash may leave only its first `n` bytes. */
    method WriteAt(p: Path, offset: nat, block: Bytes) returns (e: Errno, n: nat)
      requires Valid() && (!dead ==> IsFile(fs, p))
      modifies this
      ensures Valid() && (old(disturbed) ==> disturbed)
      ensures n <= |block| && (e == Crashed <==> dead) && (e == Ok || e == Fault || e == Crashed)
      ensures old(dead) ==> dead && fs == old(fs)
      ensures !old(dead) ==> fs == old(fs)[p := File(Splice(old(fs)[p].data, offset, block[..n]))]
      ensures e == Ok ==> n == |block|
      ensures e != Ok ==> disturbed
    {
      if dead { return Crashed, 0; }
      var k: nat :| k <= |block|;
      WriteKeepsWellFormed(fs, p, File(Splice(fs[p].data, offset, block[..k])));
      fs := fs[p := File(Splice(fs[p].data, offset, block[..k]))];
      if * {
        dead, disturbed := true, true;
        return Crashed, k;
      }
      if k < |block| {
        disturbed := true;
        return Fault, k;
      }
      return Ok, k;
    }

    /** A read may fail, and so may a write outside the tree. */
    method ReadFault() returns (faulty: bool)
      requires Valid()
      modifies this`disturbed
      ensures Valid() && (old(disturbed) ==> disturbed)
      ensures faulty ==> disturbed
    {
      faulty := *;
      disturbed := disturbed || faulty;
    }

    /** Creates the missing directories on the way to `p`, one at a time. */
    method MkdirAll(p: Path) returns (e: Errno)
      requires Valid()
      modifies this
      ensures Valid() && (old(disturbed) ==> disturbed)
      ensures old(dead) ==> dead && fs == old(fs)
      ensures (e == Crashed <==> dead) && (e == Ok || e == NotDir || e == Fault || e == Crashed) && (e == Fault ==> disturbed)
      ensures Grown(old(fs), fs, p)
      ensures e == Ok ==> IsDir(fs, p)
      ensures e == NotDir ==> FileOnPath(old(fs), p)
    {
      if dead { return Crashed; }
      var i := 0;
      while i < |p|
        invariant 0 <= i <= |p|
        invariant Valid() && !dead && (old(disturbed) ==> disturbed)
        invariant Grown(old(fs), fs, p)
        invariant IsDir(fs, p[..i])
      {
        i := i + 1;
        assert Parent(p[..i]) == p[..i - 1];
        if p[..i] !in fs {
          e := Mkdir(p[..i]);
          if e != Ok { return; }
        }
        if fs[p[..i]].File? {
          assert IsFile(old(fs), p[..i]);
          return NotDir;
        }
      }
      assert p[..i] == p;
      return Ok;
    }

    /** Depth-first removal of `p`; the caller has seen that its parent exists. */
    method RemoveAt(p: Path) returns (e: Errno)
      requires Valid() && p != []
      modifies this
      ensures Valid() && (old(disturbed) ==> disturbed)
      ensures old(dead) ==> dead && fs == old(fs)
      ensures (e == Crashed <==> dead) && (e == Ok || e == NotExist || e == Fault || e == Crashed) && (e == Fault ==> disturbed)
      ensures Pruned(old(fs), fs, p)
      ensures e == Ok ==> Under(fs, p) == {}
      ensures e == NotExist ==> p !in old(fs) && fs == old(fs)
      decreases Under(fs, p)
    {
      if dead { return Crashed; }
      if p !in fs { return NotExist; }
      if fs[p] == Dir {
        var names := Children(fs, p);
        ghost var before := fs;
        EmptyingStart(fs, p);
        while names != {}
          invariant Valid() && !dead && (old(disturbed) ==> disturbed)
          invariant names <= Children(before, p) && Emptying(before, fs, p, names)
          decreases names
        {
          var c :| c in names;
          ghost var mid := fs;
          EmptyingShrinks(before, fs, p, names, c);
          e := RemoveAt(c);
          PrunedChild(before, mid, fs, p, c);
          if e != Ok { return; }
          EmptyingStep(before, mid, fs, p, names, c);
          names := names - {c};
        }
        EmptyingDone(before, fs, p);
      } else {
        FileIsLeaf(fs, p);
      }
      e := Remove(p);
    }

    method RemoveAll(p: Path) returns (e: Errno)
      requires Valid() && p != []
      modifies this
      ensures Valid() && (old(disturbed) ==> disturbed)
      ensures old(dead) ==> dead && fs == old(fs)
      ensures (e == Crashed <==> dead) && (e == Ok || e == Fault || e == Crashed) && (e == Fault ==> disturbed)
      ensures Pruned(old(fs), fs, p)
      ensures e == Ok ==> Under(fs, p) == {}
    {
      e := RemoveAt(p);
      if e == NotExist {
        AbsentHasNothingUnder(fs, p);
        return Ok;
      }
    }
  }

  function Children(fs: Tree, p: Path): set<Path> {
    set q | q in fs && q != [] && Parent(q) == p
  }

  /** The entries below `p` that are left are those of the children in `names`, all of them. */
  ghost predicate Emptying(before: Tree, fs: Tree, p: Path, names: set<Path>) {
    && Pruned(before, fs, p) && p in fs && p in before && WellFormed(before)
    && forall q {:trigger q in fs} :: q in before && p <= q && q != p ==> (q in fs <==> q[..|p| + 1] in names)
  }

  lemma ChildOnTheWay(p: Path, c: Path, q: Path)
    requires c != [] && Parent(c) == p
    ensures p <= c && c[..|p| + 1] == c
    ensures p <= q && q != p ==> (c <= q <==> q[..|p| + 1] == c)
    ensures c <= q ==> p <= q && q != p
    ensures !(c <= p)
  {}

  lemma EmptyingStart(fs: Tree, p: Path)
    requires WellFormed(fs) && p in fs
    ensures Emptying(fs, fs, p, Children(fs, p))
  {
    forall q {:trigger q in fs} | q in fs && p <= q && q != p
      ensures q[..|p| + 1] in Children(fs, p)
    {
      AncestorIsDir(fs, q[..|p| + 1], q);
      assert Parent(q[..|p| + 1]) == p;
    }
  }

  lemma EmptyingShrinks(before: Tree, fs: Tree, p: Path, names: set<Path>, c: Path)
    requires names <= Children(before, p) && Emptying(before, fs, p, names) && c in names
    ensures c in fs && Under(fs, c) < Under(before, p)
  {
    ChildOnTheWay(p, c, c);
    forall q | q in Under(fs, c)
      ensures q in Under(before, p) - {p}
    {
      ChildOnTheWay(p, c, q);
    }
    assert p in Under(before, p);
  }

  lemma PrunedChild(before: Tree, mid: Tree, after: Tree, p: Path, c: Path)
    requires Pruned(before, mid, p) && Pruned(mid, after, c) && c != [] && Parent(c) == p
    ensures Pruned(before, after, p)
    ensures p in mid ==> p in after
  {
    ChildOnTheWay(p, c, p);
    forall q | q in before && !(p <= q)
      ensures q in after
    {
      ChildOnTheWay(p, c, q);
    }
  }

  lemma EmptyingStep(before: Tree, mid: Tree, after: Tree, p: Path, names: set<Path>, c: Path)
    requires names <= Children(before, p) && Emptying(before, mid, p, names) && c in names
    requires Pruned(mid, after, c) && Under(after, c) == {}
    ensures Emptying(before, after, p, names - {c})
  {
    PrunedChild(before, mid, after, p, c);
    forall q {:trigger q in after} | q in before && p <= q && q != p
      ensures q in after <==> q[..|p| + 1] in names - {c}
    {
      ChildOnTheWay(p, c, q);
      assert q !in Under(after, c);
    }
  }

  lemma EmptyingDone(before: Tree, fs: Tree, p: Path)
    requires Emptying(before, fs, p, {})
    ensures Under(fs, p) == {p}
  {}

  /** A listing of `root` and everything below it, each directory before its entries. */
  ghost predicate IsWalk(fs: Tree, root: Path, order: seq<Path>) {
    WalkSoFar(fs, root, order, {})
  }

  ghost predicate WalkSoFar(fs: Tree, root: Path, order: seq<Path>, rest: set<Path>) {
    && (forall q :: q in order <==> q in Under(fs, root) - rest)
    && (forall i :: 0 <= i < |order| ==> order[i] !in order[..i] && (order[i] != root ==> Parent(order[i]) in order[..i]))
  }

  lemma WalkAt(fs: Tree, root: Path, order: seq<Path>, i: nat)
    requires IsWalk(fs, root, order) && i < |order|
    ensures order[i] in fs && root <= order[i] && order[i] !in order[..i]
    ensures order[i] != root ==> Parent(order[i]) in order[..i]
    ensures order[..i + 1] == order[..i] + [order[i]]
  {
    hide *;
    WalkMembers(fs, root, order, i);
    assert order[..i + 1] == order[..i] + [order[i]];
  }

  lemma WalkMembers(fs: Tree, root: Path, order: seq<Path>, i: nat)
    requires IsWalk(fs, root, order) && i < |order|
    ensures order[i] in fs && root <= order[i] && order[i] !in order[..i]
    ensures order[i] != root ==> Parent(order[i]) in order[..i]
  {
    hide Parent;
    assert order[i] in order;
    assert order[i] in Under(fs, root);
  }

  lemma {:induction false} Topmost(rest: set<Path>, root: Path, q: Path) returns (p: Path)
    requires q in rest && forall r :: r in rest ==> root <= r
    ensures p in rest && (p == root || Parent(p) !in rest)
    decreases |q|
  {
    p := q;
    if q != root && Parent(q) in rest { p := Topmost(rest, root, Parent(q)); }
  }

  lemma WalkStep(fs: Tree, root: Path, order: seq<Path>, rest: set<Path>, p: Path)
    requires WellFormed(fs) && WalkSoFar(fs, root, order, rest)
    requires rest <= Under(fs, root) && p in rest && (p == root || Parent(p) !in rest)
    ensures WalkSoFar(fs, root, order + [p], rest - {p})
  {
    var longer := order + [p];
    assert p !in order;
    assert p != root ==> root <= Parent(p) && Parent(p) in Under(fs, root);
    forall i | 0 <= i < |longer|
      ensures longer[i] !in longer[..i]
      ensures longer[i] != root ==> Parent(longer[i]) in longer[..i]
    {
      assert longer[..i] == order[..i];
    }
  }

  method WalkDir(fs: Tree, root: Path) returns (order: seq<Path>)
    requires WellFormed(fs) && root in fs
    ensures IsWalk(fs, root, order)
  {
    order := [];
    var rest := Under(fs, root);
    while rest != {}
      invariant rest <= Under(fs, root) && WalkSoFar(fs, root, order, rest)
      decreases rest
    {
      ghost var q :| q in rest;
      ghost var top := Topmost(rest, root, q);
      var p :| p in rest && (p == root || Parent(p) !in rest);
      WalkStep(fs, root, order, rest, p);
      order, rest := order + [p], rest - {p};
    }
  }
}
