/** The configured roots: which public paths they admit, and how public and internal paths map to each other. */
module Roots {
  import opened FileSystem
  import opened Names
  import opened Lexical

  /** A root: the path users see, and where it lies on this machine. */
  datatype Root = Root(public: Path, internal: Path)

  datatype Resolved = At(path: Path) | EmptyPath | InvalidPath | PathTraversal | OutsideRoots

  // ----- Reading a path -----

  /** White space, by the Unicode property of that name. */
  predicate IsSpace(c: char) {
    || c == ' ' || '\t' <= c <= '\r' || c == 0x85 as char || c == 0xA0 as char || c == 0x1680 as char
    || 0x2000 as char <= c <= 0x200A as char || c == 0x2028 as char || c == 0x2029 as char || c == 0x202F as char
    || c == 0x205F as char || c == 0x3000 as char
  }

  predicate Blank(s: string) {
    forall i :: 0 <= i < |s| ==> IsSpace(s[i])
  }

  predicate HasControl(s: string) {
    exists i :: 0 <= i < |s| && (s[i] < ' ' || s[i] == 0x7f as char)
  }

  /** A user's path, cleaned; a relative one is taken from `cwd`. */
  function CleanPublicInput(cwd: Path, input: string): Resolved {
    if Blank(input) then EmptyPath
    else if HasControl(input) then InvalidPath
    else if ".." in Split(Clean(input)) then PathTraversal
    else At(Reduce((if IsAbs(input) then [] else cwd) + Split(input), true))
  }

  function Render(p: Path): string {
    "/" + Join(p)
  }

  predicate Printable(p: Path) {
    AllNames(p) && !HasControl(Render(p))
  }

  lemma {:induction false} SplitRender(p: Path)
    requires AllNames(p)
    ensures Split(Render(p)) == [""] + (if p == [] then [""] else p)
    ensures Reduce(Split(Render(p)), true) == p
  {
    SplitAbs(Join(p));
    NamesAreSlashFree(p);
    if p != [] { SplitJoin(p); }
    ReduceSkipsEmpty(if p == [] then [""] else p, true);
    ReduceNames(p, true);
    if p == [] {
      ReduceSkipsEmpty([], true);
      assert [""] + [] == [""];
    }
  }

  /** What is printed is read back. */
  lemma ReadBack(cwd: Path, p: Path)
    requires Printable(p)
    ensures CleanPublicInput(cwd, Render(p)) == At(p)
  {
    hide Split, Reduce, Join, HasControl;
    SplitRender(p);
    var s := Render(p);
    assert s[0] == '/' && !IsSpace(s[0]);
    NoUpInNames(p, Split(s));
    assert [] + Split(s) == Split(s);
  }

  lemma NoUpInNames(p: Path, parts: seq<string>)
    requires AllNames(p) && parts == [""] + (if p == [] then [""] else p)
    ensures ".." !in parts
  {
    forall i | 0 <= i < |parts|
      ensures parts[i] != ".."
    {
      if i > 0 && p != [] { assert IsName(p[i - 1]); }
    }
  }

  /** What a user's path stands for: the place it leads to from the root, or from `cwd` without ever going above it. */
  ghost function Asked(cwd: Path, input: string): Resolved {
    if forall i :: 0 <= i < |input| ==> IsSpace(input[i]) then EmptyPath
    else if exists i :: 0 <= i < |input| && (input[i] < ' ' || input[i] == 0x7f as char) then InvalidPath
    else if input[0] == '/' then At(Target([], Split(input)))
    else if exists i :: 0 <= i <= |Split(input)| && Depth(Split(input)[..i]) < 0 then PathTraversal
    else At(Target(cwd, Split(input)))
  }

  /** Reading a path by cleaning it gives what it stands for. */
  lemma InputLeadsThere(cwd: Path, input: string)
    requires AllNames(cwd)
    ensures CleanPublicInput(cwd, input) == Asked(cwd, input)
  {
    hide Split, Reduce, Target, Join, Depth, LeastDepth;
    var parts := Split(input);
    assert Blank(input) || input != "";
    UpInCleaned(input);
    LeastDepthIsLeast(parts);
    assert [] + parts == parts;
    RootedLeadsThere(parts);
    NamesAreSlashFree(cwd);
    assert forall part :: part in cwd + parts ==> part in cwd || part in parts;
    RootedLeadsThere(cwd + parts);
    TargetThrough([], cwd, parts);
    TargetOfNames([], cwd);
    assert [] + cwd == cwd;
  }

  /** Cleaning leaves a step up only if the path is relative and goes above its start. */
  lemma UpInCleaned(input: string)
    ensures ".." in Split(Clean(input)) <==> !IsAbs(input) && LeastDepth(Split(input)) < 0
  {
    hide Split, Reduce, Join, Depth, LeastDepth;
    var parts := Split(input);
    var out := Reduce(parts, IsAbs(input));
    if IsAbs(input) {
      ReduceRooted(parts);
      SplitRender(out);
      NoUpInNames(out, Split(Render(out)));
    } else {
      ReduceShape(parts);
      UpsAreSlashFree(out, -LeastDepth(parts));
      if out == [] {
        SplitName(".");
      } else {
        SplitJoin(out);
        assert out[0] in out;
        assert ".." in out ==> exists i :: 0 <= i < |out| && out[i] == "..";
      }
    }
  }

  /** Whatever is admitted consists of names only. */
  lemma AdmittedIsClean(cwd: Path, input: string)
    requires AllNames(cwd) && CleanPublicInput(cwd, input).At?
    ensures AllNames(CleanPublicInput(cwd, input).path)
  {
    NamesAreSlashFree(cwd);
    var parts := (if IsAbs(input) then [] else cwd) + Split(input);
    assert forall part :: part in parts ==> part in cwd || part in Split(input);
    ReduceRooted(parts);
  }

  // ----- Being inside -----

  function CommonLength(a: Path, b: Path): (n: nat)
    ensures n <= |a| && n <= |b| && a[..n] == b[..n]
    ensures n < |a| && n < |b| ==> a[n] != b[n]
  {
    if a == [] || b == [] || a[0] != b[0] then 0 else 1 + CommonLength(a[1..], b[1..])
  }

  /** The way from `base` to `target`: up out of what they do not share, then down. */
  function Rel(base: Path, target: Path): Path {
    var n := CommonLength(base, target);
    seq(|base| - n, _ => "..") + target[n..]
  }

  predicate PathInside(root: Path, path: Path) {
    path == root || (var rel := Rel(root, path); rel != [] && rel[0] != "..")
  }

  /** The check on the relative path means what it should: everything below the root, and nothing else. */
  lemma InsideIsPrefix(root: Path, path: Path)
    requires AllNames(path)
    ensures PathInside(root, path) <==> root <= path
  {
    var n := CommonLength(root, path);
    if root <= path {
      assert n == |root|;
      if path != root { assert IsName(path[n]); }
    }
  }

  /** The length of the path as text. */
  function TextLength(p: Path): nat {
    if p == [] then 1 else if |p| == 1 then |p[0]| + 1 else TextLength(p[..|p| - 1]) + |p[|p| - 1]| + 1
  }

  lemma {:induction false} LongerText(a: Path, b: Path)
    requires a <= b && AllNames(b)
    ensures TextLength(a) <= TextLength(b)
    ensures a != b ==> TextLength(a) < TextLength(b)
    decreases |b|
  {
    if a != b {
      var init := b[..|b| - 1];
      assert IsName(b[|b| - 1]);
      assert AllNames(init) by {
        forall i | 0 <= i < |init|
          ensures IsName(init[i])
        {
          assert init[i] == b[i];
        }
      }
      LongerText(a, init);
    }
  }

  /** Among roots of one path, the longer text is the longer path. */
  lemma TextOrder(a: Path, b: Path, p: Path)
    requires a <= p && b <= p && AllNames(p)
    ensures TextLength(a) <= TextLength(b) <==> a <= b
  {
    PrefixNames(a, p);
    PrefixNames(b, p);
    assert a <= b || b <= a;
    if a <= b { LongerText(a, b); }
    if b <= a { LongerText(b, a); }
  }

  lemma PrefixNames(a: Path, p: Path)
    requires a <= p && AllNames(p)
    ensures AllNames(a)
  {
    forall i | 0 <= i < |a|
      ensures IsName(a[i])
    {
      assert a[i] == p[i];
    }
  }

  // ----- The mapping -----

  ghost predicate LongestPublic(roots: seq<Root>, p: Path, root: Root) {
    root in roots && root.public <= p &&
    forall other :: other in roots && other.public <= p ==> TextLength(other.public) <= TextLength(root.public)
  }

  ghost predicate LongestInternal(roots: seq<Root>, q: Path, root: Root) {
    root in roots && root.internal <= q &&
    forall other :: other in roots && other.internal <= q ==> TextLength(other.internal) <= TextLength(root.internal)
  }

  /** The `i`-th root is the first of the longest that contain `q`. */
  ghost predicate FirstLongest(roots: seq<Root>, q: Path, i: nat) {
    && i < |roots| && LongestInternal(roots, q, roots[i])
    && forall k :: 0 <= k < i && roots[k].internal <= q ==> TextLength(roots[k].internal) < TextLength(roots[i].internal)
  }

  /** `q` is what the longest public root makes of `p`. */
  ghost predicate Resolves(roots: seq<Root>, p: Path, q: Path) {
    exists root :: LongestPublic(roots, p, root) && q == root.internal + p[|root.public|..]
  }

  /** `p` is what the longest internal root makes of `q`. */
  ghost predicate Publishes(roots: seq<Root>, q: Path, p: Path) {
    exists root :: LongestInternal(roots, q, root) && p == root.public + q[|root.internal|..]
  }

  ghost predicate InsideSome(roots: seq<Root>, p: Path) {
    exists root :: root in roots && root.public <= p
  }

  /** What is on this machine: which paths exist, and where the links on a path lead, if they can be followed. */
  datatype Links = Links(there: Path -> bool, follow: Path -> Option<Path>)

  ghost predicate Sane(links: Links) {
    forall q :: links.follow(q).Some? ==> AllNames(links.follow(q).value)
  }

  ghost predicate NoLinks(links: Links) {
    forall q :: links.follow(q).Some? ==> links.follow(q).value == q
  }

  /** `e` is `q` with its longest existing part, at its length `n`, replaced by where that leads. */
  ghost predicate LeadsFrom(links: Links, q: Path, e: Path, n: nat) {
    && n <= |q| && links.there(q[..n]) && (forall m :: n < m <= |q| ==> !links.there(q[..m]))
    && e == (if links.follow(q[..n]).Some? then links.follow(q[..n]).value + q[n..] else q)
  }

  ghost predicate LeadsTo(links: Links, q: Path, e: Path) {
    || (exists n :: LeadsFrom(links, q, e, n))
    || ((forall m :: 0 <= m <= |q| ==> !links.there(q[..m])) && e == q)
  }

  /** Follows the links of the nearest existing ancestor, so that a link above a new entry is seen too. */
  method Follow(links: Links, q: Path) returns (e: Path)
    requires Sane(links) && AllNames(q)
    ensures LeadsTo(links, q, e) && AllNames(e)
    ensures NoLinks(links) ==> e == q
  {
    e := q;
    var n := |q|;
    assert q[..n] == q;
    if links.there(q) {
      if links.follow(q).Some? { e := links.follow(q).value; }
      assert LeadsFrom(links, q, e, n);
      return;
    }
    while n > 0
      invariant 0 <= n <= |q| && e == q
      invariant forall m :: n <= m <= |q| ==> !links.there(q[..m])
    {
      n := n - 1;
      if links.there(q[..n]) {
        if links.follow(q[..n]).Some? {
          NamesJoin(links.follow(q[..n]).value, q, n);
          e := links.follow(q[..n]).value + q[n..];
        }
        assert LeadsFrom(links, q, e, n);
        return;
      }
    }
  }

  /** What the guard makes of `p` through its root: where the links lead, if that is still inside the root. */
  ghost predicate Guarded(links: Links, root: Root, p: Path, r: Resolved) {
    root.public <= p &&
    exists e :: LeadsTo(links, root.internal + p[|root.public|..], e) && r == if root.internal <= e then At(e) else OutsideRoots
  }

  /** A user's path to the path on this machine. */
  method Resolve(roots: seq<Root>, links: Links, cwd: Path, input: string) returns (r: Resolved)
    requires AllNames(cwd) && Sane(links) && forall root :: root in roots ==> AllNames(root.internal)
    ensures !Asked(cwd, input).At? ==> r == Asked(cwd, input)
    ensures Asked(cwd, input).At? ==>
      var p := Asked(cwd, input).path;
      if InsideSome(roots, p) then exists root :: LongestPublic(roots, p, root) && Guarded(links, root, p, r) else r == OutsideRoots
    ensures r.At? ==> exists root :: root in roots && root.internal <= r.path
    ensures Asked(cwd, input).At? && NoLinks(links) ==>
      var p := Asked(cwd, input).path;
      InsideSome(roots, p) ==> r.At? && Resolves(roots, p, r.path)
  {
    hide Split, Clean, Reduce, TextLength, LeadsTo, NoLinks, CleanPublicInput, Asked;
    InputLeadsThere(cwd, input);
    var cleaned := CleanPublicInput(cwd, input);
    if !cleaned.At? { return cleaned; }
    AdmittedIsClean(cwd, input);
    var p := cleaned.path;
    var best := Longest(roots, p);
    if best.None? { return OutsideRoots; }
    var resolved := best.value.internal + p[|best.value.public|..];
    NamesJoin(best.value.internal, p, |best.value.public|);
    var followed := Follow(links, resolved);
    InsideIsPrefix(best.value.internal, followed);
    r := if PathInside(best.value.internal, followed) then At(followed) else OutsideRoots;
    assert Guarded(links, best.value, p, r);
  }

  /** The loop over the roots: one with the longest public path that contains `p`, if there is one. */
  method Longest(roots: seq<Root>, p: Path) returns (best: Option<Root>)
    requires AllNames(p)
    ensures best.None? <==> !InsideSome(roots, p)
    ensures best.Some? ==> LongestPublic(roots, p, best.value)
  {
    hide TextLength;
    best := None;
    for i := 0 to |roots|
      invariant best.None? ==> forall k :: 0 <= k < i ==> !(roots[k].public <= p)
      invariant best.Some? ==> best.value in roots && best.value.public <= p
      invariant best.Some? ==> forall k :: 0 <= k < i && roots[k].public <= p ==> TextLength(roots[k].public) <= TextLength(best.value.public)
    {
      InsideIsPrefix(roots[i].public, p);
      if !PathInside(roots[i].public, p) { continue; }
      if best.None? || TextLength(roots[i].public) > TextLength(best.value.public) { best := Some(roots[i]); }
    }
  }

  lemma NamesJoin(a: Path, p: Path, n: nat)
    requires AllNames(a) && AllNames(p) && n <= |p|
    ensures AllNames(a + p[n..])
  {
    forall i | 0 <= i < |a + p[n..]|
      ensures IsName((a + p[n..])[i])
    {
      if i < |a| { assert IsName(a[i]); } else { assert IsName(p[n + i - |a|]); }
    }
  }

  /** A path on this machine to the one users see. */
  method PublicPath(roots: seq<Root>, q: Path) returns (r: Resolved)
    requires AllNames(q)
    ensures if exists root :: root in roots && root.internal <= q then r.At? && Publishes(roots, q, r.path) else r == OutsideRoots
    ensures r.At? ==> exists i: nat :: FirstLongest(roots, q, i) && r.path == roots[i].public + q[|roots[i].internal|..]
  {
    hide TextLength;
    var best: Option<Root> := None;
    ghost var at := 0;
    for i := 0 to |roots|
      invariant best.None? ==> forall k :: 0 <= k < i ==> !(roots[k].internal <= q)
      invariant best.Some? ==> best.value in roots && best.value.internal <= q
      invariant best.Some? ==> forall k :: 0 <= k < i && roots[k].internal <= q ==> TextLength(roots[k].internal) <= TextLength(best.value.internal)
      invariant best.Some? ==> 0 <= at < i && best.value == roots[at]
      invariant best.Some? ==>
        forall k :: 0 <= k < at && roots[k].internal <= q ==> TextLength(roots[k].internal) < TextLength(best.value.internal)
    {
      InsideIsPrefix(roots[i].internal, q);
      if !PathInside(roots[i].internal, q) { continue; }
      if best.None? || TextLength(roots[i].internal) > TextLength(best.value.internal) { best, at := Some(roots[i]), i; }
    }
    if best.None? { return OutsideRoots; }
    assert LongestInternal(roots, q, best.value) && FirstLongest(roots, q, at);
    return At(best.value.public + q[|best.value.internal|..]);
  }

  // ----- When the two directions undo each other -----

  /** Every internal path is the host's mount point followed by the public path. */
  ghost predicate Uniform(host: Path, roots: seq<Root>) {
    forall root :: root in roots ==> root.internal == host + root.public
  }

  /** With uniform roots the two directions are inverse to each other, and they are the host prefix and its removal. */
  lemma UniformInverse(host: Path, roots: seq<Root>, p: Path, q: Path)
    requires Uniform(host, roots) && AllNames(host) && AllNames(p) && AllNames(q)
    ensures Resolves(roots, p, q) <==> Publishes(roots, q, p)
    ensures Resolves(roots, p, q) <==> InsideSome(roots, p) && q == host + p
  {
    ResolvesUniformly(host, roots, p, q);
    PublishesUniformly(host, roots, p, q);
  }

  lemma ResolvesUniformly(host: Path, roots: seq<Root>, p: Path, q: Path)
    requires Uniform(host, roots) && AllNames(host) && AllNames(p) && AllNames(q)
    ensures Resolves(roots, p, q) <==> InsideSome(roots, p) && q == host + p
  {
    hide TextLength, AllNames;
    if Resolves(roots, p, q) {
      var root :| LongestPublic(roots, p, root) && q == root.internal + p[|root.public|..];
      RestOf(host, roots, p, root);
    }
    if InsideSome(roots, p) && q == host + p {
      var root := SomeLongest(roots, p);
      RestOf(host, roots, p, root);
    }
  }

  lemma RestOf(host: Path, roots: seq<Root>, p: Path, root: Root)
    requires Uniform(host, roots) && LongestPublic(roots, p, root)
    ensures root in roots && root.public <= p && root.internal <= host + p
    ensures root.internal + p[|root.public|..] == host + p
    ensures root.public + (host + p)[|root.internal|..] == p
  {}

  lemma PublishesUniformly(host: Path, roots: seq<Root>, p: Path, q: Path)
    requires Uniform(host, roots) && AllNames(host) && AllNames(p) && AllNames(q)
    ensures Publishes(roots, q, p) <==> InsideSome(roots, p) && q == host + p
  {
    hide TextLength, AllNames, LongestPublic;
    if Publishes(roots, q, p) {
      var root :| LongestInternal(roots, q, root) && p == root.public + q[|root.internal|..];
      assert root in roots && root.internal == host + root.public;
      assert q == root.internal + q[|root.internal|..] == host + p;
    }
    if InsideSome(roots, p) && q == host + p {
      var root := SomeLongest(roots, p);
      RestOf(host, roots, p, root);
      SameLongest(host, roots, p, q, root);
    }
  }

  lemma SameLongest(host: Path, roots: seq<Root>, p: Path, q: Path, root: Root)
    requires Uniform(host, roots) && q == host + p && AllNames(p) && AllNames(q) && root in roots
    ensures LongestPublic(roots, p, root) <==> LongestInternal(roots, q, root)
  {
    forall other | other in roots
      ensures other.public <= p <==> other.internal <= q
    {
      assert other.internal == host + other.public;
      if other.internal <= q { assert q[|host|..] == p && other.internal[|host|..] == other.public; }
    }
    forall other | other in roots && other.public <= p && root.public <= p
      ensures TextLength(other.public) <= TextLength(root.public) <==> TextLength(other.internal) <= TextLength(root.internal)
    {
      TextOrder(other.public, root.public, p);
      TextOrder(other.internal, root.internal, q);
      assert other.internal == host + other.public && root.internal == host + root.public;
      if other.internal <= root.internal {
        assert other.internal[|host|..] == other.public && root.internal[|host|..] == root.public;
      }
    }
  }

  lemma {:induction false} SomeLongest(roots: seq<Root>, p: Path) returns (root: Root)
    requires InsideSome(roots, p)
    ensures LongestPublic(roots, p, root)
    decreases |roots|
  {
    var init, last := roots[..|roots| - 1], roots[|roots| - 1];
    assert roots == init + [last];
    if InsideSome(init, p) {
      root := SomeLongest(init, p);
      if last.public <= p && TextLength(last.public) > TextLength(root.public) { root := last; }
    } else {
      root := last;
    }
  }

  ghost predicate DistinctPublic(roots: seq<Root>) {
    forall a, b :: a in roots && b in roots && a.public == b.public ==> a == b
  }

  /** For any roots at all: a path comes back exactly when the longest public and the longest internal root are the same one. */
  lemma RoundTripExactly(roots: seq<Root>, p: Path, q: Path)
    requires DistinctPublic(roots) && AllNames(p) && AllNames(q) && Resolves(roots, p, q)
    ensures Publishes(roots, q, p) <==> exists root :: LongestPublic(roots, p, root) && LongestInternal(roots, q, root)
  {
    hide TextLength, AllNames;
    var r :| LongestPublic(roots, p, r) && q == r.internal + p[|r.public|..];
    if Publishes(roots, q, p) {
      var s :| LongestInternal(roots, q, s) && p == s.public + q[|s.internal|..];
      ComesBackThroughOne(roots, p, q, r, s);
    }
    if root :| LongestPublic(roots, p, root) && LongestInternal(roots, q, root) {
      TextOrder(root.public, r.public, p);
      TextOrder(r.public, root.public, p);
      assert root.public == r.public;
      assert p == root.public + q[|root.internal|..];
    }
  }

  lemma ComesBackThroughOne(roots: seq<Root>, p: Path, q: Path, r: Root, s: Root)
    requires DistinctPublic(roots) && AllNames(p) && AllNames(q)
    requires LongestPublic(roots, p, r) && q == r.internal + p[|r.public|..]
    requires LongestInternal(roots, q, s) && p == s.public + q[|s.internal|..]
    ensures r == s
  {
    hide TextLength, AllNames;
    assert r.internal <= q && s.public <= p;
    TextOrder(r.internal, s.internal, q);
    TextOrder(s.public, r.public, p);
    assert |s.public| + (|q| - |s.internal|) == |p| && |r.internal| + (|p| - |r.public|) == |q|;
    assert |r.internal| <= |s.internal| && |s.public| <= |r.public|;
    assert s.public == r.public;
  }

  /** Two roots whose internal paths nest where the public ones do not: a path resolved under one is published under the other. */
  lemma NonUniformDoesNotComeBack()
    ensures var roots := [Root(["a"], ["x"]), Root(["b"], ["x", "y"])];
      && Resolves(roots, ["a", "y", "z"], ["x", "y", "z"])
      && Publishes(roots, ["x", "y", "z"], ["b", "z"])
      && !Publishes(roots, ["x", "y", "z"], ["a", "y", "z"])
  {
    var a, b := Root(["a"], ["x"]), Root(["b"], ["x", "y"]);
    var roots, p, q := [a, b], ["a", "y", "z"], ["x", "y", "z"];
    assert p[..1] == ["a"] && p[0] != b.public[0];
    assert LongestPublic(roots, p, a) && q == a.internal + p[1..];
    assert q[..1] == a.internal && q[..2] == b.internal;
    assert TextLength(["x"]) == 2 && TextLength(["x", "y"]) == 4 by { assert ["x", "y"][..1] == ["x"]; }
    assert LongestInternal(roots, q, b) && ["b", "z"] == b.public + q[2..];
    forall root | LongestInternal(roots, q, root)
      ensures root == b
    {
      assert root in roots;
    }
    assert (b.public + q[2..])[0] == "b";
  }

  // ----- Where the roots come from -----

  /** A configured root on a host mounted at `host`; an empty `host` is none. */
  function RootSpec(host: Path, public: Path): Root {
    Root(public, host + public)
  }

  /** A discovered mount: seen through the host's mount point, or as the host itself sees it. */
  function Discovered(host: Path, mountPoint: Path): Root {
    if host != [] && host <= mountPoint && host != mountPoint then Root(mountPoint[|host|..], mountPoint)
    else RootSpec(host, mountPoint)
  }

  /**
   A mount `m` of the host is seen here as `host + m`, and gives the root of users' path `m` that lies there. Listed as
   the host sees it, it gives the same root if and only if its path does not itself begin with the host prefix.
   */
  lemma SeenFromEitherSide(host: Path, m: Path)
    requires m != []
    ensures Discovered(host, host + m) == Root(m, host + m)
    ensures Discovered(host, m) == Root(m, host + m) <==> host == [] || host == m || !(host <= m)
  {
    assert (host + m)[|host|..] == m && |host + m| > |host|;
    if host != [] && host <= m && host != m { assert |m[|host|..]| < |m|; }
  }

  /** `root` is the `i`-th given, and the first with its public path. */
  ghost predicate FirstOf(specs: seq<Root>, i: nat, root: Root) {
    i < |specs| && specs[i] == root && forall k :: 0 <= k < i ==> specs[k].public != root.public
  }

  /** The first root of each public path is kept. */
  method NewRootGuard(specs: seq<Root>) returns (roots: seq<Root>)
    ensures DistinctPublic(roots)
    ensures forall root :: root in roots ==> exists i :: FirstOf(specs, i, root)
    ensures forall spec :: spec in specs ==> exists root :: root in roots && root.public == spec.public
  {
    roots := [];
    var seen: set<Path> := {};
    for i := 0 to |specs|
      invariant DistinctPublic(roots)
      invariant forall root :: root in roots ==> exists i :: FirstOf(specs, i, root)
      invariant seen == set root | root in roots :: root.public
      invariant forall k :: 0 <= k < i ==> specs[k].public in seen
    {
      if specs[i].public in seen { continue; }
      assert FirstOf(specs, i, specs[i]);
      roots, seen := roots + [specs[i]], seen + {specs[i].public};
    }
  }

  /** Whatever is configured and discovered on one host, the guard built from it is uniform. */
  lemma GuardIsUniform(host: Path, configured: seq<Path>, mounts: seq<Path>, roots: seq<Root>)
    requires forall root :: root in roots ==>
      (exists i :: 0 <= i < |configured| && root == RootSpec(host, configured[i])) ||
      (exists i :: 0 <= i < |mounts| && root == Discovered(host, mounts[i]))
    ensures Uniform(host, roots)
  {
    forall root | root in roots
      ensures root.internal == host + root.public
    {
      if i :| 0 <= i < |mounts| && root == Discovered(host, mounts[i]) {
        assert host <= mounts[i] ==> mounts[i] == host + mounts[i][|host|..];
      }
    }
  }
}
