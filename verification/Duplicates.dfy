/**
 Duplicate search: files are grouped by size, hard links to one inode are counted once, unstable files are dropped,
 then the rest is grouped by the hash of a prefix and at last by the hash of the whole. The groups found are those of
 plain grouping by content.
 */
module Duplicates {
  import opened FileSystem
  import opened Sums

  const PREFIX_BYTES: nat := 65536

  datatype Candidate = Candidate(path: Path, data: Bytes, device: nat, inode: nat)

  /** What the search cannot decide itself: the hash, and whether a file is stable and can be read. */
  datatype Env = Env(hash: Bytes -> string, stable: Candidate -> bool, prefixRead: Candidate -> bool, wholeRead: Candidate -> bool)

  datatype Key = Key(size: nat, prefix: string, full: string)

  datatype Hit = Hit(group: nat, path: Path, size: nat, checksum: string)

  function Prefix(data: Bytes): Bytes {
    if |data| <= PREFIX_BYTES then data else data[..PREFIX_BYTES]
  }

  function KeyOf(env: Env, f: Candidate): Key {
    Key(|f.data|, env.hash(Prefix(f.data)), env.hash(f.data))
  }

  ghost predicate Injective(hash: Bytes -> string) {
    forall a, b :: hash(a) == hash(b) ==> a == b
  }

  function Where<T>(s: seq<T>, p: T -> bool): (r: seq<T>) {
    if s == [] then [] else Where(s[..|s| - 1], p) + if p(s[|s| - 1]) then [s[|s| - 1]] else []
  }

  lemma {:induction false} WhereHas<T>(s: seq<T>, p: T -> bool, x: T)
    ensures x in Where(s, p) <==> x in s && p(x)
  {
    if s != [] {
      WhereHas(s[..|s| - 1], p, x);
      assert s == s[..|s| - 1] + [s[|s| - 1]];
    }
  }

  lemma {:induction false} WhereWhere<T>(s: seq<T>, p: T -> bool, q: T -> bool, r: T -> bool)
    requires forall x :: x in s ==> (r(x) <==> p(x) && q(x))
    ensures Where(Where(s, p), q) == Where(s, r)
  {
    if s != [] {
      var init, last := s[..|s| - 1], s[|s| - 1];
      assert last in s && forall x :: x in init ==> x in s;
      WhereWhere(init, p, q, r);
      var w := Where(init, p);
      assert (w + [last])[..|w|] == w && w + [] == w;
    }
  }

  lemma {:induction false} WhereStep<T>(s: seq<T>, i: nat, p: T -> bool)
    requires i < |s|
    ensures Where(s[..i + 1], p) == Where(s[..i], p) + if p(s[i]) then [s[i]] else []
  {
    assert s[..i + 1][..i] == s[..i];
  }

  // ----- The files that take part -----

  /** Without the files that an earlier one of the same size and inode stands for. */
  function FirstLinks(s: seq<Candidate>): seq<Candidate> {
    if s == [] then []
    else FirstLinks(s[..|s| - 1]) + if Linked(s[..|s| - 1], s[|s| - 1]) then [] else [s[|s| - 1]]
  }

  predicate Linked(earlier: seq<Candidate>, f: Candidate) {
    exists i :: 0 <= i < |earlier| && SameLink(earlier[i], f)
  }

  predicate SameLink(a: Candidate, b: Candidate) {
    |a.data| == |b.data| && a.device == b.device && a.inode == b.inode
  }

  predicate Takes(env: Env, f: Candidate) {
    env.stable(f) && env.prefixRead(f) && env.wholeRead(f)
  }

  /** The files that are compared: one per inode, stable and readable. */
  function Kept(env: Env, all: seq<Candidate>): seq<Candidate> {
    Where(FirstLinks(all), f => Takes(env, f))
  }

  /** The kept files with one key, in the order of the walk. */
  function Members(env: Env, all: seq<Candidate>, k: Key): seq<Candidate> {
    Where(Kept(env, all), f => KeyOf(env, f) == k)
  }

  /** Links are looked for among the files of one size, which comes to the same. */
  lemma {:induction false} FirstLinksBySize(s: seq<Candidate>, size: nat)
    ensures FirstLinks(Where(s, (f: Candidate) => |f.data| == size)) == Where(FirstLinks(s), (f: Candidate) => |f.data| == size)
  {
    var p := (f: Candidate) => |f.data| == size;
    if s != [] {
      var init, last := s[..|s| - 1], s[|s| - 1];
      FirstLinksBySize(init, size);
      var w, u := Where(init, p), FirstLinks(init);
      assert (w + [last])[..|w|] == w && (u + [last])[..|u|] == u && u + [] == u && w + [] == w;
      if p(last) { LinkedBySize(init, size, last); }
    }
  }

  lemma LinkedBySize(s: seq<Candidate>, size: nat, f: Candidate)
    requires |f.data| == size
    ensures Linked(Where(s, (g: Candidate) => |g.data| == size), f) <==> Linked(s, f)
  {
    var p := (g: Candidate) => |g.data| == size;
    var w := Where(s, p);
    if Linked(s, f) {
      var i :| 0 <= i < |s| && SameLink(s[i], f);
      WhereHas(s, p, s[i]);
      var j :| 0 <= j < |w| && w[j] == s[i];
      assert SameLink(w[j], f);
    }
    if Linked(w, f) {
      var j :| 0 <= j < |w| && SameLink(w[j], f);
      WhereHas(s, p, w[j]);
      var i :| 0 <= i < |s| && s[i] == w[j];
      assert SameLink(s[i], f);
    }
  }

  // ----- The loops that build the groups -----

  ghost function Is<K(!new)>(key: Candidate -> K, k: K): Candidate -> bool {
    (f: Candidate) => key(f) == k
  }

  /** `groups` holds, for every key, the files with that key in order. */
  ghost predicate Grouped<K(!new)>(files: seq<Candidate>, key: Candidate -> K, groups: map<K, seq<Candidate>>) {
    && (forall f :: f in files ==> key(f) in groups)
    && (forall k :: k in groups ==> groups[k] == Where(files, Is(key, k)))
    && (forall k :: k in groups ==> groups[k] != [])
  }

  lemma GroupedStep<K(!new)>(files: seq<Candidate>, i: nat, key: Candidate -> K, groups: map<K, seq<Candidate>>, after: map<K, seq<Candidate>>)
    requires i < |files| && Grouped(files[..i], key, groups)
    requires after == groups[key(files[i]) := (if key(files[i]) in groups then groups[key(files[i])] else []) + [files[i]]]
    ensures Grouped(files[..i + 1], key, after)
  {
    assert files[..i + 1] == files[..i] + [files[i]];
    forall k | k in after
      ensures after[k] == Where(files[..i + 1], Is(key, k))
    {
      WhereStep(files, i, Is(key, k));
      if k !in groups { NoneWith(files[..i], key, k); }
    }
  }

  lemma {:induction false} NoneWith<K(!new)>(files: seq<Candidate>, key: Candidate -> K, k: K)
    requires forall f :: f in files ==> key(f) != k
    ensures Where(files, Is(key, k)) == []
  {
    if files != [] {
      assert files[|files| - 1] in files;
      assert forall f :: f in files[..|files| - 1] ==> f in files;
      NoneWith(files[..|files| - 1], key, k);
    }
  }

  method GroupBy<K(!new, ==)>(files: seq<Candidate>, key: Candidate -> K) returns (groups: map<K, seq<Candidate>>)
    ensures Grouped(files, key, groups)
  {
    groups := map[];
    for i := 0 to |files|
      invariant Grouped(files[..i], key, groups)
    {
      var k := key(files[i]);
      GroupedStep(files, i, key, groups, groups[k := (if k in groups then groups[k] else []) + [files[i]]]);
      groups := groups[k := (if k in groups then groups[k] else []) + [files[i]]];
    }
    assert files[..|files|] == files;
  }

  method DropLinks(files: seq<Candidate>) returns (unique: seq<Candidate>)
    requires forall f, g :: f in files && g in files ==> |f.data| == |g.data|
    ensures unique == FirstLinks(files)
  {
    var seen := {};
    unique := [];
    for i := 0 to |files|
      invariant unique == FirstLinks(files[..i])
      invariant seen == set j | 0 <= j < i :: (files[j].device, files[j].inode)
    {
      var f := files[i];
      LinkSeen(files, i, seen);
      assert files[..i + 1][..i] == files[..i];
      if (f.device, f.inode) !in seen { unique := unique + [f]; }
      seen := seen + {(f.device, f.inode)};
    }
    assert files[..|files|] == files;
  }

  lemma LinkSeen(files: seq<Candidate>, i: nat, seen: set<(nat, nat)>)
    requires i < |files| && forall f, g :: f in files && g in files ==> |f.data| == |g.data|
    requires seen == set j | 0 <= j < i :: (files[j].device, files[j].inode)
    ensures (files[i].device, files[i].inode) in seen <==> Linked(files[..i], files[i])
  {
    if (files[i].device, files[i].inode) in seen {
      var j :| 0 <= j < i && (files[j].device, files[j].inode) == (files[i].device, files[i].inode);
      assert SameLink(files[..i][j], files[i]);
    }
  }

  method Filter(files: seq<Candidate>, keep: Candidate -> bool) returns (r: seq<Candidate>)
    ensures r == Where(files, keep)
  {
    r := [];
    for i := 0 to |files|
      invariant r == Where(files[..i], keep)
    {
      WhereStep(files, i, keep);
      if keep(files[i]) { r := r + [files[i]]; }
    }
    assert files[..|files|] == files;
  }

  // ----- The reported groups -----

  ghost function Keys(env: Env, all: seq<Candidate>): set<Key> {
    set f | f in Kept(env, all) :: KeyOf(env, f)
  }

  /** The groups reported for the keys in `done`: the members of each key that has at least two, each group once. */
  ghost predicate Lists(env: Env, all: seq<Candidate>, groups: seq<seq<Candidate>>, done: set<Key>) {
    && (forall i :: 0 <= i < |groups| ==> |groups[i]| >= 2 && exists k :: k in done && groups[i] == Members(env, all, k))
    && (forall k :: k in done && |Members(env, all, k)| >= 2 ==> Members(env, all, k) in groups)
    && (forall i, j :: 0 <= i < j < |groups| ==> groups[i] != groups[j])
  }

  lemma MembersHave(env: Env, all: seq<Candidate>, k: Key, f: Candidate)
    ensures f in Members(env, all, k) <==> f in Kept(env, all) && KeyOf(env, f) == k
  {
    WhereHas(Kept(env, all), f => KeyOf(env, f) == k, f);
  }

  lemma GroupKey(env: Env, all: seq<Candidate>, groups: seq<seq<Candidate>>, done: set<Key>, i: nat) returns (k: Key)
    requires Lists(env, all, groups, done) && i < |groups|
    ensures k in done && groups[i] == Members(env, all, k) && |groups[i]| >= 2
  {
    hide Members;
    assert |groups[i]| >= 2;
    k :| k in done && groups[i] == Members(env, all, k);
  }

  lemma ListsMore(env: Env, all: seq<Candidate>, groups: seq<seq<Candidate>>, done: set<Key>, k: Key)
    requires Lists(env, all, groups, done) && k !in done
    ensures |Members(env, all, k)| >= 2 ==> Lists(env, all, groups + [Members(env, all, k)], done + {k})
    ensures |Members(env, all, k)| < 2 ==> Lists(env, all, groups, done + {k})
  {
    hide Members;
    var m := Members(env, all, k);
    if |m| >= 2 {
      var longer := groups + [m];
      forall i | 0 <= i < |groups|
        ensures groups[i] != m
      {
        var j := GroupKey(env, all, groups, done, i);
        MembersHave(env, all, j, m[0]);
        MembersHave(env, all, k, m[0]);
        assert m[0] in m;
      }
      forall j | j in done + {k} && |Members(env, all, j)| >= 2
        ensures Members(env, all, j) in longer
      {
        if j != k { assert Members(env, all, j) in groups; } else { assert longer[|groups|] == m; }
      }
      forall i | 0 <= i < |longer|
        ensures |longer[i]| >= 2 && exists j :: j in done + {k} && longer[i] == Members(env, all, j)
      {
        if i == |groups| {
          assert k in done + {k};
        } else {
          var j := GroupKey(env, all, groups, done, i);
          assert j in done + {k};
        }
      }
    }
  }

  lemma ListsSkip(env: Env, all: seq<Candidate>, groups: seq<seq<Candidate>>, done: set<Key>, more: set<Key>)
    requires Lists(env, all, groups, done) && forall k :: k in more ==> |Members(env, all, k)| < 2
    ensures Lists(env, all, groups, done + more)
  {
    hide Members;
    forall i | 0 <= i < |groups|
      ensures exists k :: k in done + more && groups[i] == Members(env, all, k)
    {
      var k := GroupKey(env, all, groups, done, i);
      assert k in done + more;
    }
  }

  // ----- The files at each level, as parts of the first links -----

  function SizePart(size: nat): Candidate -> bool {
    (f: Candidate) => |f.data| == size
  }

  function StablePart(env: Env, size: nat): Candidate -> bool {
    (f: Candidate) => |f.data| == size && env.stable(f)
  }

  function PrefixPart(env: Env, size: nat, prefix: string): Candidate -> bool {
    (f: Candidate) => |f.data| == size && env.stable(f) && env.prefixRead(f) && env.hash(Prefix(f.data)) == prefix
  }

  function KeyPart(env: Env, k: Key): Candidate -> bool {
    (f: Candidate) => Takes(env, f) && KeyOf(env, f) == k
  }

  function WholeHash(env: Env): Candidate -> string {
    (f: Candidate) => env.hash(f.data)
  }

  function PrefixHash(env: Env): Candidate -> string {
    (f: Candidate) => env.hash(Prefix(f.data))
  }

  function Size(): Candidate -> nat {
    (f: Candidate) => |f.data|
  }

  lemma MembersAre(env: Env, all: seq<Candidate>, k: Key)
    ensures Members(env, all, k) == Where(FirstLinks(all), KeyPart(env, k))
  {
    WhereWhere(FirstLinks(all), f => Takes(env, f), f => KeyOf(env, f) == k, KeyPart(env, k));
  }

  lemma {:induction false} WhereShorter(s: seq<Candidate>, p: Candidate -> bool, q: Candidate -> bool)
    requires forall x :: x in s && p(x) ==> q(x)
    ensures |Where(s, p)| <= |Where(s, q)|
  {
    if s != [] {
      assert s[|s| - 1] in s && forall x :: x in s[..|s| - 1] ==> x in s;
      WhereShorter(s[..|s| - 1], p, q);
    }
  }

  ghost function KeysWhere(env: Env, all: seq<Candidate>, q: Key -> bool): set<Key> {
    set k | k in Keys(env, all) && q(k)
  }

  ghost function OfPrefix(size: nat, prefix: string): Key -> bool {
    (k: Key) => k.size == size && k.prefix == prefix
  }

  ghost function OfSize(size: nat): Key -> bool {
    (k: Key) => k.size == size
  }

  /** Where fewer than two files are left, no key has two members. */
  lemma TooFew(env: Env, all: seq<Candidate>, groups: seq<seq<Candidate>>, done: set<Key>, part: Candidate -> bool, q: Key -> bool)
    requires Lists(env, all, groups, done) && |Where(FirstLinks(all), part)| < 2
    requires forall f, k :: KeyPart(env, k)(f) && q(k) ==> part(f)
    ensures Lists(env, all, groups, done + KeysWhere(env, all, q))
  {
    forall k | k in KeysWhere(env, all, q)
      ensures |Members(env, all, k)| < 2
    {
      MembersAre(env, all, k);
      WhereShorter(FirstLinks(all), KeyPart(env, k), part);
    }
    ListsSkip(env, all, groups, done, KeysWhere(env, all, q));
  }

  // ----- The three levels of the search -----

  /** The rows of the groups, numbered from 1 in the order they were found. */
  function Numbered(env: Env, groups: seq<seq<Candidate>>): seq<Hit> {
    if groups == [] then [] else Numbered(env, groups[..|groups| - 1]) + HitsOf(env, |groups|, groups[|groups| - 1])
  }

  function HitsOf(env: Env, id: nat, group: seq<Candidate>): seq<Hit> {
    seq(|group|, i requires 0 <= i < |group| => Hit(id, group[i].path, |group[i].data|, env.hash(group[i].data)))
  }

  method Report(env: Env, id: nat, group: seq<Candidate>, checksum: string) returns (hits: seq<Hit>)
    requires forall f :: f in group ==> env.hash(f.data) == checksum
    ensures hits == HitsOf(env, id, group)
  {
    hits := [];
    for i := 0 to |group|
      invariant hits == HitsOf(env, id, group)[..i]
    {
      assert group[i] in group;
      hits := hits + [Hit(id, group[i].path, |group[i].data|, checksum)];
    }
  }

  lemma WholeGroupIsMembers(env: Env, all: seq<Candidate>, size: nat, prefix: string, part: seq<Candidate>, fullGroups: map<string, seq<Candidate>>, h: string)
    requires part == Where(FirstLinks(all), PrefixPart(env, size, prefix))
    requires Grouped(Where(part, env.wholeRead), WholeHash(env), fullGroups) && h in fullGroups
    ensures fullGroups[h] == Members(env, all, Key(size, prefix, h))
    ensures forall f :: f in fullGroups[h] ==> env.hash(f.data) == h
  {
    hide Where, FirstLinks, Members, Linked, Prefix;
    var k := Key(size, prefix, h);
    MembersAre(env, all, k);
    var both := (f: Candidate) => PrefixPart(env, size, prefix)(f) && env.wholeRead(f);
    WhereWhere(FirstLinks(all), PrefixPart(env, size, prefix), env.wholeRead, both);
    WhereWhere(FirstLinks(all), both, Is(WholeHash(env), h), KeyPart(env, k));
    forall f | f in fullGroups[h]
      ensures env.hash(f.data) == h
    {
      WhereHas(FirstLinks(all), KeyPart(env, k), f);
    }
  }

  /** The keys the whole hashes run through are those of the kept files with this size and prefix. */
  lemma WholeKeys(env: Env, all: seq<Candidate>, size: nat, prefix: string, part: seq<Candidate>, fullGroups: map<string, seq<Candidate>>)
    requires part == Where(FirstLinks(all), PrefixPart(env, size, prefix))
    requires Grouped(Where(part, env.wholeRead), WholeHash(env), fullGroups)
    ensures KeysWhere(env, all, OfPrefix(size, prefix)) == set h | h in fullGroups :: Key(size, prefix, h)
  {
    var keys := set h | h in fullGroups :: Key(size, prefix, h);
    forall k | k in KeysWhere(env, all, OfPrefix(size, prefix))
      ensures k in keys
    {
      var f :| f in Kept(env, all) && KeyOf(env, f) == k;
      WhereHas(FirstLinks(all), f => Takes(env, f), f);
      WhereHas(FirstLinks(all), PrefixPart(env, size, prefix), f);
      WhereHas(part, env.wholeRead, f);
      assert WholeHash(env)(f) in fullGroups;
    }
    forall k | k in keys
      ensures k in KeysWhere(env, all, OfPrefix(size, prefix))
    {
      WholeGroupIsMembers(env, all, size, prefix, part, fullGroups, k.full);
      MembersHave(env, all, k, fullGroups[k.full][0]);
    }
  }

  method ByWholeHash(env: Env, part: seq<Candidate>, results: seq<Hit>, groupID: nat,
      ghost all: seq<Candidate>, ghost size: nat, ghost prefix: string, ghost groups: seq<seq<Candidate>>, ghost done: set<Key>)
    returns (hits: seq<Hit>, lastID: nat, ghost found: seq<seq<Candidate>>)
    requires part == Where(FirstLinks(all), PrefixPart(env, size, prefix))
    requires Lists(env, all, groups, done) && results == Numbered(env, groups) && groupID == |groups|
    requires forall k :: k in done ==> !OfPrefix(size, prefix)(k)
    ensures Lists(env, all, found, done + KeysWhere(env, all, OfPrefix(size, prefix)))
    ensures hits == Numbered(env, found) && lastID == |found|
  {
    hide Lists, Numbered, HitsOf, Members, Keys, Where, FirstLinks, Grouped;
    hits, lastID, found := results, groupID, groups;
    if |part| < 2 {
      TooFew(env, all, groups, done, PrefixPart(env, size, prefix), OfPrefix(size, prefix));
      return;
    }
    var readable := Filter(part, env.wholeRead);
    var fullGroups := GroupBy(readable, WholeHash(env));
    var rest := fullGroups.Keys;
    WholeKeys(env, all, size, prefix, part, fullGroups);
    ghost var over := {};
    assert done + over == done;
    while rest != {}
      invariant rest <= fullGroups.Keys
      invariant over == set h | h in fullGroups.Keys - rest :: Key(size, prefix, h)
      invariant Lists(env, all, found, done + over) && hits == Numbered(env, found) && lastID == |found|
      decreases rest
    {
      var h :| h in rest;
      ghost var k := Key(size, prefix, h);
      WholeGroupIsMembers(env, all, size, prefix, part, fullGroups, h);
      ListsMore(env, all, found, done + over, k);
      assert done + over + {k} == done + (over + {k});
      if |fullGroups[h]| >= 2 {
        lastID := lastID + 1;
        var more := Report(env, lastID, fullGroups[h], h);
        NumberedMore(env, found, fullGroups[h]);
        hits, found := hits + more, found + [fullGroups[h]];
      }
      rest, over := rest - {h}, over + {k};
    }
    assert over == KeysWhere(env, all, OfPrefix(size, prefix));
  }

  lemma NumberedMore(env: Env, groups: seq<seq<Candidate>>, group: seq<Candidate>)
    ensures Numbered(env, groups + [group]) == Numbered(env, groups) + HitsOf(env, |groups| + 1, group)
  {
    assert (groups + [group])[..|groups|] == groups;
  }

  lemma PrefixGroupIsPart(env: Env, all: seq<Candidate>, size: nat, stable: seq<Candidate>, prefixGroups: map<string, seq<Candidate>>, p: string)
    requires stable == Where(FirstLinks(all), StablePart(env, size))
    requires Grouped(Where(stable, env.prefixRead), PrefixHash(env), prefixGroups) && p in prefixGroups
    ensures prefixGroups[p] == Where(FirstLinks(all), PrefixPart(env, size, p))
  {
    hide Where, FirstLinks, Linked, Prefix;
    var both := (f: Candidate) => StablePart(env, size)(f) && env.prefixRead(f);
    WhereWhere(FirstLinks(all), StablePart(env, size), env.prefixRead, both);
    WhereWhere(FirstLinks(all), both, Is(PrefixHash(env), p), PrefixPart(env, size, p));
  }

  /** Every key of this size has one of the prefixes found. */
  lemma PrefixKeys(env: Env, all: seq<Candidate>, size: nat, stable: seq<Candidate>, prefixGroups: map<string, seq<Candidate>>, k: Key)
    requires stable == Where(FirstLinks(all), StablePart(env, size))
    requires Grouped(Where(stable, env.prefixRead), PrefixHash(env), prefixGroups)
    requires k in KeysWhere(env, all, OfSize(size))
    ensures k.prefix in prefixGroups
  {
    var f :| f in Kept(env, all) && KeyOf(env, f) == k;
    WhereHas(FirstLinks(all), f => Takes(env, f), f);
    WhereHas(FirstLinks(all), StablePart(env, size), f);
    WhereHas(stable, env.prefixRead, f);
    assert PrefixHash(env)(f) in prefixGroups;
  }

  ghost function OfPrefixes(size: nat, prefixes: set<string>): Key -> bool {
    (k: Key) => k.size == size && k.prefix in prefixes
  }

  method ByPrefixHash(env: Env, stable: seq<Candidate>, results: seq<Hit>, groupID: nat,
      ghost all: seq<Candidate>, ghost size: nat, ghost groups: seq<seq<Candidate>>, ghost done: set<Key>)
    returns (hits: seq<Hit>, lastID: nat, ghost found: seq<seq<Candidate>>)
    requires stable == Where(FirstLinks(all), StablePart(env, size))
    requires Lists(env, all, groups, done) && results == Numbered(env, groups) && groupID == |groups|
    requires forall k :: k in done ==> !OfSize(size)(k)
    ensures Lists(env, all, found, done + KeysWhere(env, all, OfSize(size)))
    ensures hits == Numbered(env, found) && lastID == |found|
  {
    hide Lists, Numbered, Keys, Where, FirstLinks;
    hits, lastID, found := results, groupID, groups;
    if |stable| < 2 {
      TooFew(env, all, groups, done, StablePart(env, size), OfSize(size));
      return;
    }
    var readable := Filter(stable, env.prefixRead);
    var prefixGroups := GroupBy(readable, PrefixHash(env));
    var rest := prefixGroups.Keys;
    assert prefixGroups.Keys - rest == {} && done + KeysWhere(env, all, OfPrefixes(size, {})) == done;
    while rest != {}
      invariant rest <= prefixGroups.Keys
      invariant Lists(env, all, found, done + KeysWhere(env, all, OfPrefixes(size, prefixGroups.Keys - rest)))
      invariant hits == Numbered(env, found) && lastID == |found|
      decreases rest
    {
      var p :| p in rest;
      ghost var over := KeysWhere(env, all, OfPrefixes(size, prefixGroups.Keys - rest));
      PrefixGroupIsPart(env, all, size, stable, prefixGroups, p);
      OnePrefixMore(env, all, size, prefixGroups.Keys, rest, p, done);
      hits, lastID, found := ByWholeHash(env, prefixGroups[p], hits, lastID, all, size, p, found, done + over);
      rest := rest - {p};
    }
    forall k | k in KeysWhere(env, all, OfSize(size))
      ensures k.prefix in prefixGroups
    {
      PrefixKeys(env, all, size, stable, prefixGroups, k);
    }
    assert KeysWhere(env, all, OfPrefixes(size, prefixGroups.Keys - rest)) == KeysWhere(env, all, OfSize(size));
  }

  lemma OnePrefixMore(env: Env, all: seq<Candidate>, size: nat, prefixes: set<string>, rest: set<string>, p: string, done: set<Key>)
    requires rest <= prefixes && p in rest && forall k :: k in done ==> !OfSize(size)(k)
    ensures done + KeysWhere(env, all, OfPrefixes(size, prefixes - rest)) + KeysWhere(env, all, OfPrefix(size, p)) ==
      done + KeysWhere(env, all, OfPrefixes(size, prefixes - (rest - {p})))
    ensures forall k :: k in done + KeysWhere(env, all, OfPrefixes(size, prefixes - rest)) ==> !OfPrefix(size, p)(k)
  {
    hide Keys;
    forall k | k in done
      ensures !OfPrefix(size, p)(k)
    {
      assert !OfSize(size)(k);
    }
  }

  lemma SizeGroupIsPart(env: Env, all: seq<Candidate>, sizeGroups: map<nat, seq<Candidate>>, size: nat)
    requires Grouped(all, Size(), sizeGroups) && size in sizeGroups
    ensures FirstLinks(sizeGroups[size]) == Where(FirstLinks(all), SizePart(size))
    ensures Where(FirstLinks(sizeGroups[size]), env.stable) == Where(FirstLinks(all), StablePart(env, size))
    ensures forall f, g :: f in sizeGroups[size] && g in sizeGroups[size] ==> |f.data| == |g.data|
    ensures |FirstLinks(sizeGroups[size])| <= |sizeGroups[size]|
  {
    FirstLinksBySize(all, size);
    SameWhere(all, Is(Size(), size), (f: Candidate) => |f.data| == size);
    SameWhere(FirstLinks(all), (f: Candidate) => |f.data| == size, SizePart(size));
    WhereWhere(FirstLinks(all), SizePart(size), env.stable, StablePart(env, size));
    forall f | f in sizeGroups[size]
      ensures |f.data| == size
    {
      WhereHas(all, Is(Size(), size), f);
    }
    FirstLinksShorter(sizeGroups[size]);
  }

  lemma {:induction false} SameWhere(s: seq<Candidate>, p: Candidate -> bool, q: Candidate -> bool)
    requires forall f :: f in s ==> p(f) == q(f)
    ensures Where(s, p) == Where(s, q)
  {
    if s != [] {
      assert s[|s| - 1] in s && forall x :: x in s[..|s| - 1] ==> x in s;
      SameWhere(s[..|s| - 1], p, q);
    }
  }

  lemma {:induction false} FirstLinksShorter(s: seq<Candidate>)
    ensures |FirstLinks(s)| <= |s|
    ensures forall f :: f in FirstLinks(s) ==> f in s
  {
    if s != [] {
      FirstLinksShorter(s[..|s| - 1]);
      assert s == s[..|s| - 1] + [s[|s| - 1]];
    }
  }

  ghost function OfSizes(sizes: set<nat>): Key -> bool {
    (k: Key) => k.size in sizes
  }

  lemma OneSizeMore(env: Env, all: seq<Candidate>, sizes: set<nat>, rest: set<nat>, size: nat)
    requires rest <= sizes && size in rest
    ensures KeysWhere(env, all, OfSizes(sizes - rest)) + KeysWhere(env, all, OfSize(size)) ==
      KeysWhere(env, all, OfSizes(sizes - (rest - {size})))
    ensures forall k :: k in KeysWhere(env, all, OfSizes(sizes - rest)) ==> !OfSize(size)(k)
  {
    hide Keys;
  }

  lemma SizeKeys(env: Env, all: seq<Candidate>, sizeGroups: map<nat, seq<Candidate>>)
    requires Grouped(all, Size(), sizeGroups)
    ensures KeysWhere(env, all, OfSizes(sizeGroups.Keys)) == Keys(env, all)
  {
    forall k | k in Keys(env, all)
      ensures k.size in sizeGroups
    {
      var f :| f in Kept(env, all) && KeyOf(env, f) == k;
      WhereHas(FirstLinks(all), f => Takes(env, f), f);
      FirstLinksShorter(all);
      assert Size()(f) in sizeGroups;
    }
  }

  /** One size: hard links and unstable files are dropped before anything is hashed. */
  method OneSize(env: Env, candidates: seq<Candidate>, results: seq<Hit>, groupID: nat, ghost sizeGroups: map<nat, seq<Candidate>>,
      ghost all: seq<Candidate>, ghost size: nat, ghost groups: seq<seq<Candidate>>, ghost done: set<Key>)
    returns (hits: seq<Hit>, lastID: nat, ghost found: seq<seq<Candidate>>)
    requires Grouped(all, Size(), sizeGroups) && size in sizeGroups && candidates == sizeGroups[size]
    requires Lists(env, all, groups, done) && results == Numbered(env, groups) && groupID == |groups|
    requires forall k :: k in done ==> !OfSize(size)(k)
    ensures Lists(env, all, found, done + KeysWhere(env, all, OfSize(size)))
    ensures hits == Numbered(env, found) && lastID == |found|
  {
    hide Lists, Numbered, Keys, Where, FirstLinks, Grouped;
    hits, lastID, found := results, groupID, groups;
    SizeGroupIsPart(env, all, sizeGroups, size);
    if |candidates| < 2 {
      TooFew(env, all, groups, done, SizePart(size), OfSize(size));
      return;
    }
    var unique := DropLinks(candidates);
    if |unique| < 2 {
      TooFew(env, all, groups, done, SizePart(size), OfSize(size));
      return;
    }
    var stable := Filter(unique, env.stable);
    hits, lastID, found := ByPrefixHash(env, stable, results, groupID, all, size, groups, done);
  }

  /** The rows are those of groups, each with the files of one key that at least two kept files have. */
  ghost predicate Reports(env: Env, all: seq<Candidate>, results: seq<Hit>) {
    exists groups: seq<seq<Candidate>> :: Lists(env, all, groups, Keys(env, all)) && results == Numbered(env, groups)
  }

  /** The whole search, whatever order the maps are gone through. */
  method FindDuplicates(env: Env, all: seq<Candidate>) returns (results: seq<Hit>)
    ensures Reports(env, all, results)
  {
    hide Lists, Numbered, Keys, Where, FirstLinks, Grouped;
    var sizeGroups := GroupBy(all, Size());
    var groupID, rest := 0, sizeGroups.Keys;
    ghost var groups: seq<seq<Candidate>> := [];
    results := [];
    NothingListed(env, all, sizeGroups.Keys);
    while rest != {}
      invariant rest <= sizeGroups.Keys
      invariant Lists(env, all, groups, KeysWhere(env, all, OfSizes(sizeGroups.Keys - rest)))
      invariant results == Numbered(env, groups) && groupID == |groups|
      decreases rest
    {
      var size :| size in rest;
      OneSizeMore(env, all, sizeGroups.Keys, rest, size);
      results, groupID, groups := OneSize(env, sizeGroups[size], results, groupID, sizeGroups, all, size, groups,
                                          KeysWhere(env, all, OfSizes(sizeGroups.Keys - rest)));
      rest := rest - {size};
    }
    SizeKeys(env, all, sizeGroups);
    assert sizeGroups.Keys - rest == sizeGroups.Keys;
  }

  lemma NothingListed(env: Env, all: seq<Candidate>, sizes: set<nat>)
    ensures Lists(env, all, [], KeysWhere(env, all, OfSizes(sizes - sizes))) && Numbered(env, []) == []
  {
    assert KeysWhere(env, all, OfSizes(sizes - sizes)) == {};
  }

  // ----- What the groups mean -----

  lemma TwoInMembers(env: Env, all: seq<Candidate>, k: Key, f: Candidate, g: Candidate)
    requires f in Members(env, all, k) && g in Members(env, all, k) && f != g
    ensures |Members(env, all, k)| >= 2
  {
    hide Members;
    var m := Members(env, all, k);
    var i :| 0 <= i < |m| && m[i] == f;
    var j :| 0 <= j < |m| && m[j] == g;
  }

  /** With an injective hash, two kept files are in one group exactly when their contents are equal. */
  lemma SharedExactlyWhenEqual(env: Env, all: seq<Candidate>, groups: seq<seq<Candidate>>, f: Candidate, g: Candidate)
    requires Injective(env.hash) && Lists(env, all, groups, Keys(env, all))
    requires f in Kept(env, all) && g in Kept(env, all) && f != g
    ensures (exists i :: 0 <= i < |groups| && f in groups[i] && g in groups[i]) <==> f.data == g.data
  {
    hide Members, Kept;
    if i :| 0 <= i < |groups| && f in groups[i] && g in groups[i] {
      var k := GroupKey(env, all, groups, Keys(env, all), i);
      MembersHave(env, all, k, f);
      MembersHave(env, all, k, g);
      assert env.hash(f.data) == env.hash(g.data);
    }
    if f.data == g.data {
      var k := KeyOf(env, f);
      MembersHave(env, all, k, f);
      MembersHave(env, all, k, g);
      TwoInMembers(env, all, k, f, g);
      assert k in Keys(env, all);
      var i :| 0 <= i < |groups| && groups[i] == Members(env, all, k);
      assert f in groups[i] && g in groups[i];
    }
  }

  lemma GroupsAreDisjoint(env: Env, all: seq<Candidate>, groups: seq<seq<Candidate>>, i: nat, j: nat, f: Candidate)
    requires Lists(env, all, groups, Keys(env, all)) && i < |groups| && j < |groups| && f in groups[i] && f in groups[j]
    ensures i == j && |groups[i]| >= 2 && f in Kept(env, all)
  {
    hide Members, Kept;
    var a := GroupKey(env, all, groups, Keys(env, all), i);
    var b := GroupKey(env, all, groups, Keys(env, all), j);
    MembersHave(env, all, a, f);
    MembersHave(env, all, b, f);
  }

  ghost predicate NoTwoLinks(s: seq<Candidate>) {
    forall i, j :: 0 <= i < j < |s| ==> !SameLink(s[i], s[j])
  }

  lemma {:induction false} FirstLinksHaveNoTwo(s: seq<Candidate>)
    ensures NoTwoLinks(FirstLinks(s))
    ensures forall f :: f in FirstLinks(s) ==> f in s
  {
    if s != [] {
      var init, last := s[..|s| - 1], s[|s| - 1];
      FirstLinksHaveNoTwo(init);
      assert s == init + [last];
      if !Linked(init, last) {
        var u := FirstLinks(init);
        forall i | 0 <= i < |u|
          ensures !SameLink(u[i], last)
        {
          assert u[i] in init;
        }
      }
    }
  }

  lemma {:induction false} WhereHasNoTwo(s: seq<Candidate>, p: Candidate -> bool)
    requires NoTwoLinks(s)
    ensures NoTwoLinks(Where(s, p))
  {
    if s != [] {
      var init, last := s[..|s| - 1], s[|s| - 1];
      WhereHasNoTwo(init, p);
      var w := Where(init, p);
      forall i | 0 <= i < |w|
        ensures !SameLink(w[i], last)
      {
        WhereHas(init, p, w[i]);
        var k :| 0 <= k < |init| && init[k] == w[i];
        assert s[k] == w[i];
      }
    }
  }

  /** No group lists two names of one inode. */
  lemma GroupsRepeatNoInode(env: Env, all: seq<Candidate>, groups: seq<seq<Candidate>>, i: nat, a: nat, b: nat)
    requires Lists(env, all, groups, Keys(env, all)) && i < |groups| && a < b < |groups[i]|
    ensures (groups[i][a].device, groups[i][a].inode) != (groups[i][b].device, groups[i][b].inode)
  {
    hide Where, FirstLinks;
    var k := GroupKey(env, all, groups, Keys(env, all), i);
    FirstLinksHaveNoTwo(all);
    WhereHasNoTwo(FirstLinks(all), f => Takes(env, f));
    WhereHasNoTwo(Kept(env, all), f => KeyOf(env, f) == k);
    MembersHave(env, all, k, groups[i][a]);
    MembersHave(env, all, k, groups[i][b]);
    assert !SameLink(groups[i][a], groups[i][b]);
  }

  lemma {:induction false} NoRepeats<T>(s: seq<T>, x: T)
    requires forall i, j :: 0 <= i < j < |s| ==> s[i] != s[j]
    ensures multiset(s)[x] == if x in s then 1 else 0
  {
    if s != [] {
      var init, last := s[..|s| - 1], s[|s| - 1];
      assert s == init + [last];
      NoRepeats(init, x);
    }
  }

  /** Two searches of the same files report the same groups, numbered in some order. */
  lemma OrderDoesNotMatter(env: Env, all: seq<Candidate>, one: seq<seq<Candidate>>, other: seq<seq<Candidate>>)
    requires Lists(env, all, one, Keys(env, all)) && Lists(env, all, other, Keys(env, all))
    ensures multiset(one) == multiset(other)
  {
    forall g: seq<Candidate>
      ensures multiset(one)[g] == multiset(other)[g]
    {
      SameGroups(env, all, one, other, g);
      SameGroups(env, all, other, one, g);
      NoRepeats(one, g);
      NoRepeats(other, g);
    }
  }

  lemma SameGroups(env: Env, all: seq<Candidate>, one: seq<seq<Candidate>>, other: seq<seq<Candidate>>, g: seq<Candidate>)
    requires Lists(env, all, one, Keys(env, all)) && Lists(env, all, other, Keys(env, all))
    ensures g in one ==> g in other
  {
    hide Members, Keys;
    if g in one {
      var i :| 0 <= i < |one| && one[i] == g;
      var k := GroupKey(env, all, one, Keys(env, all), i);
    }
  }

  // ----- The stored rows and their summary -----

  /** Rows of an earlier run are replaced only by a run that found something. */
  method StoreResults(stored: seq<Hit>, results: seq<Hit>) returns (after: seq<Hit>)
    ensures after == results <==> results != [] || stored == []
    ensures results == [] ==> after == stored
  {
    after := stored;
    if |results| > 0 { after := results; }
  }

  datatype Summary = Summary(groupCount: nat, fileCount: nat, reclaimable: nat)

  /** All rows of a group have one size. */
  ghost predicate Uniform(rows: seq<Hit>) {
    forall i, j :: 0 <= i < |rows| && 0 <= j < |rows| && rows[i].group == rows[j].group ==> rows[i].size == rows[j].size
  }

  function Ids(rows: seq<Hit>): set<nat> {
    set r | r in rows :: r.group
  }

  function HasId(id: nat): Hit -> bool {
    (r: Hit) => r.group == id
  }

  ghost function OtherId(id: nat): Hit -> bool {
    (r: Hit) => r.group != id
  }

  ghost function InIds(ids: set<nat>): Hit -> bool {
    (r: Hit) => r.group in ids
  }

  function BytesOf(rows: seq<Hit>): nat {
    if rows == [] then 0 else BytesOf(rows[..|rows| - 1]) + rows[|rows| - 1].size
  }

  /** The size every row of a group has. */
  ghost function GroupSize(rows: seq<Hit>): nat -> nat {
    (id: nat) => if exists r :: r in rows && r.group == id then (var r :| r in rows && r.group == id; r.size) else 0
  }

  lemma {:induction false} SplitBytes(rows: seq<Hit>, id: nat)
    ensures BytesOf(rows) == BytesOf(Where(rows, HasId(id))) + BytesOf(Where(rows, OtherId(id)))
    ensures |rows| == |Where(rows, HasId(id))| + |Where(rows, OtherId(id))|
  {
    if rows != [] {
      var init, last := rows[..|rows| - 1], rows[|rows| - 1];
      SplitBytes(init, id);
      var a, b := Where(init, HasId(id)), Where(init, OtherId(id));
      assert (a + [last])[..|a|] == a && (b + [last])[..|b|] == b && a + [] == a && b + [] == b;
    }
  }

  lemma {:induction false} EqualBytes(rows: seq<Hit>, size: nat)
    requires forall r :: r in rows ==> r.size == size
    ensures BytesOf(rows) == size * |rows|
  {
    if rows != [] {
      assert rows[|rows| - 1] in rows && forall r :: r in rows[..|rows| - 1] ==> r in rows;
      EqualBytes(rows[..|rows| - 1], size);
      Distribute(size, |rows| - 1);
    }
  }

  lemma Distribute(size: nat, n: nat)
    ensures size * (n + 1) == size * n + size
  {}

  /** One more group is counted. */
  lemma CountGroup(rows: seq<Hit>, done: set<nat>, id: nat)
    requires Uniform(rows) && id in Ids(rows) && id !in done
    ensures var part, was, group := Where(rows, InIds(done + {id})), Where(rows, InIds(done)), Where(rows, HasId(id));
      && BytesOf(part) == BytesOf(was) + GroupSize(rows)(id) * |group| && |part| == |was| + |group|
      && group != [] && (forall r :: r in group ==> r.size == GroupSize(rows)(id))
  {
    hide Where;
    var part := Where(rows, InIds(done + {id}));
    SplitBytes(part, id);
    WhereWhere(rows, InIds(done + {id}), HasId(id), HasId(id));
    WhereWhere(rows, InIds(done + {id}), OtherId(id), InIds(done));
    var group := Where(rows, HasId(id));
    var r0 :| r0 in rows && r0.group == id;
    WhereHas(rows, HasId(id), r0);
    forall r | r in group
      ensures r.size == GroupSize(rows)(id)
    {
      WhereHas(rows, HasId(id), r);
      SameSize(rows, id, r);
    }
    EqualBytes(group, GroupSize(rows)(id));
  }

  lemma SameSize(rows: seq<Hit>, id: nat, r: Hit)
    requires Uniform(rows) && r in rows && r.group == id
    ensures r.size == GroupSize(rows)(id)
  {
    var q :| q in rows && q.group == id && GroupSize(rows)(id) == q.size;
    var i :| 0 <= i < |rows| && rows[i] == r;
    var j :| 0 <= j < |rows| && rows[j] == q;
  }

  lemma {:induction false} WhereAll<T>(s: seq<T>, p: T -> bool)
    requires forall x :: x in s ==> p(x)
    ensures Where(s, p) == s
  {
    if s != [] {
      var init, last := s[..|s| - 1], s[|s| - 1];
      assert last in s && s == init + [last];
      WhereAll(init, p);
    }
  }

  lemma {:induction false} WhereNone<T>(s: seq<T>, p: T -> bool)
    requires forall x :: x in s ==> !p(x)
    ensures Where(s, p) == []
  {
    if s != [] {
      assert s[|s| - 1] in s && forall x :: x in s[..|s| - 1] ==> x in s;
      WhereNone(s[..|s| - 1], p);
    }
  }

  /** The summary after the groups in `done`. */
  ghost predicate SummedUp(rows: seq<Hit>, done: set<nat>, s: Summary) {
    && s.groupCount == |done| && s.fileCount == |Where(rows, InIds(done))|
    && s.reclaimable + SumOver(done, GroupSize(rows)) == BytesOf(Where(rows, InIds(done)))
  }

  function WithGroup(s: Summary, count: nat, size: nat): Summary {
    Summary(s.groupCount + 1, s.fileCount + count, if count > 1 then s.reclaimable + size * (count - 1) else s.reclaimable)
  }

  lemma SummaryStep(rows: seq<Hit>, done: set<nat>, id: nat, s: Summary)
    requires Uniform(rows) && id in Ids(rows) && id !in done && SummedUp(rows, done, s)
    ensures var members := Where(rows, HasId(id));
      members != [] && forall r :: r in members ==> SummedUp(rows, done + {id}, WithGroup(s, |members|, r.size))
  {
    hide Where, BytesOf, GroupSize, SumOver, Uniform;
    CountGroup(rows, done, id);
    var size, count := GroupSize(rows)(id), |Where(rows, HasId(id))|;
    Distribute(size, count - 1);
    SumPick(done + {id}, GroupSize(rows), id);
    assert done + {id} - {id} == done;
  }

  /** The summary, from rows in any order: what could be reclaimed is everything but one file of each group. */
  method Summarize(rows: seq<Hit>) returns (s: Summary)
    requires Uniform(rows)
    ensures s.groupCount == |Ids(rows)| && s.fileCount == |rows|
    ensures s.reclaimable + SumOver(Ids(rows), GroupSize(rows)) == BytesOf(rows)
  {
    hide *;
    s := Summary(0, 0, 0);
    var rest := Ids(rows);
    ghost var done: set<nat> := {};
    SummaryStarts(rows, done);
    while rest != {}
      invariant rest <= Ids(rows) && done == Ids(rows) - rest && SummedUp(rows, done, s)
      decreases rest
    {
      var id :| id in rest;
      s := CountOne(rows, done, id, s);
      rest, done := rest - {id}, done + {id};
    }
    assert done == Ids(rows);
    SummaryEnds(rows, s);
  }

  method CountOne(rows: seq<Hit>, ghost done: set<nat>, id: nat, s: Summary) returns (after: Summary)
    requires Uniform(rows) && id in Ids(rows) && id !in done && SummedUp(rows, done, s)
    ensures SummedUp(rows, done + {id}, after)
  {
    hide *;
    SummaryStep(rows, done, id, s);
    var members := Where(rows, HasId(id));
    assert members[0] in members;
    var r :| r in members;
    after := WithGroup(s, |members|, r.size);
  }

  lemma SummaryEnds(rows: seq<Hit>, s: Summary)
    requires SummedUp(rows, Ids(rows), s)
    ensures s.groupCount == |Ids(rows)| && s.fileCount == |rows|
    ensures s.reclaimable + SumOver(Ids(rows), GroupSize(rows)) == BytesOf(rows)
  {
    WhereAll(rows, InIds(Ids(rows)));
  }

  lemma SummaryStarts(rows: seq<Hit>, none: set<nat>)
    requires none == {}
    ensures SummedUp(rows, none, Summary(0, 0, 0))
  {
    WhereNone(rows, InIds(none));
  }

  // ----- The summary of a search -----

  lemma {:induction false} NumberedHas(env: Env, groups: seq<seq<Candidate>>, h: Hit)
    ensures h in Numbered(env, groups) <==> exists i :: 0 <= i < |groups| && h in HitsOf(env, i + 1, groups[i])
    decreases |groups|
  {
    if groups != [] {
      var n := |groups| - 1;
      NumberedHas(env, groups[..n], h);
      if h in Numbered(env, groups) && h !in HitsOf(env, n + 1, groups[n]) {
        var i :| 0 <= i < n && h in HitsOf(env, i + 1, groups[..n][i]);
        assert h in HitsOf(env, i + 1, groups[i]);
      }
      if i :| 0 <= i < |groups| && h in HitsOf(env, i + 1, groups[i]) {
        if i < n { assert h in HitsOf(env, i + 1, groups[..n][i]); }
      }
    }
  }

  function UpTo(n: nat): (r: set<nat>)
    ensures |r| == n && forall i :: i in r <==> 1 <= i <= n
  {
    if n == 0 then {} else UpTo(n - 1) + {n}
  }

  /** Stored in any order, the rows of a search are uniform, with one id for each distinct content found twice. */
  lemma SearchIsUniform(env: Env, all: seq<Candidate>, groups: seq<seq<Candidate>>, rows: seq<Hit>)
    requires Lists(env, all, groups, Keys(env, all)) && multiset(rows) == multiset(Numbered(env, groups))
    ensures Uniform(rows) && Ids(rows) == UpTo(|groups|) && |Ids(rows)| == |groups|
  {
    hide Members, Numbered, Keys, Lists;
    forall i, j | 0 <= i < |rows| && 0 <= j < |rows| && rows[i].group == rows[j].group
      ensures rows[i].size == rows[j].size
    {
      HitSize(env, all, groups, rows, i);
      HitSize(env, all, groups, rows, j);
    }
    forall id | id in UpTo(|groups|)
      ensures id in Ids(rows)
    {
      IdIsUsed(env, all, groups, rows, id);
    }
    forall id | id in Ids(rows)
      ensures 1 <= id <= |groups|
    {
      var r :| r in rows && r.group == id;
      var i :| 0 <= i < |rows| && rows[i] == r;
      HitSize(env, all, groups, rows, i);
    }
  }

  lemma IdIsUsed(env: Env, all: seq<Candidate>, groups: seq<seq<Candidate>>, rows: seq<Hit>, id: nat)
    requires Lists(env, all, groups, Keys(env, all)) && multiset(rows) == multiset(Numbered(env, groups))
    requires 1 <= id <= |groups|
    ensures id in Ids(rows)
  {
    hide Members, Numbered, Keys;
    var k := GroupKey(env, all, groups, Keys(env, all), id - 1);
    var h := HitsOf(env, id, groups[id - 1])[0];
    assert h in HitsOf(env, id - 1 + 1, groups[id - 1]);
    NumberedHas(env, groups, h);
    assert h in multiset(rows);
  }

  lemma HitSize(env: Env, all: seq<Candidate>, groups: seq<seq<Candidate>>, rows: seq<Hit>, i: nat)
    requires Lists(env, all, groups, Keys(env, all)) && multiset(rows) == multiset(Numbered(env, groups)) && i < |rows|
    ensures 1 <= rows[i].group <= |groups| && groups[rows[i].group - 1] != []
    ensures rows[i].size == |groups[rows[i].group - 1][0].data|
  {
    hide Members, Numbered, Keys;
    var h := rows[i];
    assert h in multiset(rows);
    assert h in Numbered(env, groups);
    NumberedHas(env, groups, h);
    var g :| 0 <= g < |groups| && h in HitsOf(env, g + 1, groups[g]);
    var k := GroupKey(env, all, groups, Keys(env, all), g);
    var n :| 0 <= n < |groups[g]| && h == HitsOf(env, g + 1, groups[g])[n];
    MembersHave(env, all, k, groups[g][n]);
    MembersHave(env, all, k, groups[g][0]);
  }

  /** Two paths appear under one group number. */
  ghost predicate ReportedTogether(results: seq<Hit>, p: Path, q: Path) {
    exists a, b :: a in results && b in results && a.path == p && b.path == q && a.group == b.group
  }

  /** The result table itself: two kept files share a group number exactly when their contents are equal. */
  lemma ReportedTogetherExactly(env: Env, all: seq<Candidate>, results: seq<Hit>, f: Candidate, g: Candidate)
    requires Injective(env.hash) && Reports(env, all, results)
    requires forall a, b :: a in Kept(env, all) && b in Kept(env, all) && a.path == b.path ==> a == b
    requires f in Kept(env, all) && g in Kept(env, all) && f != g
    ensures ReportedTogether(results, f.path, g.path) <==> f.data == g.data
  {
    hide Lists, Numbered, Keys, Kept, Injective;
    var groups :| Lists(env, all, groups, Keys(env, all)) && results == Numbered(env, groups);
    SharedExactlyWhenEqual(env, all, groups, f, g);
    if ReportedTogether(results, f.path, g.path) {
      var a, b :| a in results && b in results && a.path == f.path && b.path == g.path && a.group == b.group;
      HitOfKept(env, all, groups, a, f);
      HitOfKept(env, all, groups, b, g);
    }
    if i :| 0 <= i < |groups| && f in groups[i] && g in groups[i] {
      HitFor(env, groups, i, f);
      HitFor(env, groups, i, g);
    }
  }

  lemma HitOfKept(env: Env, all: seq<Candidate>, groups: seq<seq<Candidate>>, a: Hit, f: Candidate)
    requires Lists(env, all, groups, Keys(env, all)) && a in Numbered(env, groups) && f in Kept(env, all) && a.path == f.path
    requires forall a, b :: a in Kept(env, all) && b in Kept(env, all) && a.path == b.path ==> a == b
    ensures 1 <= a.group <= |groups| && f in groups[a.group - 1]
  {
    hide Lists, Numbered, Keys, Kept;
    NumberedHas(env, groups, a);
    var i :| 0 <= i < |groups| && a in HitsOf(env, i + 1, groups[i]);
    var n :| 0 <= n < |groups[i]| && a == HitsOf(env, i + 1, groups[i])[n];
    GroupsAreDisjoint(env, all, groups, i, i, groups[i][n]);
  }

  lemma HitFor(env: Env, groups: seq<seq<Candidate>>, i: nat, f: Candidate)
    requires i < |groups| && f in groups[i]
    ensures Hit(i + 1, f.path, |f.data|, env.hash(f.data)) in Numbered(env, groups)
  {
    hide Numbered;
    var n :| 0 <= n < |groups[i]| && groups[i][n] == f;
    var h := Hit(i + 1, f.path, |f.data|, env.hash(f.data));
    assert HitsOf(env, i + 1, groups[i])[n] == h;
    NumberedHas(env, groups, h);
  }
}
