/**
 The file tree the server works on, and the mutation primitives it uses. A path
 is a list of names; a tree maps each existing path to a directory or to a file
 with its bytes. Symbolic links are not part of the model.
 */
module FileSystem {
  newtype byte = x: int | 0 <= x < 256
  type Bytes = seq<byte>
  type Path = seq<string>

  datatype Node = Dir | File(data: Bytes)
  type Tree = map<Path, Node>

  datatype Errno = Ok | NotExist | Exists | NotDir | NotEmpty | CrossDevice | Invalid | Fault | Crashed

  function Parent(p: Path): Path {
    if p == [] then [] else p[..|p| - 1]
  }

  /** The name of the directories that hold temporary files. */
  const TEMP_DIR := ".volum-tmp"

  /** Neither path leads through the other. */
  predicate Apart(a: Path, b: Path) {
    !(a <= b) && !(b <= a)
  }

  /** The root is a directory, and so is the parent of everything that exists. */
  ghost predicate WellFormed(fs: Tree) {
    && [] in fs && fs[[]] == Dir
    && forall p {:trigger Parent(p)} :: p in fs && p != [] ==> Parent(p) in fs && fs[Parent(p)] == Dir
  }

  /** Everything at or below `p`. */
  function Under(fs: Tree, p: Path): set<Path> {
    set q | q in fs && p <= q
  }

  predicate IsFile(fs: Tree, p: Path) {
    p in fs && fs[p].File?
  }

  predicate IsDir(fs: Tree, p: Path) {
    p in fs && fs[p] == Dir
  }

  /** Some step on the way to `p`, or `p` itself, is a file. */
  predicate FileOnPath(fs: Tree, p: Path) {
    exists i :: 0 <= i <= |p| && IsFile(fs, p[..i])
  }

  /** Asking for `p` is an error, not just the answer that nothing is there: a file is on the way. */
  predicate Obstructed(fs: Tree, p: Path) {
    p !in fs && FileOnPath(fs, Parent(p))
  }

  lemma {:induction false} AncestorIsDir(fs: Tree, q: Path, p: Path)
    requires WellFormed(fs) && p in fs && q <= p
    ensures q in fs
    ensures q != p ==> fs[q] == Dir
    decreases |p|
  {
    if q != p {
      assert q <= Parent(p);
      AncestorIsDir(fs, q, Parent(p));
    }
  }

  lemma FileIsLeaf(fs: Tree, p: Path)
    requires WellFormed(fs) && IsFile(fs, p)
    ensures Under(fs, p) == {p}
  {
    forall q | q in fs && p <= q
      ensures q == p
    {
      AncestorIsDir(fs, p, q);
    }
  }

  lemma BelowIsUnder(fs: Tree, d: Path, q: Path)
    requires q in fs && d <= q
    ensures Under(fs, d) != {}
  {
    assert q in Under(fs, d);
  }

  lemma AbsentHasNothingUnder(fs: Tree, p: Path)
    requires WellFormed(fs) && p !in fs
    ensures Under(fs, p) == {}
  {
    forall q | q in fs && p <= q
      ensures false
    {
      AncestorIsDir(fs, p, q);
    }
  }

  /** What a step may do when every pre-existing entry is kept and only directories on the way to `p` are added. */
  ghost predicate Grown(before: Tree, after: Tree, p: Path) {
    && (forall q :: q in before ==> q in after && after[q] == before[q])
    && (forall q :: q in after && q !in before ==> after[q] == Dir && q <= p)
  }

  /** What a removal below `p`, finished or not, may do. */
  ghost predicate Pruned(before: Tree, after: Tree, p: Path) {
    && (forall q :: q in after ==> q in before && after[q] == before[q])
    && (forall q :: q in before && !(p <= q) ==> q in after)
  }

  // ----- The primitives: what the kernel answers, and the tree it leaves on success -----

  function CreateErr(fs: Tree, p: Path): Errno {
    if p in fs then Exists
    else if Parent(p) !in fs then NotExist
    else if fs[Parent(p)].File? then NotDir
    else Ok
  }

  function UnlinkErr(fs: Tree, p: Path): Errno {
    if p !in fs then NotExist
    else if p == [] then Invalid
    else if Under(fs, p) != {p} then NotEmpty
    else Ok
  }

  function RenameErr(fs: Tree, src: Path, dst: Path, sameDevice: bool): Errno {
    if src !in fs || Parent(dst) !in fs then NotExist
    else if !sameDevice then CrossDevice
    else if fs[Parent(dst)].File? then NotDir
    else if dst in fs then Exists
    else if src <= dst then Invalid
    else Ok
  }

  /** The subtree at `p`, with paths relative to `p`: what is stored there. */
  function Content(fs: Tree, p: Path): (c: Tree)
    ensures forall rel {:trigger rel in c} :: rel in c <==> p + rel in fs
    ensures forall rel {:trigger c[rel]} :: rel in c ==> c[rel] == fs[p + rel]
  {
    assert forall q :: q in fs && p <= q ==> p + q[|p|..] == q;
    assert forall rel: Path {:trigger p + rel} :: p + rel in fs ==> (p + rel)[|p|..] == rel;
    map rel | rel in (set q | q in fs && p <= q :: q[|p|..]) :: fs[p + rel]
  }

  /** The tree after the subtree at `src` has moved to `dst`. */
  function Moved(fs: Tree, src: Path, dst: Path): Tree {
    var c := Content(fs, src);
    (map q | q in fs && !(src <= q) :: fs[q]) +
    (map q | q in (set rel | rel in c :: dst + rel) :: if q[|dst|..] in c then c[q[|dst|..]] else Dir)
  }

  lemma MovedSpec(fs: Tree, src: Path, dst: Path)
    requires WellFormed(fs) && src in fs && dst !in fs && !(src <= dst)
    ensures forall q :: q in Moved(fs, src, dst) <==> (q in fs && !(src <= q)) || (dst <= q && src + q[|dst|..] in fs)
    ensures forall q :: q in Moved(fs, src, dst) && dst <= q ==>
      src + q[|dst|..] in fs && Moved(fs, src, dst)[q] == fs[src + q[|dst|..]]
    ensures forall q :: q in Moved(fs, src, dst) && !(dst <= q) ==> q in fs && Moved(fs, src, dst)[q] == fs[q]
  {
    var c, m := Content(fs, src), Moved(fs, src, dst);
    AbsentHasNothingUnder(fs, dst);
    forall q | dst <= q && q[|dst|..] in c
      ensures q in m && m[q] == fs[src + q[|dst|..]]
    {
      assert q == dst + q[|dst|..];
    }
    forall q | q in m && !(q in fs && !(src <= q))
      ensures dst <= q && src + q[|dst|..] in fs
    {
      var rel :| rel in c && q == dst + rel;
      assert q[|dst|..] == rel;
    }
    forall q | q in m && dst <= q
      ensures src + q[|dst|..] in fs && m[q] == fs[src + q[|dst|..]]
    {
      assert q !in Under(fs, dst);
    }
  }

  /** A rename the kernel grants: the destination is free, its parent is a directory, and it is not below the source. */
  ghost predicate Movable(fs: Tree, src: Path, dst: Path) {
    WellFormed(fs) && src in fs && dst !in fs && !(src <= dst) && src != [] && IsDir(fs, Parent(dst))
  }

  lemma MovedKeepsWellFormed(fs: Tree, src: Path, dst: Path)
    requires Movable(fs, src, dst)
    ensures WellFormed(Moved(fs, src, dst))
  {
    MovedSpec(fs, src, dst);
    var m := Moved(fs, src, dst);
    assert !(dst <= []) && !(src <= []);
    forall p {:trigger Parent(p)} | p in m && p != []
      ensures Parent(p) in m && m[Parent(p)] == Dir
    {
      MovedParent(fs, src, dst, p);
    }
  }

  lemma MovedParent(fs: Tree, src: Path, dst: Path, p: Path)
    requires Movable(fs, src, dst) && p in Moved(fs, src, dst) && p != []
    ensures IsDir(Moved(fs, src, dst), Parent(p))
  {
    MovedSpec(fs, src, dst);
    if dst <= p && p != dst {
      var rel := p[|dst|..];
      assert Parent(src + rel) == src + rel[..|rel| - 1];
      assert dst <= Parent(p) && Parent(p)[|dst|..] == rel[..|rel| - 1];
    } else {
      var q := Parent(p);
      assert q <= p && q in fs && fs[q] == Dir;
      assert src <= q ==> src <= p;
      assert dst <= q ==> dst <= p;
    }
  }

  lemma MovedContent(fs: Tree, src: Path, dst: Path)
    requires Movable(fs, src, dst)
    ensures Content(Moved(fs, src, dst), dst) == Content(fs, src)
  {
    MovedSpec(fs, src, dst);
    AbsentHasNothingUnder(fs, dst);
    var m := Moved(fs, src, dst);
    var a, b := Content(m, dst), Content(fs, src);
    forall rel: Path
      ensures rel in a <==> rel in b
    {
      var q := dst + rel;
      assert q[|dst|..] == rel && dst <= q && q !in Under(fs, dst);
      assert rel in a <==> q in m;
    }
    forall rel | rel in a
      ensures a[rel] == b[rel]
    {
      var q := dst + rel;
      assert q[|dst|..] == rel && dst <= q && a[rel] == m[q];
    }
  }

  lemma MovedLeavesNothing(fs: Tree, src: Path, dst: Path)
    requires Movable(fs, src, dst)
    ensures Under(Moved(fs, src, dst), src) == {}
  {
    MovedSpec(fs, src, dst);
    forall q | q in Moved(fs, src, dst) && src <= q
      ensures false
    {
      assert dst <= q;
      assert dst <= src || src <= dst;
      AncestorIsDir(fs, dst, src);
    }
  }

  /** Moving a file touches two paths only. */
  lemma MovedFile(fs: Tree, src: Path, dst: Path)
    requires WellFormed(fs) && IsFile(fs, src) && dst !in fs && !(src <= dst)
    ensures Moved(fs, src, dst) == (fs - {src})[dst := fs[src]]
  {
    hide Moved, Content;
    MovedSpec(fs, src, dst);
    var m, e := Moved(fs, src, dst), (fs - {src})[dst := fs[src]];
    forall q
      ensures q in m <==> q in e
    {
      MovedFileAt(fs, src, dst, q);
    }
    forall q | q in m
      ensures m[q] == e[q]
    {
      MovedFileAt(fs, src, dst, q);
    }
  }

  lemma MovedFileAt(fs: Tree, src: Path, dst: Path, q: Path)
    requires WellFormed(fs) && IsFile(fs, src) && dst !in fs && !(src <= dst)
    ensures q in fs && src <= q ==> q == src
    ensures dst <= q && src + q[|dst|..] in fs ==> q == dst
    ensures src + dst[|dst|..] == src
    ensures dst <= q ==> q !in fs
  {
    FileIsLeaf(fs, src);
    AbsentHasNothingUnder(fs, dst);
    assert q in fs && src <= q ==> q in Under(fs, src);
    assert q in fs && dst <= q ==> q in Under(fs, dst);
    if dst <= q && src + q[|dst|..] in fs {
      assert src + q[|dst|..] in Under(fs, src);
      assert q == dst + q[|dst|..];
      assert |q[|dst|..]| == 0;
    }
  }

  function OpenErr(fs: Tree, p: Path): Errno {
    if IsFile(fs, p) then Ok else if p in fs then Invalid else CreateErr(fs, p)
  }

  function Opened(fs: Tree, p: Path, truncate: bool): Tree {
    if IsFile(fs, p) && !truncate then fs else fs[p := File([])]
  }

  lemma WriteKeepsWellFormed(fs: Tree, p: Path, node: Node)
    requires WellFormed(fs) && node.File? && OpenErr(fs, p) == Ok
    ensures WellFormed(fs[p := node])
  {
    if IsFile(fs, p) {
      forall q {:trigger Parent(q)} | q in fs && q != []
        ensures Parent(q) != p
      {}
    }
  }

  /** `data` after `block` is written at `offset`; a gap before it reads as zeros. */
  function Splice(data: Bytes, offset: nat, block: Bytes): Bytes {
    if block == [] then data
    else
      (if offset <= |data| then data[..offset] else data + seq(offset - |data|, _ => 0)) + block +
      (if offset + |block| < |data| then data[offset + |block|..] else [])
  }

  /** Writing the next part of `whole` over a prefix of it leaves a prefix. */
  lemma SpliceOfPrefix(whole: Bytes, had: nat, offset: nat, n: nat)
    requires offset <= had <= |whole| && offset + n <= |whole|
    ensures Splice(whole[..had], offset, whole[offset..offset + n]) == whole[..if had > offset + n then had else offset + n]
  {
    var block := whole[offset..offset + n];
    if block != [] && offset + n < had {
      assert whole[..had][offset + n..] == whole[offset + n..had];
    }
  }

  /** The size check is enough: a prefix that has the size of the whole is the whole. */
  lemma PrefixOfFullSize(a: Bytes, b: Bytes)
    requires a <= b && |a| == |b|
    ensures a == b
  {
    assert b[..|a|] == b;
  }

  lemma CreateKeepsWellFormed(fs: Tree, p: Path, node: Node)
    requires WellFormed(fs)
    ensures CreateErr(fs, p) == Ok ==> WellFormed(fs[p := node])
  {}

  lemma UnlinkKeepsWellFormed(fs: Tree, p: Path)
    requires WellFormed(fs) && UnlinkErr(fs, p) == Ok
    ensures WellFormed(fs - {p})
  {
    forall q {:trigger Parent(q)} | q in fs - {p} && q != []
      ensures Parent(q) != p
    {
      assert q !in Under(fs, p);
    }
  }
}
