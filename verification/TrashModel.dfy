/**
 Where a trashed entry, its trash copy, its restore copy and its metadata lie, and what each step of a move, a copy
 or a removal leaves of them.
 */
module TrashModel {
  import opened FileSystem
  import opened Volumes
  import opened Copies

  const TRASH_DIR := ".volum-trash"

  datatype Places = Places(original: Path, trash: Path, temp: Path, meta: Path)

  function TrashRoot(root: Path): Path {
    root + [TRASH_DIR]
  }

  function FilesDir(root: Path): Path {
    TrashRoot(root) + ["files"]
  }

  function MetaDir(root: Path): Path {
    TrashRoot(root) + ["meta"]
  }

  function PlacesOf(root: Path, original: Path, id: string): Places
    requires original != []
  {
    Places(original,
           FilesDir(root) + [id + "-" + original[|original| - 1]],
           Parent(original) + [TEMP_DIR, "restore-" + id],
           MetaDir(root) + [id + ".json"])
  }

  predicate Separate(w: Places) {
    && w.original != [] && w.trash != [] && w.temp != [] && w.meta != []
    && Apart(w.original, w.trash) && Apart(w.original, w.temp) && Apart(w.original, w.meta)
    && Apart(w.trash, w.temp) && Apart(w.trash, w.meta) && Apart(w.temp, w.meta)
  }

  lemma DifferAt(a: Path, b: Path, i: nat)
    requires i < |a| && i < |b| && a[i] != b[i]
    ensures Apart(a, b)
  {}

  /** The four places keep out of each other's way unless the entry is a root or lies in the trash itself. */
  lemma PlacesAreSeparate(root: Path, original: Path, id: string)
    requires root <= original && root != original && !(TrashRoot(root) <= original)
    requires original[|original| - 1] != TEMP_DIR
    ensures Separate(PlacesOf(root, original, id))
  {
    var w, n, last := PlacesOf(root, original, id), |root|, |original| - 1;
    assert original[..n + 1] == root + [original[n]];
    assert original[n] == TRASH_DIR ==> TrashRoot(root) <= original;
    assert w.trash[n] == TRASH_DIR && w.meta[n] == TRASH_DIR;
    assert w.trash[n + 1] == "files" && w.meta[n + 1] == "meta";
    assert w.temp[last] == TEMP_DIR;
    assert w.temp[n] == if n < last then original[n] else TEMP_DIR;
    DifferAt(w.original, w.trash, n);
    DifferAt(w.original, w.meta, n);
    DifferAt(w.original, w.temp, last);
    DifferAt(w.trash, w.temp, n);
    DifferAt(w.temp, w.meta, n);
    DifferAt(w.trash, w.meta, n + 1);
  }

  // ----- What is stored where -----

  ghost predicate Whole(fs: Tree, p: Path, k: Tree) {
    p in fs && Content(fs, p) == k
  }

  /** Trashing loses nothing: the original or the trash copy has all of `k`. */
  ghost predicate Kept(fs: Tree, w: Places, k: Tree) {
    Holds(fs, w.original, k) || Holds(fs, w.trash, k)
  }

  ghost predicate InTrash(fs: Tree, w: Places, k: Tree) {
    Whole(fs, w.trash, k) && w.original !in fs
  }

  ghost predicate InTemp(fs: Tree, w: Places, k: Tree) {
    w.trash !in fs && Whole(fs, w.temp, k) && w.original !in fs
  }

  ghost predicate Back(fs: Tree, w: Places, k: Tree) {
    w.trash !in fs && w.temp !in fs && Whole(fs, w.original, k)
  }

  /**
   Between restores: all of `k` is in the trash, or in the temporary copy with the trash gone, or back at its place
   with both gone.
   */
  ghost predicate Resting(fs: Tree, w: Places, k: Tree) {
    InTrash(fs, w, k) || InTemp(fs, w, k) || Back(fs, w, k)
  }

  /** What a crash inside the removal of the trash copy leaves: the temporary copy is whole, the trash copy is not. */
  ghost predicate Torn(fs: Tree, w: Places, k: Tree) {
    Whole(fs, w.temp, k) && w.original !in fs && w.trash in fs && Content(fs, w.trash) != k
  }

  /** Two trees agree at and below `p`. */
  ghost predicate SameUnder(a: Tree, b: Tree, p: Path) {
    forall q :: p <= q ==> (q in a <==> q in b) && (q in a ==> a[q] == b[q])
  }

  lemma SameUnderSameContent(a: Tree, b: Tree, p: Path)
    requires SameUnder(a, b, p)
    ensures Content(a, p) == Content(b, p) && Under(a, p) == Under(b, p) && (p in a <==> p in b)
    ensures forall k {:trigger Holds(b, p, k)} :: Holds(a, p, k) <==> Holds(b, p, k)
    ensures forall k {:trigger Whole(b, p, k)} :: Whole(a, p, k) <==> Whole(b, p, k)
  {
    var c, d := Content(a, p), Content(b, p);
    forall rel: Path {:trigger rel in c}
      ensures rel in c <==> rel in d
      ensures rel in c ==> c[rel] == d[rel]
    {
      assert p <= p + rel;
    }
    assert c.Keys == d.Keys;
    forall k {:trigger Holds(b, p, k)}
      ensures Holds(a, p, k) <==> Holds(b, p, k)
    {
      SameUnderHolds(a, b, p, k);
    }
  }

  lemma SameUnderHolds(a: Tree, b: Tree, p: Path, k: Tree)
    requires SameUnder(a, b, p)
    ensures Holds(a, p, k) <==> Holds(b, p, k)
  {
    forall rel {:trigger rel in k} | rel in k
      ensures p + rel in a && a[p + rel] == k[rel] <==> p + rel in b && b[p + rel] == k[rel]
    {
      assert p <= p + rel;
    }
  }

  lemma WholeHolds(fs: Tree, p: Path, k: Tree)
    requires Content(fs, p) == k
    ensures Holds(fs, p, k)
  {}

  /** The original, the trash copy and the temporary copy are as they were. */
  ghost predicate Steady(a: Tree, b: Tree, w: Places) {
    SameUnder(a, b, w.original) && SameUnder(a, b, w.trash) && SameUnder(a, b, w.temp)
  }

  lemma SteadyRests(a: Tree, b: Tree, w: Places, k: Tree)
    requires Steady(a, b, w)
    ensures InTrash(a, w, k) <==> InTrash(b, w, k)
    ensures InTemp(a, w, k) <==> InTemp(b, w, k)
    ensures Back(a, w, k) <==> Back(b, w, k)
    ensures w.original in a <==> w.original in b
    ensures w.trash in a <==> w.trash in b
    ensures w.temp in a <==> w.temp in b
  {
    SameUnderSameContent(a, b, w.original);
    SameUnderSameContent(a, b, w.trash);
    SameUnderSameContent(a, b, w.temp);
  }

  /** The files outside the four places are the same. */
  ghost predicate OnlyHere(a: Tree, b: Tree, w: Places) {
    forall q :: !(w.original <= q) && !(w.trash <= q) && !(w.temp <= q) && !(w.meta <= q) ==>
      (IsFile(a, q) <==> IsFile(b, q)) && (IsFile(a, q) ==> a[q] == b[q])
  }

  lemma OnlyHereTransitive(a: Tree, b: Tree, c: Tree, w: Places)
    requires OnlyHere(a, b, w) && OnlyHere(b, c, w)
    ensures OnlyHere(a, c, w)
  {}

  lemma GrownElsewhere(a: Tree, b: Tree, p: Path, w: Places)
    requires Grown(a, b, p)
    ensures OnlyHere(a, b, w)
    ensures forall x {:trigger SameUnder(a, b, x)} :: !(x <= p) ==> SameUnder(a, b, x)
  {}

  lemma AddedElsewhere(a: Tree, b: Tree, dst: Path, w: Places)
    requires Added(a, b, dst) && dst in {w.original, w.trash, w.temp, w.meta}
    ensures OnlyHere(a, b, w)
    ensures forall x {:trigger SameUnder(a, b, x)} :: Apart(x, dst) ==> SameUnder(a, b, x)
  {
    forall x: Path, q | Apart(x, dst) && x <= q && q in b
      ensures q in a
    {
      assert dst <= q ==> x <= dst || dst <= x;
    }
  }

  lemma PrunedElsewhere(a: Tree, b: Tree, p: Path, w: Places)
    requires Pruned(a, b, p) && p in {w.original, w.trash, w.temp, w.meta}
    ensures OnlyHere(a, b, w)
    ensures forall x {:trigger SameUnder(a, b, x)} :: Apart(x, p) ==> SameUnder(a, b, x)
  {
    forall x: Path, q | Apart(x, p) && x <= q && q in a
      ensures q in b
    {
      assert p <= q ==> x <= p || p <= x;
    }
  }

  lemma MovedElsewhere(a: Tree, src: Path, dst: Path, w: Places)
    requires Movable(a, src, dst)
    requires src in {w.original, w.trash, w.temp} && dst in {w.original, w.trash, w.temp}
    ensures OnlyHere(a, Moved(a, src, dst), w)
  {
    hide Moved;
    MovedSpec(a, src, dst);
    AbsentHasNothingUnder(a, dst);
    assert forall q :: dst <= q ==> q !in a || q in Under(a, dst);
  }

  lemma MovedSameUnder(a: Tree, src: Path, dst: Path, x: Path)
    requires Movable(a, src, dst) && Apart(x, src) && Apart(x, dst)
    ensures SameUnder(a, Moved(a, src, dst), x)
  {
    hide Moved;
    MovedSpec(a, src, dst);
    forall q | x <= q
      ensures q in a <==> q in Moved(a, src, dst)
      ensures q in a ==> a[q] == Moved(a, src, dst)[q]
    {
      assert src <= q ==> x <= src || src <= x;
      assert dst <= q ==> x <= dst || dst <= x;
    }
  }

  lemma MovedWhole(a: Tree, src: Path, dst: Path)
    requires Movable(a, src, dst)
    ensures Whole(Moved(a, src, dst), dst, Content(a, src))
    ensures Under(Moved(a, src, dst), src) == {} && src !in Moved(a, src, dst)
  {
    hide Moved;
    MovedSpec(a, src, dst);
    MovedContent(a, src, dst);
    MovedLeavesNothing(a, src, dst);
    var b := Moved(a, src, dst);
    assert src in b ==> src in Under(b, src);
    assert dst[|dst|..] == [] && src + [] == src;
  }

  /** A removal that was cut short took nothing of a single entry, or all of it. */
  lemma PrunedSingle(a: Tree, b: Tree, p: Path, k: Tree)
    requires Pruned(a, b, p) && Whole(a, p, k) && WellFormed(a) && WellFormed(b)
    ensures |k| == 1 && p in b ==> Content(b, p) == k
  {
    if |k| == 1 && p in b {
      assert p + [] == p;
      assert [] in k;
      SingletonMap(k, []);
      var c := Content(b, p);
      assert [] in c;
      forall rel {:trigger rel in c} | rel in c
        ensures rel in k && c[rel] == k[rel]
      {
        assert p + rel in a;
      }
    }
  }

  lemma SingletonMap(k: Tree, x: Path)
    requires x in k && |k| == 1
    ensures forall y :: y in k ==> y == x
  {
    assert |k.Keys - {x}| == 0;
  }

  /** The tree with nothing left below `t`. */
  function Emptied(fs: Tree, t: Path): Tree {
    map q | q in fs && (q == t || !(t <= q)) :: fs[q]
  }

  lemma EmptiedIsPruned(fs: Tree, t: Path)
    requires WellFormed(fs) && IsDir(fs, t)
    ensures WellFormed(Emptied(fs, t)) && Pruned(fs, Emptied(fs, t), t)
    ensures Content(Emptied(fs, t), t) == map[[] := Dir] && t in Emptied(fs, t)
  {
    var after := Emptied(fs, t);
    forall q {:trigger Parent(q)} | q in after && q != []
      ensures Parent(q) in after && after[Parent(q)] == Dir
    {
      assert t <= Parent(q) ==> t <= q;
    }
    var c := Content(after, t);
    assert t + [] == t;
    forall rel {:trigger rel in c} | rel in c
      ensures rel == []
    {
      assert t <= t + rel;
    }
  }

  /** For every directory with entries there is a point in its removal that leaves less than the whole, and the next restore takes that for the whole. */
  lemma RemovalHasATornMiddle(fs: Tree, w: Places, k: Tree) returns (after: Tree)
    requires WellFormed(fs) && Separate(w) && Whole(fs, w.trash, k) && Whole(fs, w.temp, k) && w.original !in fs && |k| > 1
    ensures WellFormed(after) && Pruned(fs, after, w.trash) && Torn(after, w, k) && !Resting(after, w, k)
    ensures Resting(after, w, map[[] := Dir])
  {
    hide Emptied, Content;
    if fs[w.trash].File? { OneEntry(fs, w.trash); }
    after := Emptied(fs, w.trash);
    EmptiedIsPruned(fs, w.trash);
    PrunedElsewhere(fs, after, w.trash, w);
    assert SameUnder(fs, after, w.temp);
    SameUnderSameContent(fs, after, w.temp);
    var one: Tree := map[[] := Dir];
    assert |one| == 1;
  }

  /**
   For every directory with entries that has been copied across devices there is a point at which the removal of the
   original may fail; the metadata is then dropped, with the trash copy whole and the original not.
   */
  lemma FailedRemovalOrphans(fs: Tree, w: Places, k: Tree) returns (failed: Tree, after: Tree)
    requires WellFormed(fs) && Separate(w) && Whole(fs, w.original, k) && Whole(fs, w.trash, k) && IsFile(fs, w.meta) && |k| > 1
    ensures Pruned(fs, failed, w.original) && UnlinkErr(failed, w.meta) == Ok && after == failed - {w.meta}
    ensures WellFormed(after) && Whole(after, w.trash, k) && w.meta !in after
    ensures w.original in after && !Whole(after, w.original, k)
  {
    hide Emptied, Content;
    if fs[w.original].File? { OneEntry(fs, w.original); }
    failed := Emptied(fs, w.original);
    EmptiedIsPruned(fs, w.original);
    PrunedElsewhere(fs, failed, w.original, w);
    assert SameUnder(fs, failed, w.trash) && SameUnder(fs, failed, w.meta);
    assert w.meta <= w.meta && IsFile(failed, w.meta);
    FileIsLeaf(failed, w.meta);
    UnlinkKeepsWellFormed(failed, w.meta);
    after := failed - {w.meta};
    WithoutMeta(failed, after, w);
    SameUnderSameContent(fs, failed, w.trash);
    SameUnderSameContent(failed, after, w.trash);
    SameUnderSameContent(failed, after, w.original);
    var one: Tree := map[[] := Dir];
    assert |one| == 1;
  }

  lemma WithoutMeta(fs: Tree, after: Tree, w: Places)
    requires Separate(w) && after == fs - {w.meta}
    ensures SameUnder(fs, after, w.trash) && SameUnder(fs, after, w.original)
  {}

  /** From such a state the next copy finds its way exactly if no file of the original is left: one that is left is in the trash too. */
  lemma LeftFilesBlock(fs: Tree, w: Places, k: Tree)
    requires WellFormed(fs) && Whole(fs, w.trash, k)
    requires forall p :: p in fs && w.original <= p ==> p[|w.original|..] in k && fs[p] == k[p[|w.original|..]]
    ensures Mergeable(fs, w.original, w.trash) <==> forall p :: IsFile(fs, p) ==> !(w.original <= p)
  {
    forall p | p in fs && w.original <= p
      ensures FitsAt(fs, w.original, w.trash, p) <==> fs[p] == Dir
    {
      var t := w.trash + p[|w.original|..];
      assert p[|w.original|..] in Content(fs, w.trash);
      assert t in fs && fs[t] == fs[p];
      forall i | 0 <= i <= |t| && fs[t] == Dir
        ensures !IsFile(fs, t[..i])
      {
        AncestorIsDir(fs, t[..i], t);
      }
    }
    forall p | IsFile(fs, p) && w.original <= p
      ensures !Mergeable(fs, w.original, w.trash)
    {
      MisfitBlocks(fs, w.original, w.trash, p);
    }
    if forall p :: IsFile(fs, p) ==> !(w.original <= p) {
      forall p | p in fs && w.original <= p
        ensures FitsAt(fs, w.original, w.trash, p)
      {
        assert !IsFile(fs, p);
      }
    }
  }
}
