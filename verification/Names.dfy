/** The search for a free name beside an existing entry: `report.txt`, `report (1).txt`, `report (2).txt`, ... */
module Names {
  import opened FileSystem

  datatype Option<+T> = None | Some(value: T)

  const MAX_CANDIDATES: nat := 1000

  function Digit(d: nat): char
    requires d < 10
  {
    "0123456789"[d]
  }

  /** Decimal printing of a natural number. */
  function Decimal(n: nat): (s: string)
    ensures |s| >= 1
    ensures |s| == 1 <==> n < 10
  {
    if n < 10 then [Digit(n)] else Decimal(n / 10) + [Digit(n % 10)]
  }

  lemma DigitInjective(a: nat, b: nat)
    requires a < 10 && b < 10 && Digit(a) == Digit(b)
    ensures a == b
  {}

  lemma {:induction false} DecimalInjective(a: nat, b: nat)
    requires Decimal(a) == Decimal(b)
    ensures a == b
    decreases a
  {
    var s, t := Decimal(a), Decimal(b);
    assert s[|s| - 1] == Digit(a % 10) && t[|t| - 1] == Digit(b % 10);
    DigitInjective(a % 10, b % 10);
    if a >= 10 {
      assert s[..|s| - 1] == Decimal(a / 10) && t[..|t| - 1] == Decimal(b / 10);
      DecimalInjective(a / 10, b / 10);
    }
  }

  /** Where the extension of a name starts: at its last dot, or at its end. */
  function ExtensionStart(name: string): (k: nat)
    ensures k <= |name|
    ensures k < |name| ==> name[k] == '.'
    ensures forall i :: k < i < |name| ==> name[i] != '.'
    ensures k == |name| ==> '.' !in name
  {
    if name == [] then 0
    else if name[|name| - 1] == '.' then |name| - 1
    else
      var k := ExtensionStart(name[..|name| - 1]);
      if k < |name| - 1 then k else |name|
  }

  function CandidateName(name: string, i: nat): string {
    var k := ExtensionStart(name);
    name[..k] + " (" + Decimal(i) + ")" + name[k..]
  }

  /** The `i`-th name tried for `path`, in the same directory. */
  function Candidate(path: Path, i: nat): Path
    requires path != []
  {
    Parent(path) + [CandidateName(path[|path| - 1], i)]
  }

  lemma CandidatesDistinct(path: Path, i: nat, j: nat)
    requires path != [] && Candidate(path, i) == Candidate(path, j)
    ensures i == j
  {
    hide *;
    NumberInName(path, i);
    NumberInName(path, j);
    DecimalInjective(i, j);
  }

  lemma NumberInName(path: Path, i: nat)
    requires path != []
    ensures |Candidate(path, i)| == |path|
    ensures
      var name := Candidate(path, i)[|path| - 1];
      var k := ExtensionStart(path[|path| - 1]) + 2;
      var digits := |name| - |path[|path| - 1]| - 3;
      0 <= digits && k + digits <= |name| && name[k..k + digits] == Decimal(i)
  {
    hide Decimal, ExtensionStart;
    var name := path[|path| - 1];
    var k := ExtensionStart(name);
    var a := CandidateName(name, i);
    assert Candidate(path, i)[|path| - 1] == a;
    assert a[k + 2..k + 2 + |Decimal(i)|] == Decimal(i);
  }

  lemma CandidateShape(path: Path, i: nat)
    requires path != []
    ensures |Candidate(path, i)| == |path| && Parent(Candidate(path, i)) == Parent(path)
    ensures Candidate(path, i) != path
    ensures ' ' in Candidate(path, i)[|path| - 1]
  {
    var name := path[|path| - 1];
    var k := ExtensionStart(name);
    assert CandidateName(name, i)[k] == ' ';
    assert |CandidateName(name, i)| > |name|;
  }

  /** What the search answers: `path` if it is free, else its free candidate with the least index, if any. */
  ghost predicate NextFree(fs: Tree, path: Path, r: Option<Path>)
    requires path != []
  {
    if path !in fs then r == Some(path)
    else match r
      case None => forall i :: 1 <= i <= MAX_CANDIDATES ==> Candidate(path, i) in fs
      case Some(p) =>
        exists i :: 1 <= i <= MAX_CANDIDATES && p == Candidate(path, i) && p !in fs
          && forall j :: 1 <= j < i ==> Candidate(path, j) in fs
  }

  /** There is only one answer. */
  lemma OneAnswer(fs: Tree, path: Path, a: Option<Path>, b: Option<Path>)
    requires path != [] && NextFree(fs, path, a) && NextFree(fs, path, b)
    ensures a == b
  {
    hide Candidate;
  }

  method NextAvailablePath(fs: Tree, path: Path) returns (r: Option<Path>)
    requires path != []
    ensures NextFree(fs, path, r)
  {
    if path !in fs { return Some(path); }
    var i := 1;
    while i <= MAX_CANDIDATES
      invariant 1 <= i <= MAX_CANDIDATES + 1
      invariant forall j :: 1 <= j < i ==> Candidate(path, j) in fs
    {
      var candidate := Candidate(path, i);
      if candidate !in fs { return Some(candidate); }
      i := i + 1;
    }
    return None;
  }

  /** `path` and its first `n` candidates. */
  function FirstNames(path: Path, n: nat): set<Path>
    requires path != []
  {
    if n == 0 then {path} else FirstNames(path, n - 1) + {Candidate(path, n)}
  }

  lemma {:induction false} FirstNamesAre(path: Path, n: nat, p: Path)
    requires path != []
    ensures p in FirstNames(path, n) <==> p == path || exists i :: 1 <= i <= n && p == Candidate(path, i)
  {
    if n > 0 {
      FirstNamesAre(path, n - 1, p);
    }
  }

  lemma {:induction false} NotAmong(path: Path, m: nat, n: nat)
    requires path != [] && m < n
    ensures Candidate(path, n) !in FirstNames(path, m)
    decreases m
  {
    hide Candidate;
    CandidateShape(path, n);
    if m > 0 {
      NotAmong(path, m - 1, n);
      if Candidate(path, n) == Candidate(path, m) { CandidatesDistinct(path, n, m); }
    }
  }

  lemma {:induction false} FirstNamesDistinct(path: Path, n: nat)
    requires path != []
    ensures |FirstNames(path, n)| == n + 1
  {
    hide Candidate;
    if n > 0 {
      FirstNamesDistinct(path, n - 1);
      NotAmong(path, n - 1, n);
    }
  }

  /** The search fails only in a directory with more than a thousand entries. */
  lemma SearchSucceedsInSmallDirectories(fs: Tree, path: Path, r: Option<Path>, entries: set<Path>)
    requires path != [] && NextFree(fs, path, r)
    requires forall q :: q in entries <==> q in fs && q != [] && Parent(q) == Parent(path)
    requires |entries| <= MAX_CANDIDATES
    ensures r.Some? && r.value !in fs && r.value != [] && Parent(r.value) == Parent(path)
    ensures path !in fs <==> r == Some(path)
  {
    if path in fs && r.None? {
      var names := FirstNames(path, MAX_CANDIDATES);
      FirstNamesDistinct(path, MAX_CANDIDATES);
      forall p | p in names
        ensures p in entries
      {
        FirstNamesAre(path, MAX_CANDIDATES, p);
        if p != path {
          var i :| 1 <= i <= MAX_CANDIDATES && p == Candidate(path, i);
          CandidateShape(path, i);
        }
      }
      SubsetSize(names, entries);
      assert false;
    }
    if path in fs {
      var i :| 1 <= i <= MAX_CANDIDATES && r.value == Candidate(path, i);
      CandidateShape(path, i);
    }
  }

  lemma {:induction false} SubsetSize<T>(a: set<T>, b: set<T>)
    requires a <= b
    ensures |a| <= |b|
  {
    if a != {} {
      var x :| x in a;
      SubsetSize(a - {x}, b - {x});
    }
  }
}
