/** Slash-separated paths as strings, and their lexical cleaning. */
module Lexical {
  import opened FileSystem

  /** The parts between slashes; never empty. */
  function Split(s: string): (parts: seq<string>)
    ensures parts != []
    ensures SlashFree(parts)
  {
    if s == [] then [""]
    else if s[|s| - 1] == '/' then Split(s[..|s| - 1]) + [""]
    else
      var parts := Split(s[..|s| - 1]);
      parts[|parts| - 1 := parts[|parts| - 1] + [s[|s| - 1]]]
  }

  function Join(parts: seq<string>): string {
    if parts == [] then ""
    else if |parts| == 1 then parts[0]
    else Join(parts[..|parts| - 1]) + "/" + parts[|parts| - 1]
  }

  predicate SlashFree(parts: seq<string>) {
    forall part :: part in parts ==> '/' !in part
  }

  lemma SplitMore(s: string, c: char)
    requires c != '/'
    ensures var parts := Split(s);
      Split(s + [c]) == parts[|parts| - 1 := parts[|parts| - 1] + [c]]
  {
    assert (s + [c])[..|s|] == s;
  }

  lemma {:induction false} SplitTail(s: string, name: string)
    requires '/' !in name
    ensures Split(s + "/" + name) == Split(s) + [name]
    decreases |name|
  {
    var t := s + "/" + name;
    if name == "" {
      assert t == s + "/" && t[..|t| - 1] == s;
    } else {
      var init, c := name[..|name| - 1], name[|name| - 1];
      assert c in name && init + [c] == name;
      SplitTail(s, init);
      SplitMore(s + "/" + init, c);
      assert t == s + "/" + init + [c];
      assert (Split(s) + [init])[|Split(s)| := name] == Split(s) + [name];
    }
  }

  lemma {:induction false} SplitName(name: string)
    requires '/' !in name
    ensures Split(name) == [name]
  {
    if name != "" {
      var init := name[..|name| - 1];
      assert name[|name| - 1] in name;
      SplitName(init);
      assert init + [name[|name| - 1]] == name;
    }
  }

  /** Splitting undoes joining. */
  lemma {:induction false} SplitJoin(parts: seq<string>)
    requires parts != [] && SlashFree(parts)
    ensures Split(Join(parts)) == parts
  {
    if |parts| == 1 {
      assert parts[0] in parts;
      SplitName(parts[0]);
      assert parts == [parts[0]];
    } else {
      var init, last := parts[..|parts| - 1], parts[|parts| - 1];
      assert last in parts && forall part :: part in init ==> part in parts;
      SplitJoin(init);
      SplitTail(Join(init), last);
      assert parts == init + [last];
    }
  }

  /** What cleaning has kept after one more part. */
  function Step(out: seq<string>, part: string, rooted: bool): seq<string> {
    if part == "" || part == "." then out
    else if part == ".." then
      if out != [] && out[|out| - 1] != ".." then out[..|out| - 1]
      else if rooted then out
      else out + [".."]
    else out + [part]
  }

  function Reduce(parts: seq<string>, rooted: bool): seq<string> {
    if parts == [] then [] else Step(Reduce(parts[..|parts| - 1], rooted), parts[|parts| - 1], rooted)
  }

  predicate IsAbs(s: string) {
    s != "" && s[0] == '/'
  }

  /** The shortest path lexically equal to `s`. */
  function Clean(s: string): string {
    var out := Reduce(Split(s), IsAbs(s));
    if IsAbs(s) then "/" + Join(out) else if out == [] then "." else Join(out)
  }

  /** A part that names an entry. */
  predicate IsName(part: string) {
    part != "" && part != "." && part != ".." && '/' !in part
  }

  predicate AllNames(parts: seq<string>) {
    forall i :: 0 <= i < |parts| ==> IsName(parts[i])
  }

  /** Some steps up, then names. */
  ghost predicate UpsThenNames(out: seq<string>, ups: nat) {
    ups <= |out| && (forall i :: 0 <= i < ups ==> out[i] == "..") && AllNames(out[ups..])
  }

  /** How deep the parts lead, and the least depth on the way. */
  function Depth(parts: seq<string>): int {
    if parts == [] then 0
    else
      var d := Depth(parts[..|parts| - 1]);
      var part := parts[|parts| - 1];
      if part == "" || part == "." then d else if part == ".." then d - 1 else d + 1
  }

  function LeastDepth(parts: seq<string>): (d: int)
    ensures d <= 0
  {
    if parts == [] then 0
    else
      var least := LeastDepth(parts[..|parts| - 1]);
      if Depth(parts) < least then Depth(parts) else least
  }

  lemma {:induction false} LeastDepthIsLeast(parts: seq<string>)
    ensures LeastDepth(parts) >= 0 <==> forall i :: 0 <= i <= |parts| ==> Depth(parts[..i]) >= 0
  {
    if parts != [] {
      var init := parts[..|parts| - 1];
      LeastDepthIsLeast(init);
      forall i | 0 <= i <= |init|
        ensures parts[..i] == init[..i]
      {}
      assert parts[..|parts|] == parts;
      assert LeastDepth(parts) >= 0 ==> LeastDepth(init) >= 0;
      if forall i :: 0 <= i <= |parts| ==> Depth(parts[..i]) >= 0 {
        assert forall i :: 0 <= i <= |init| ==> Depth(init[..i]) >= 0;
        assert Depth(parts[..|parts|]) >= 0;
      }
      if LeastDepth(parts) >= 0 {
        forall i | 0 <= i <= |parts|
          ensures Depth(parts[..i]) >= 0
        {
          if i <= |init| { assert parts[..i] == init[..i]; }
        }
      }
    }
  }

  lemma StepShape(out: seq<string>, ups: nat, part: string)
    requires UpsThenNames(out, ups) && '/' !in part
    ensures var after := Step(out, part, false);
      if part == "" || part == "." then after == out
      else if part != ".." then UpsThenNames(after, ups) && |after| == |out| + 1
      else if |out| > ups then UpsThenNames(after, ups) && |after| == |out| - 1
      else UpsThenNames(after, ups + 1) && |after| == |out| + 1
  {
    var after := Step(out, part, false);
    if part == ".." && |out| > ups {
      assert out[ups..][|out| - 1 - ups] == out[|out| - 1];
      assert after[ups..] == out[ups..][..|out| - 1 - ups];
    } else if part == ".." {
      assert after[ups + 1..] == [];
    } else if part != "" && part != "." {
      assert after[ups..] == out[ups..] + [part];
    }
  }

  /** Cleaning a relative path leaves as many steps up as the path ever went above its start, then names. */
  lemma {:induction false} ReduceShape(parts: seq<string>)
    requires SlashFree(parts)
    ensures LeastDepth(parts) <= Depth(parts)
    ensures UpsThenNames(Reduce(parts, false), -LeastDepth(parts))
    ensures |Reduce(parts, false)| == Depth(parts) - 2 * LeastDepth(parts)
    ensures LeastDepth(parts) == 0 ==> AllNames(Reduce(parts, false))
  {
    hide UpsThenNames, Step, AllNames;
    if parts == [] {
      NothingIsNames();
    } else {
      var init, part := parts[..|parts| - 1], parts[|parts| - 1];
      assert part in parts && forall p :: p in init ==> p in parts;
      ReduceShape(init);
      StepShape(Reduce(init, false), -LeastDepth(init), part);
      if LeastDepth(parts) == 0 { NoUps(Reduce(parts, false)); }
    }
  }

  lemma NothingIsNames()
    ensures UpsThenNames([], 0) && AllNames([])
  {}

  lemma NoUps(out: seq<string>)
    requires UpsThenNames(out, 0)
    ensures AllNames(out)
  {
    assert out[0..] == out;
  }

  /** Cleaning an absolute path leaves names only. */
  lemma {:induction false} ReduceRooted(parts: seq<string>)
    requires SlashFree(parts)
    ensures AllNames(Reduce(parts, true))
  {
    if parts != [] {
      var init, part := parts[..|parts| - 1], parts[|parts| - 1];
      assert part in parts && forall p :: p in init ==> p in parts;
      ReduceRooted(init);
    }
  }

  /** The place a path leads to, taken part by part from `start`: up is up, wherever one is. */
  function Target(start: Path, parts: seq<string>): Path {
    if parts == [] then start
    else
      var p := Target(start, parts[..|parts| - 1]);
      var part := parts[|parts| - 1];
      if part == "" || part == "." then p else if part == ".." then Parent(p) else p + [part]
  }

  /** Cleaning an absolute path gives the place it leads to from the root, which is its own parent. */
  lemma {:induction false} RootedLeadsThere(parts: seq<string>)
    requires SlashFree(parts)
    ensures Reduce(parts, true) == Target([], parts)
    ensures AllNames(Target([], parts))
  {
    ReduceRooted(parts);
    if parts != [] {
      var init := parts[..|parts| - 1];
      assert forall p :: p in init ==> p in parts;
      RootedLeadsThere(init);
      assert Target([], init) != [] ==> IsName(Target([], init)[|Target([], init)| - 1]);
    }
  }

  lemma {:induction false} TargetThrough(start: Path, a: seq<string>, b: seq<string>)
    ensures Target(start, a + b) == Target(Target(start, a), b)
  {
    if b == [] {
      assert a + b == a;
    } else {
      assert (a + b)[..|a + b| - 1] == a + b[..|b| - 1];
      TargetThrough(start, a, b[..|b| - 1]);
    }
  }

  lemma {:induction false} TargetOfNames(start: Path, names: seq<string>)
    requires AllNames(names)
    ensures Target(start, names) == start + names
  {
    if names == [] {
      assert start + [] == start;
    } else {
      var init := names[..|names| - 1];
      assert IsName(names[|names| - 1]);
      assert AllNames(init) by {
        forall i | 0 <= i < |init| ensures IsName(init[i]) { assert init[i] == names[i]; }
      }
      TargetOfNames(start, init);
      assert names == init + [names[|names| - 1]];
    }
  }

  /** Names are already clean. */
  lemma {:induction false} ReduceNames(parts: seq<string>, rooted: bool)
    requires AllNames(parts)
    ensures Reduce(parts, rooted) == parts
  {
    if parts != [] {
      var init := parts[..|parts| - 1];
      assert IsName(parts[|parts| - 1]);
      forall i | 0 <= i < |init| ensures IsName(init[i]) { assert init[i] == parts[i]; }
      ReduceNames(init, rooted);
      assert parts == init + [parts[|parts| - 1]];
    }
  }

  lemma {:induction false} ReduceSkipsEmpty(parts: seq<string>, rooted: bool)
    ensures Reduce([""] + parts, rooted) == Reduce(parts, rooted)
  {
    if parts == [] {
      assert [""] + parts == [""];
      assert Reduce([""][..0], rooted) == [];
    } else {
      var init := parts[..|parts| - 1];
      ReduceSkipsEmpty(init, rooted);
      assert ([""] + parts)[..|parts|] == [""] + init;
    }
  }

  lemma {:induction false} SplitAbs(s: string)
    ensures Split("/" + s) == [""] + Split(s)
  {
    var t := "/" + s;
    if s == "" {
      assert t[..0] == "" && Split("") == [""];
    } else {
      assert t[..|t| - 1] == "/" + s[..|s| - 1];
      SplitAbs(s[..|s| - 1]);
    }
  }

  /** Cleaning twice is cleaning once. */
  lemma CleanTwice(s: string)
    ensures Clean(Clean(s)) == Clean(s)
  {
    var parts := Split(s);
    var out := Reduce(parts, IsAbs(s));
    if IsAbs(s) {
      ReduceRooted(parts);
      NamesAreSlashFree(out);
      SplitAbs(Join(out));
      ReduceSkipsEmpty(Split(Join(out)), true);
      ReduceNames(out, true);
      if out == [] {
        assert Split("") == [""];
        ReduceSkipsEmpty([], true);
        assert [""] + [] == [""];
      } else {
        SplitJoin(out);
      }
    } else {
      ReduceShape(parts);
      RelativeIsClean(out, -LeastDepth(parts));
    }
  }

  lemma NamesAreSlashFree(parts: seq<string>)
    requires AllNames(parts)
    ensures SlashFree(parts)
  {
    forall part | part in parts
      ensures '/' !in part
    {
      var i :| 0 <= i < |parts| && parts[i] == part;
      assert IsName(parts[i]);
    }
  }

  lemma UpsAreSlashFree(out: seq<string>, ups: nat)
    requires UpsThenNames(out, ups)
    ensures SlashFree(out)
    ensures forall i :: 0 <= i < |out| ==> out[i] != "" && out[i] != "." && (out[i] == ".." <==> i < ups)
  {
    forall i | 0 <= i < |out|
      ensures '/' !in out[i] && out[i] != "" && out[i] != "." && (out[i] == ".." <==> i < ups)
    {
      if i >= ups { assert IsName(out[ups..][i - ups]); }
    }
  }

  lemma {:induction false} ReduceUps(out: seq<string>, ups: nat)
    requires UpsThenNames(out, ups)
    ensures Reduce(out, false) == out
  {
    UpsAreSlashFree(out, ups);
    if out != [] {
      var init, last := out[..|out| - 1], out[|out| - 1];
      if ups == |out| {
        assert UpsThenNames(init, ups - 1) by { assert init[ups - 1..] == []; }
        ReduceUps(init, ups - 1);
      } else {
        assert UpsThenNames(init, ups) by {
          assert init[ups..] == out[ups..][..|out| - 1 - ups];
        }
        ReduceUps(init, ups);
      }
      assert out == init + [last];
    }
  }

  lemma RelativeIsClean(out: seq<string>, ups: nat)
    requires UpsThenNames(out, ups)
    ensures Clean(if out == [] then "." else Join(out)) == if out == [] then "." else Join(out)
    ensures !IsAbs(if out == [] then "." else Join(out))
  {
    UpsAreSlashFree(out, ups);
    if out == [] {
      SplitName(".");
      assert Reduce(["."], false) == [] by { assert ["."][..0] == []; assert Reduce([], false) == []; }
    } else {
      SplitJoin(out);
      ReduceUps(out, ups);
      JoinStarts(out);
    }
  }

  lemma {:induction false} JoinStarts(parts: seq<string>)
    requires parts != []
    ensures parts[0] <= Join(parts)
    ensures |parts| > 1 ==> parts[0] + "/" <= Join(parts)
    ensures |parts| == 1 ==> Join(parts) == parts[0]
  {
    if |parts| > 1 { JoinStarts(parts[..|parts| - 1]); }
  }
}
