/** Sums over finite sets and over sequences. */
module Sums {
  ghost function SumOver<T(!new)>(s: set<T>, w: T -> nat): nat {
    if s == {} then 0 else
      var x :| x in s;
      w(x) + SumOver(s - {x}, w)
  }

  /** Any element may be taken out first. */
  lemma {:induction false} SumPick<T(!new)>(s: set<T>, w: T -> nat, x: T)
    requires x in s
    ensures SumOver(s, w) == w(x) + SumOver(s - {x}, w)
    decreases s
  {
    var y :| y in s && SumOver(s, w) == w(y) + SumOver(s - {y}, w);
    if y != x {
      SumPick(s - {y}, w, x);
      SumPick(s - {x}, w, y);
      assert s - {y} - {x} == s - {x} - {y};
    }
  }

  lemma {:induction false} SumUnion<T(!new)>(a: set<T>, b: set<T>, w: T -> nat)
    requires a !! b
    ensures SumOver(a + b, w) == SumOver(a, w) + SumOver(b, w)
    decreases a
  {
    if a == {} {
      assert a + b == b;
    } else {
      var x :| x in a;
      SumPick(a, w, x);
      SumPick(a + b, w, x);
      assert a + b - {x} == (a - {x}) + b;
      SumUnion(a - {x}, b, w);
    }
  }

  lemma {:induction false} SumSame<T(!new)>(s: set<T>, v: T -> nat, w: T -> nat)
    requires forall x :: x in s ==> v(x) == w(x)
    ensures SumOver(s, v) == SumOver(s, w)
    decreases s
  {
    if s != {} {
      var x :| x in s;
      SumPick(s, v, x);
      SumPick(s, w, x);
      SumSame(s - {x}, v, w);
    }
  }

  /** The sum over a sequence of numbers. */
  function Total(s: seq<nat>): nat {
    if s == [] then 0 else Total(s[..|s| - 1]) + s[|s| - 1]
  }

  lemma {:induction false} TotalAppend(a: seq<nat>, b: seq<nat>)
    ensures Total(a + b) == Total(a) + Total(b)
  {
    if b == [] {
      assert a + b == a;
    } else {
      assert (a + b)[..|a + b| - 1] == a + b[..|b| - 1];
      TotalAppend(a, b[..|b| - 1]);
    }
  }
}
