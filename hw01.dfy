/** Integer helpers of homework 1: squares, |b| without abs, the two smallest of three,
    the largest proper factor and the hailstone (Collatz) sequence. */
module Hw01 {
  import opened Wrappers

  /** `square`: the square of x, never negative and blind to the sign of x. */
  function Square(x: int): (r: int)
    ensures r >= 0 && (r == 0 <==> x == 0)
  {
    x * x
  }

  /** Reference absolute value, used only to state what `a_plus_abs_b` promises. */
  function Abs(x: int): (r: int)
    ensures r >= 0 && (r == x || r == -x)
  {
    if x < 0 then -x else x
  }

  /** `a_plus_abs_b`: choose subtraction for a negative b and addition otherwise, then apply
      the chosen operator to (a, b). */
  function APlusAbsB(a: int, b: int): (r: int)
    ensures r == a + Abs(b)
  {
    var f: (int, int) -> int := if b < 0 then (x, y) => x - y else (x, y) => x + y;
    f(a, b)
  }

  lemma APlusAbsBExamples()
    ensures APlusAbsB(2, 3) == 5 && APlusAbsB(2, -3) == 5
    ensures APlusAbsB(-1, 4) == 3 && APlusAbsB(-1, -4) == 3
  {
  }

  /** `sorted([i, j, k])`: the three arguments in ascending order. */
  function Sorted3(i: int, j: int, k: int): (s: seq<int>)
    ensures |s| == 3 && s[0] <= s[1] <= s[2]
    ensures IsPermutation3(s, i, j, k)
  {
    if i <= j then
      if j <= k then [i, j, k]
      else if i <= k then [i, k, j]
      else [k, i, j]
    else
      if i <= k then [j, i, k]
      else if j <= k then [j, k, i]
      else [k, j, i]
  }

  /** s lists i, j and k in some order. */
  predicate IsPermutation3(s: seq<int>, i: int, j: int, k: int)
  {
    s == [i, j, k] || s == [i, k, j] || s == [j, i, k] ||
    s == [j, k, i] || s == [k, i, j] || s == [k, j, i]
  }

  function Max3(i: int, j: int, k: int): int
  {
    if i >= j && i >= k then i else if j >= k then j else k
  }

  /** `two_of_three`: sum of the squares of the two smallest arguments. */
  function TwoOfThree(i: int, j: int, k: int): (r: int)
  {
    var s := Sorted3(i, j, k);
    Square(s[0]) + Square(s[1])
  }

  /** Sorting three values gives the same list whatever order they come in. */
  lemma Sorted3Unique(i: int, j: int, k: int)
    ensures Sorted3(i, j, k) == Sorted3(j, i, k) == Sorted3(i, k, j) == Sorted3(k, j, i)
  {
  }

  /** `two_of_three` does not depend on the order of its arguments, and it is the sum of all
      three squares less the square of the largest argument. */
  lemma TwoOfThreeIsSymmetric(i: int, j: int, k: int)
    ensures TwoOfThree(i, j, k) == TwoOfThree(j, i, k) == TwoOfThree(i, k, j)
    ensures TwoOfThree(i, j, k) == TwoOfThree(k, j, i)
    ensures TwoOfThree(i, j, k) == Square(i) + Square(j) + Square(k) - Square(Max3(i, j, k))
  {
    Sorted3Unique(i, j, k);
  }

  lemma TwoOfThreeExamples()
    ensures TwoOfThree(1, 2, 3) == 5 && TwoOfThree(5, 3, 1) == 10
    ensures TwoOfThree(10, 2, 8) == 68 && TwoOfThree(5, 5, 5) == 50
  {
  }

  /** `[x for x in range(1, m) if n % x == 0 and x < n]`: the proper factors of n below m,
      ascending. */
  function FactorsBelow(n: int, m: int): (fs: seq<int>)
    ensures forall x :: x in fs <==> 1 <= x < m && x < n && n % x == 0
    decreases m
  {
    if m <= 1 then []
    else FactorsBelow(n, m - 1) + (if n % (m - 1) == 0 && m - 1 < n then [m - 1] else [])
  }

  /** Each element is smaller than every later one. */
  predicate Ascending(s: seq<int>)
  {
    forall i, j :: 0 <= i < j < |s| ==> s[i] < s[j]
  }

  /** The factors come out in ascending order, as `range` visits them. */
  lemma {:induction false} FactorsBelowAscending(n: int, m: int)
    ensures Ascending(FactorsBelow(n, m))
    decreases m
  {
    if m > 1 {
      FactorsBelowAscending(n, m - 1);
      var prefix := FactorsBelow(n, m - 1);
      if n % (m - 1) == 0 && m - 1 < n {
        var fs := prefix + [m - 1];
        assert FactorsBelow(n, m) == fs;
        forall i, j | 0 <= i < j < |fs|
          ensures fs[i] < fs[j]
        {
          assert fs[i] == prefix[i] && prefix[i] in prefix;
          if j < |prefix| {
            assert fs[j] == prefix[j];
          }
        }
      } else {
        assert FactorsBelow(n, m) == prefix;
      }
    }
  }



  /** Python's `max` over a list: the largest element, or `ValueError` (None) for an empty
      list. */
  function MaxOf(s: seq<int>): (r: Option<int>)
    ensures r.Some? <==> |s| > 0
    ensures r.Some? ==> r.value in s && forall x :: x in s ==> x <= r.value
  {
    if |s| == 0 then None
    else if |s| == 1 then Some(s[0])
    else
      var m := MaxOf(s[1..]).value;
      assert forall x :: x in s[1..] ==> x in s;
      assert forall x :: x in s ==> x == s[0] || x in s[1..];
      Some(if s[0] >= m then s[0] else m)
  }

  /** `largest_factor(n)`: the largest factor of n smaller than n. For n < 2 the list of
      factors is empty and `max` raises `ValueError`, modelled as None. */
  function LargestFactor(n: int): (r: Option<int>)
    ensures r.Some? <==> n >= 2
    ensures r.Some? ==> 1 <= r.value < n && n % r.value == 0
    ensures r.Some? ==> forall y :: r.value < y < n ==> n % y != 0
  {
    var fs := FactorsBelow(n, n + 1);
    assert n >= 2 ==> 1 in fs;
    var r := MaxOf(fs);
    assert r.Some? ==> forall y :: r.value < y < n ==> n % y != 0 by {
      if r.Some? {
        forall y | r.value < y < n
          ensures n % y != 0
        {
          assert n % y == 0 ==> y in fs;
        }
      }
    }
    r
  }

  /** Dividing n by a number above its half leaves the difference: no such number is a
      factor of n. */
  lemma AboveHalf(n: int, y: int)
    requires y < n < 2 * y
    ensures n % y == n - y
  {
  }

  /** A proper factor with no larger proper factor is the one `largest_factor` returns. */
  lemma LargestFactorIs(n: int, d: int)
    requires 1 <= d < n && n % d == 0
    requires forall y :: d < y < n ==> n % y != 0
    ensures LargestFactor(n) == Some(d)
  {
  }

  lemma LargestFactorExamples()
    ensures LargestFactor(15) == Some(5)
    ensures LargestFactor(80) == Some(40)
    ensures LargestFactor(13) == Some(1)
    ensures LargestFactor(1) == None
  {
    forall y | 5 < y < 15
      ensures 15 % y != 0
    {
      if y < 8 {
        assert y == 6 || y == 7;
      } else {
        AboveHalf(15, y);
      }
    }
    LargestFactorIs(15, 5);
    forall y | 40 < y < 80
      ensures 80 % y != 0
    {
      AboveHalf(80, y);
    }
    LargestFactorIs(80, 40);
    forall y | 1 < y < 13
      ensures 13 % y != 0
    {
      if y < 7 {
        assert y == 2 || y == 3 || y == 4 || y == 5 || y == 6;
      } else {
        AboveHalf(13, y);
      }
    }
    LargestFactorIs(13, 1);
  }

  /** One hailstone step: halve an even number, map an odd n to 3n + 1. */
  function Next(n: int): int
  {
    if n % 2 == 0 then n / 2 else 3 * n + 1
  }

  /** The values `hailstone(n)` prints, if the loop stops within `fuel` steps. */
  function HailstoneFrom(n: int, fuel: nat): (r: Option<seq<int>>)
    decreases fuel
  {
    if n <= 1 then Some([n])
    else if fuel == 0 then None
    else Prepend([n], HailstoneFrom(Next(n), fuel - 1))
  }

  function Prepend(p: seq<int>, o: Option<seq<int>>): Option<seq<int>>
  {
    if o.Some? then Some(p + o.value) else None
  }

  lemma PrependNothing(o: Option<seq<int>>)
    ensures Prepend([], o) == o
  {
    if o.Some? { assert [] + o.value == o.value; }
  }

  lemma PrependTwice(p: seq<int>, q: seq<int>, o: Option<seq<int>>)
    ensures Prepend(p, Prepend(q, o)) == Prepend(p + q, o)
  {
    if o.Some? { assert p + (q + o.value) == (p + q) + o.value; }
  }

  /** A complete hailstone run: every value above 1 is followed by its successor, and the
      run stops at the first value that is at most 1. */
  ghost predicate IsRun(s: seq<int>)
  {
    && |s| >= 1
    && s[|s| - 1] <= 1
    && (forall i :: 0 <= i < |s| - 1 ==> s[i] > 1 && s[i + 1] == Next(s[i]))
  }

  /** What the spec function emits is a run starting at n. */
  lemma {:induction false} HailstoneFromIsRun(n: int, fuel: nat)
    requires HailstoneFrom(n, fuel).Some?
    ensures IsRun(HailstoneFrom(n, fuel).value) && HailstoneFrom(n, fuel).value[0] == n
    decreases fuel
  {
    if n > 1 {
      HailstoneFromIsRun(Next(n), fuel - 1);
      var t := HailstoneFrom(Next(n), fuel - 1).value;
      var s := [n] + t;
      assert HailstoneFrom(n, fuel).value == s;
      forall i | 0 <= i < |s| - 1
        ensures s[i] > 1 && s[i + 1] == Next(s[i])
      {
        if i > 0 { assert s[i] == t[i - 1] && s[i + 1] == t[i]; }
      }
    }
  }

  /** Conversely, every run from n is what `hailstone(n)` emits once the fuel covers it. */
  lemma {:induction false} RunIsHailstoneFrom(s: seq<int>, fuel: nat)
    requires IsRun(s) && fuel >= |s| - 1
    ensures HailstoneFrom(s[0], fuel) == Some(s)
    decreases |s|
  {
    if |s| > 1 {
      var t := s[1..];
      assert IsRun(t) by {
        forall i | 0 <= i < |t| - 1
          ensures t[i] > 1 && t[i + 1] == Next(t[i])
        {
          assert t[i] == s[i + 1] && t[i + 1] == s[i + 2];
        }
      }
      RunIsHailstoneFrom(t, fuel - 1);
      assert t[0] == Next(s[0]);
      assert HailstoneFrom(s[0], fuel) == Prepend([s[0]], HailstoneFrom(t[0], fuel - 1));
      assert s == [s[0]] + t;
    } else {
      assert s == [s[0]];
    }
  }

  /** `hailstone(n)`: emit n, then step until the value is at most 1; return how many values
      were emitted. The source loop is unbounded (termination of the Collatz iteration is
      open), so the model stops after `fuel` steps and then returns None. */
  method Hailstone(n: int, fuel: nat) returns (length: Option<nat>, emitted: seq<int>)
    ensures length.Some? <==> HailstoneFrom(n, fuel).Some?
    ensures length.Some? ==> emitted == HailstoneFrom(n, fuel).value && length.value == |emitted|
    ensures emitted != [] && emitted[0] == n
  {
    var cur := n;
    var loopTime := 0;
    emitted := [cur];
    assert emitted[..0] == [];
    PrependNothing(HailstoneFrom(n, fuel));
    while cur > 1 && loopTime < fuel
      invariant 0 <= loopTime <= fuel
      invariant |emitted| == loopTime + 1 && emitted[0] == n && emitted[loopTime] == cur
      invariant HailstoneFrom(n, fuel) == Prepend(emitted[..loopTime], HailstoneFrom(cur, fuel - loopTime))
      decreases fuel - loopTime
    {
      assert HailstoneFrom(cur, fuel - loopTime) == Prepend([cur], HailstoneFrom(Next(cur), fuel - loopTime - 1));
      PrependTwice(emitted[..loopTime], [cur], HailstoneFrom(Next(cur), fuel - loopTime - 1));
      assert emitted[..loopTime + 1] == emitted[..loopTime] + [cur];
      ghost var old_prefix := emitted[..loopTime];
      cur := Next(cur);
      emitted := emitted + [cur];
      assert emitted[..loopTime + 1] == old_prefix + [emitted[loopTime]];
      loopTime := loopTime + 1;
    }
    if cur > 1 {
      length := None;
    } else {
      assert emitted == emitted[..loopTime] + [cur];
      length := Some(loopTime + 1);
    }
  }

  lemma HailstoneExamples()
    ensures HailstoneFrom(10, 6) == Some([10, 5, 16, 8, 4, 2, 1])
    ensures HailstoneFrom(1, 0) == Some([1])
  {
    assert [2] + [1] == [2, 1];
    assert HailstoneFrom(2, 1) == Some([2, 1]);
    assert [4] + [2, 1] == [4, 2, 1];
    assert HailstoneFrom(4, 2) == Some([4, 2, 1]);
    assert [8] + [4, 2, 1] == [8, 4, 2, 1];
    assert HailstoneFrom(8, 3) == Some([8, 4, 2, 1]);
    assert [16] + [8, 4, 2, 1] == [16, 8, 4, 2, 1];
    assert HailstoneFrom(16, 4) == Some([16, 8, 4, 2, 1]);
    assert [5] + [16, 8, 4, 2, 1] == [5, 16, 8, 4, 2, 1];
    assert HailstoneFrom(5, 5) == Some([5, 16, 8, 4, 2, 1]);
    assert [10] + [5, 16, 8, 4, 2, 1] == [10, 5, 16, 8, 4, 2, 1];
    assert HailstoneFrom(10, 6) == Some([10, 5, 16, 8, 4, 2, 1]);
  }
}
