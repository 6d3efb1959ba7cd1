/** Longest common subsequences: the recursion of the table, and that it is the longest. */
module Subsequences {

  function Max(a: nat, b: nat): nat {
    if a > b then a else b
  }

  function Init<T>(s: seq<T>): seq<T>
    requires s != []
  {
    s[..|s| - 1]
  }

  function Last<T>(s: seq<T>): T
    requires s != []
  {
    s[|s| - 1]
  }

  /** The length of a longest common subsequence. */
  function LCS<T(==)>(a: seq<T>, b: seq<T>): nat
    decreases |a| + |b|
  {
    if a == [] || b == [] then 0
    else if Last(a) == Last(b) then LCS(Init(a), Init(b)) + 1
    else Max(LCS(Init(a), b), LCS(a, Init(b)))
  }

  /** `s` is what remains of `a` when some elements are left out. */
  ghost predicate IsSubsequence<T>(s: seq<T>, a: seq<T>)
    decreases |a|
  {
    s == [] || (a != [] && (IsSubsequence(s, Init(a)) || (Last(s) == Last(a) && IsSubsequence(Init(s), Init(a)))))
  }

  /** Leaving out a last element costs at most one. */
  lemma {:induction false} LastCostsAtMostOne<T>(a: seq<T>, b: seq<T>)
    ensures a != [] ==> LCS(Init(a), b) <= LCS(a, b) <= LCS(Init(a), b) + 1
    ensures b != [] ==> LCS(a, Init(b)) <= LCS(a, b) <= LCS(a, Init(b)) + 1
    decreases |a| + |b|
  {
    if a != [] && b != [] {
      LastCostsAtMostOne(Init(a), b);
      LastCostsAtMostOne(a, Init(b));
    }
  }

  lemma {:induction false} CommonIsNoLonger<T>(s: seq<T>, a: seq<T>, b: seq<T>)
    requires IsSubsequence(s, a) && IsSubsequence(s, b)
    ensures |s| <= LCS(a, b)
    decreases |a| + |b|
  {
    if s != [] {
      LastCostsAtMostOne(a, b);
      if IsSubsequence(s, Init(a)) {
        CommonIsNoLonger(s, Init(a), b);
      } else if IsSubsequence(s, Init(b)) {
        CommonIsNoLonger(s, a, Init(b));
      } else {
        CommonIsNoLonger(Init(s), Init(a), Init(b));
      }
    }
  }

  lemma {:induction false} CommonOfThatLength<T>(a: seq<T>, b: seq<T>) returns (s: seq<T>)
    ensures IsSubsequence(s, a) && IsSubsequence(s, b) && |s| == LCS(a, b)
    decreases |a| + |b|
  {
    if a == [] || b == [] {
      s := [];
    } else if Last(a) == Last(b) {
      s := CommonOfThatLength(Init(a), Init(b));
      s := s + [Last(a)];
      assert Init(s) + [Last(s)] == s;
    } else if LCS(Init(a), b) > LCS(a, Init(b)) {
      s := CommonOfThatLength(Init(a), b);
    } else {
      s := CommonOfThatLength(a, Init(b));
    }
  }

  /** `LCS` is the length of a longest common subsequence. */
  lemma LcsIsLongest<T>(a: seq<T>, b: seq<T>)
    ensures exists s :: IsSubsequence(s, a) && IsSubsequence(s, b) && |s| == LCS(a, b)
    ensures forall s :: IsSubsequence(s, a) && IsSubsequence(s, b) ==> |s| <= LCS(a, b)
  {
    var s := CommonOfThatLength(a, b);
    forall t | IsSubsequence(t, a) && IsSubsequence(t, b)
      ensures |t| <= LCS(a, b)
    {
      CommonIsNoLonger(t, a, b);
    }
  }

  function Without<T>(s: seq<T>, i: nat): seq<T>
    requires i < |s|
  {
    s[..i] + s[i + 1..]
  }

  /** Leaving out any one element costs at most one. */
  lemma {:induction false} AnyCostsAtMostOne<T>(a: seq<T>, i: nat, b: seq<T>)
    requires i < |a|
    ensures LCS(Without(a, i), b) <= LCS(a, b) <= LCS(Without(a, i), b) + 1
    decreases |a| + |b|
  {
    if i == |a| - 1 {
      assert Without(a, i) == Init(a);
      LastCostsAtMostOne(a, b);
    } else if b != [] {
      var c := Without(a, i);
      assert Last(c) == Last(a) && Init(c) == Without(Init(a), i);
      AnyCostsAtMostOne(Init(a), i, b);
      AnyCostsAtMostOne(a, i, Init(b));
      AnyCostsAtMostOne(Init(a), i, Init(b));
    }
  }

  lemma {:induction false} CommonFirst<T>(x: T, a: seq<T>, b: seq<T>)
    ensures LCS([x] + a, [x] + b) == LCS(a, b) + 1
    decreases |a| + |b|
  {
    var c, d := [x] + a, [x] + b;
    if a != [] {
      assert Init(c) == [x] + Init(a);
    }
    if b != [] {
      assert Init(d) == [x] + Init(b);
    }
    if a == [] && b == [] {
      assert Init(c) == [];
    } else if a == [] {
      assert Init(c) == [] && LCS(Init(c), d) == 0 && LCS(Init(c), Init(d)) == 0;
      CommonFirst(x, a, Init(b));
    } else if b == [] {
      assert Init(d) == [] && LCS(c, Init(d)) == 0 && LCS(Init(c), Init(d)) == 0;
      CommonFirst(x, Init(a), b);
    } else {
      CommonFirst(x, Init(a), b);
      CommonFirst(x, a, Init(b));
      CommonFirst(x, Init(a), Init(b));
    }
  }

  /** A common prefix is part of every longest common subsequence. */
  lemma {:induction false} CommonPrefixCounts<T>(p: seq<T>, a: seq<T>, b: seq<T>)
    ensures LCS(p + a, p + b) == LCS(a, b) + |p|
    decreases |p|
  {
    if p == [] {
      assert p + a == a && p + b == b;
    } else {
      CommonPrefixCounts(p[1..], a, b);
      assert p + a == [p[0]] + (p[1..] + a) && p + b == [p[0]] + (p[1..] + b);
      CommonFirst(p[0], p[1..] + a, p[1..] + b);
    }
  }

  lemma {:induction false} CommonSuffixCounts<T>(a: seq<T>, b: seq<T>, s: seq<T>)
    ensures LCS(a + s, b + s) == LCS(a, b) + |s|
    decreases |s|
  {
    if s == [] {
      assert a + s == a && b + s == b;
    } else {
      CommonSuffixCounts(a, b, Init(s));
      assert Init(a + s) == a + Init(s) && Init(b + s) == b + Init(s);
    }
  }

  /** The number of insertions and deletions between two sequences, when as much as possible is kept. */
  function Distance<T(==)>(a: seq<T>, b: seq<T>): int {
    |a| + |b| - 2 * LCS(a, b)
  }

  lemma {:induction false} NothingBetweenEquals<T>(a: seq<T>)
    ensures LCS(a, a) == |a| && Distance(a, a) == 0
  {
    if a != [] {
      NothingBetweenEquals(Init(a));
    }
  }
}
