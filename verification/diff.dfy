/** The difference of two arrays through the full table (filesystem/DiffTools.go:78-274). */
module Diff {
  import opened Wrappers
  import opened Subsequences

  /** An entry of an edit script. */
  datatype DifferenceEntry<T> = DifferenceEntry(position: int, character: T, isInsertion: bool)

  // ----- trimming -----

  function CommonPrefix<T(==)>(old_: seq<T>, new_: seq<T>, k: nat): (p: nat)
    ensures k <= p
    decreases |old_| - k
  {
    if k < |old_| && k < |new_| && old_[k] == new_[k] then CommonPrefix(old_, new_, k + 1) else k
  }

  function CommonSuffix<T(==)>(old_: seq<T>, new_: seq<T>, prefix: nat, k: nat): (s: nat)
    ensures k <= s
    decreases |old_| - k
  {
    if k < |old_| - prefix && k < |new_| - prefix && old_[|old_| - 1 - k] == new_[|new_| - 1 - k]
    then CommonSuffix(old_, new_, prefix, k + 1) else k
  }

  /** `p` and `s` are the lengths of a common prefix and, behind it, a common suffix; neither can be longer. */
  ghost predicate IsTrim<T>(a: seq<T>, b: seq<T>, p: nat, s: nat) {
    && p + s <= |a| && p + s <= |b|
    && a[..p] == b[..p] && a[|a| - s..] == b[|b| - s..]
    && (p < |a| && p < |b| ==> a[p] != b[p])
    && (p + s < |a| && p + s < |b| ==> a[|a| - 1 - s] != b[|b| - 1 - s])
  }

  method DiffTrim<T(==)>(a: seq<T>, b: seq<T>) returns (x: seq<T>, y: seq<T>, offset: nat)
    ensures offset == CommonPrefix(a, b, 0)
    ensures var s := CommonSuffix(a, b, offset, 0);
            IsTrim(a, b, offset, s) && x == a[offset..|a| - s] && y == b[offset..|b| - s]
  {
    var prefixLen: nat := 0;
    while prefixLen < |a| && prefixLen < |b| && a[prefixLen] == b[prefixLen]
      invariant prefixLen <= |a| && prefixLen <= |b|
      invariant CommonPrefix(a, b, prefixLen) == CommonPrefix(a, b, 0)
    {
      prefixLen := prefixLen + 1;
    }
    var suffixLen: nat := 0;
    while suffixLen < |a| - prefixLen && suffixLen < |b| - prefixLen && a[|a| - 1 - suffixLen] == b[|b| - 1 - suffixLen]
      invariant prefixLen + suffixLen <= |a| && prefixLen + suffixLen <= |b|
      invariant CommonSuffix(a, b, prefixLen, suffixLen) == CommonSuffix(a, b, prefixLen, 0)
    {
      suffixLen := suffixLen + 1;
    }
    CommonIsTrim(a, b);
    return a[prefixLen..|a| - suffixLen], b[prefixLen..|b| - suffixLen], prefixLen;
  }

  lemma CommonIsTrim<T>(a: seq<T>, b: seq<T>)
    ensures var p := CommonPrefix(a, b, 0); IsTrim(a, b, p, CommonSuffix(a, b, p, 0))
  {
    PrefixIsCommon(a, b, 0);
    var p := CommonPrefix(a, b, 0);
    SuffixIsCommon(a, b, p, 0);
    hide CommonPrefix, CommonSuffix;
    PrefixStops(a, b, 0);
    SuffixStops(a, b, p, 0);
  }

  lemma {:induction false} PrefixStops<T>(a: seq<T>, b: seq<T>, k: nat)
    ensures var p := CommonPrefix(a, b, k); p < |a| && p < |b| ==> a[p] != b[p]
    decreases |a| - k
  {
    if k < |a| && k < |b| && a[k] == b[k] {
      PrefixStops(a, b, k + 1);
    }
  }

  lemma {:induction false} SuffixStops<T>(a: seq<T>, b: seq<T>, p: nat, k: nat)
    ensures var s := CommonSuffix(a, b, p, k); p + s < |a| && p + s < |b| ==> a[|a| - 1 - s] != b[|b| - 1 - s]
    decreases |a| - k
  {
    if k < |a| - p && k < |b| - p && a[|a| - 1 - k] == b[|b| - 1 - k] {
      SuffixStops(a, b, p, k + 1);
    }
  }

  /** Trimming loses nothing: what is cut off belongs to every longest common subsequence. */
  lemma TrimKeepsOptimality<T>(a: seq<T>, b: seq<T>, p: nat, s: nat)
    requires IsTrim(a, b, p, s)
    ensures LCS(a, b) == p + LCS(a[p..|a| - s], b[p..|b| - s]) + s
    ensures Distance(a, b) == Distance(a[p..|a| - s], b[p..|b| - s])
  {
    hide LCS;
    var x, y := a[p..|a| - s], b[p..|b| - s];
    var suffix := a[|a| - s..];
    ThreeParts(a, p, s);
    ThreeParts(b, p, s);
    CommonPrefixCounts(a[..p], x + suffix, y + suffix);
    CommonSuffixCounts(x, y, suffix);
  }

  lemma ThreeParts<T>(a: seq<T>, p: nat, s: nat)
    requires p + s <= |a|
    ensures a == a[..p] + (a[p..|a| - s] + a[|a| - s..])
  {
  }

  // ----- the table -----

  /** The table entry at row `y` and column `x`; rows and columns before the first are zero. */
  function Cell<T(==)>(a: seq<T>, b: seq<T>, y: int, x: int): nat
    requires -1 <= y < |b| && -1 <= x < |a|
  {
    LCS(a[..x + 1], b[..y + 1])
  }

  lemma CellStep<T>(a: seq<T>, b: seq<T>, y: nat, x: nat)
    requires y < |b| && x < |a|
    ensures Cell(a, b, y, x) == if a[x] == b[y] then Cell(a, b, y - 1, x - 1) + 1
                                else Max(Cell(a, b, y, x - 1), Cell(a, b, y - 1, x))
    ensures Cell(a, b, -1, x) == 0 && Cell(a, b, y, -1) == 0
  {
    assert Init(a[..x + 1]) == a[..x] && Init(b[..y + 1]) == b[..y];
  }

  method FillMatrix<T(==)>(a: seq<T>, b: seq<T>) returns (matrix: array2<nat>)
    ensures fresh(matrix) && matrix.Length0 == |b| && matrix.Length1 == |a|
    ensures forall i, j :: 0 <= i < |b| && 0 <= j < |a| ==> matrix[i, j] == Cell(a, b, i, j)
  {
    matrix := new nat[|b|, |a|]((_, _) => 0);
    for y := 0 to |b|
      invariant forall i, j :: 0 <= i < y && 0 <= j < |a| ==> matrix[i, j] == Cell(a, b, i, j)
    {
      for x := 0 to |a|
        invariant forall i, j :: 0 <= i < y && 0 <= j < |a| ==> matrix[i, j] == Cell(a, b, i, j)
        invariant forall j :: 0 <= j < x ==> matrix[y, j] == Cell(a, b, y, j)
      {
        CellStep(a, b, y, x);
        if a[x] == b[y] {
          if y < 1 || x < 1 {
            EmptyBorder(a, b, y - 1, x - 1);
            matrix[y, x] := 1;
          } else {
            matrix[y, x] := matrix[y - 1, x - 1] + 1;
          }
          continue;
        }
        var left := if x > 0 then matrix[y, x - 1] else 0;
        var above := if y > 0 then matrix[y - 1, x] else 0;
        EmptyBorder(a, b, y, x - 1);
        EmptyBorder(a, b, y - 1, x);
        matrix[y, x] := if left > above then left else above;
      }
    }
  }

  lemma EmptyBorder<T>(a: seq<T>, b: seq<T>, y: int, x: int)
    requires -1 <= y < |b| && -1 <= x < |a|
    ensures y < 0 || x < 0 ==> Cell(a, b, y, x) == 0
  {
  }

  // ----- the backtrack -----

  /** A letter kept: its index in the old and in the new array. */
  datatype Kept = Kept(x: nat, y: nat)

  /** Pairs of equal letters, both indices strictly increasing. */
  ghost predicate IsMatching<T>(ms: seq<Kept>, a: seq<T>, b: seq<T>) {
    && (forall i :: 0 <= i < |ms| ==> ms[i].x < |a| && ms[i].y < |b| && a[ms[i].x] == b[ms[i].y])
    && forall i, j :: 0 <= i < j < |ms| ==> ms[i].x < ms[j].x && ms[i].y < ms[j].y
  }

  function Reversed<T>(s: seq<T>): (r: seq<T>)
    ensures |r| == |s| && forall i :: 0 <= i < |s| ==> r[i] == s[|s| - 1 - i]
  {
    if s == [] then [] else Reversed(s[1..]) + [s[0]]
  }

  ghost predicate Descending(ms: seq<Kept>, x: int, y: int) {
    && (forall i :: 0 <= i < |ms| ==> ms[i].x > x && ms[i].y > y)
    && forall i, j :: 0 <= i < j < |ms| ==> ms[i].x > ms[j].x && ms[i].y > ms[j].y
  }

  ghost predicate Equal<T>(ms: seq<Kept>, a: seq<T>, b: seq<T>) {
    forall i :: 0 <= i < |ms| ==> ms[i].x < |a| && ms[i].y < |b| && a[ms[i].x] == b[ms[i].y]
  }

  /** Without a last row there is nothing to index, and the program stops: no result. */
  method Backtrack<T(==)>(a: seq<T>, b: seq<T>, matrix: array2<nat>) returns (matching: Option<seq<Kept>>)
    requires matrix.Length0 == |b| && matrix.Length1 == |a|
    requires forall i, j :: 0 <= i < |b| && 0 <= j < |a| ==> matrix[i, j] == Cell(a, b, i, j)
    ensures matching.None? <==> matrix.Length0 == 0
    ensures matching.Some? ==> IsMatching(matching.value, a, b) && |matching.value| == LCS(a, b)
  {
    hide LCS;
    var ms := [];
    var y := matrix.Length0 - 1;
    if y < 0 {
      return None;
    }
    var x := matrix.Length1 - 1;
    assert a[..x + 1] == a && b[..y + 1] == b;
    while true
      invariant -1 <= y < |b| && -1 <= x < |a|
      invariant Equal(ms, a, b) && Descending(ms, x, y)
      invariant |ms| + Cell(a, b, y, x) == LCS(a, b)
      decreases x + y
    {
      if x < 0 || y < 0 {
        EmptyBorder(a, b, y, x);
        break;
      }
      CellStep(a, b, y, x);
      if b[y] == a[x] {
        ms := ms + [Kept(x, y)];
        x := x - 1;
        y := y - 1;
        continue;
      }
      EmptyBorder(a, b, y, x - 1);
      EmptyBorder(a, b, y - 1, x);
      if x == 0 {
        y := y - 1;
        continue;
      }
      if y == 0 {
        x := x - 1;
        continue;
      }
      if matrix[y - 1, x] >= matrix[y, x - 1] {
        y := y - 1;
      } else {
        x := x - 1;
      }
    }
    return Some(Reversed(ms));
  }

  // ----- the edit script -----

  /** The positions that the script deletes from the old array, or inserts into the new one. */
  function Positions<T(==)>(changes: seq<DifferenceEntry<T>>, isInsertion: bool): set<int> {
    set c | c in changes && c.isInsertion == isInsertion :: c.position
  }

  /** What is left of `s` from index `i` on without the positions in `p`. */
  ghost function Rest<T>(s: seq<T>, i: nat, p: set<int>): seq<T>
    decreases |s| - i
  {
    if i >= |s| then []
    else (if i in p then [] else [s[i]]) + Rest(s, i + 1, p)
  }

  ghost predicate DistinctEntries<T>(changes: seq<DifferenceEntry<T>>) {
    forall i, j :: 0 <= i < j < |changes| && changes[i].isInsertion == changes[j].isInsertion ==>
      changes[i].position != changes[j].position
  }

  /** Each entry names an element of the array it refers to, which starts at `offset`. */
  ghost predicate NamesElements<T>(changes: seq<DifferenceEntry<T>>, a: seq<T>, b: seq<T>, offset: nat) {
    forall c :: c in changes ==>
      var s := if c.isInsertion then b else a;
      0 <= c.position - offset < |s| && s[c.position - offset] == c.character
  }

  /** Deletions and insertions are distinct, in range, and leave the same elements of both arrays. */
  ghost predicate IsScript<T>(changes: seq<DifferenceEntry<T>>, a: seq<T>, b: seq<T>) {
    && DistinctEntries(changes)
    && NamesElements(changes, a, b, 0)
    && Rest(a, 0, Positions(changes, false)) == Rest(b, 0, Positions(changes, true))
  }

  function XsOf(ms: seq<Kept>): set<int> {
    set m | m in ms :: m.x
  }

  function YsOf(ms: seq<Kept>): set<int> {
    set m | m in ms :: m.y
  }

  /** The positions are those below `low` or from `high` on that are not kept. */
  ghost predicate CoversUnkept(p: set<int>, kept: set<int>, offset: nat, low: nat, high: nat, len: nat) {
    forall q :: q in p <==> 0 <= q - offset < len && (q - offset < low || q - offset >= high) && q - offset !in kept
  }

  /** How far the script has got: deletions below `okOld` and from `high` on, insertions below `okNew`. */
  ghost predicate Progress<T>(changes: seq<DifferenceEntry<T>>, ms: seq<Kept>, a: seq<T>, b: seq<T>, offset: nat,
                              okOld: nat, high: nat, okNew: nat) {
    && CoversUnkept(Positions(changes, false), XsOf(ms), offset, okOld, high, |a|)
    && CoversUnkept(Positions(changes, true), YsOf(ms), offset, okNew, |b|, |b|)
    && DistinctEntries(changes)
    && NamesElements(changes, a, b, offset)
  }

  lemma OneMorePosition<T>(changes: seq<DifferenceEntry<T>>, c: DifferenceEntry<T>, isInsertion: bool)
    ensures Positions(changes + [c], isInsertion)
         == Positions(changes, isInsertion) + if c.isInsertion == isInsertion then {c.position} else {}
  {
    forall p
      ensures p in Positions(changes + [c], isInsertion)
          <==> p in Positions(changes, isInsertion) || (c.isInsertion == isInsertion && p == c.position)
    {
      if c.isInsertion == isInsertion {
        assert c in changes + [c];
      }
    }
  }

  lemma OneMoreDistinct<T>(changes: seq<DifferenceEntry<T>>, c: DifferenceEntry<T>)
    requires DistinctEntries(changes) && c.position !in Positions(changes, c.isInsertion)
    ensures DistinctEntries(changes + [c])
  {
    forall i | 0 <= i < |changes| && changes[i].isInsertion == c.isInsertion
      ensures changes[i].position != c.position
    {
      assert changes[i] in changes;
    }
  }

  lemma CoversOneMore(p: set<int>, kept: set<int>, offset: nat, low: nat, high: nat, len: nat, i: nat)
    requires CoversUnkept(p, kept, offset, low, high, len) && low <= i < high <= len && i !in kept
    ensures i + offset !in p
    ensures i == low ==> CoversUnkept(p + {i + offset}, kept, offset, low + 1, high, len)
    ensures i == high - 1 ==> CoversUnkept(p + {i + offset}, kept, offset, low, high - 1, len)
  {
  }

  lemma AddDeletion<T>(changes: seq<DifferenceEntry<T>>, ms: seq<Kept>, a: seq<T>, b: seq<T>, offset: nat,
                       okOld: nat, high: nat, okNew: nat, i: nat)
    requires Progress(changes, ms, a, b, offset, okOld, high, okNew) && okOld <= i < high <= |a| && i !in XsOf(ms)
    ensures var more := changes + [DifferenceEntry(i + offset, a[i], false)];
            && (i == okOld ==> Progress(more, ms, a, b, offset, okOld + 1, high, okNew))
            && (i == high - 1 ==> Progress(more, ms, a, b, offset, okOld, high - 1, okNew))
  {
    hide CoversUnkept, Positions, XsOf, YsOf, DistinctEntries;
    var c := DifferenceEntry(i + offset, a[i], false);
    CoversOneMore(Positions(changes, false), XsOf(ms), offset, okOld, high, |a|, i);
    OneMorePosition(changes, c, false);
    OneMorePosition(changes, c, true);
    OneMoreDistinct(changes, c);
    assert Positions(changes, true) + {} == Positions(changes, true);
  }

  lemma AddInsertion<T>(changes: seq<DifferenceEntry<T>>, ms: seq<Kept>, a: seq<T>, b: seq<T>, offset: nat,
                        okOld: nat, high: nat, okNew: nat)
    requires Progress(changes, ms, a, b, offset, okOld, high, okNew) && okNew < |b| && okNew !in YsOf(ms)
    ensures Progress(changes + [DifferenceEntry(okNew + offset, b[okNew], true)], ms, a, b, offset, okOld, high, okNew + 1)
  {
    hide CoversUnkept, Positions, XsOf, YsOf, DistinctEntries;
    var c := DifferenceEntry(okNew + offset, b[okNew], true);
    CoversOneMore(Positions(changes, true), YsOf(ms), offset, okNew, |b|, |b|, okNew);
    OneMorePosition(changes, c, false);
    OneMorePosition(changes, c, true);
    OneMoreDistinct(changes, c);
    assert Positions(changes, false) + {} == Positions(changes, false);
  }

  lemma AllDeleted<T>(changes: seq<DifferenceEntry<T>>, ms: seq<Kept>, a: seq<T>, b: seq<T>, offset: nat, k: nat, okNew: nat)
    requires Progress(changes, ms, a, b, offset, k, k, okNew) && k <= |a|
    ensures Progress(changes, ms, a, b, offset, |a|, |a|, okNew)
  {
  }

  lemma NothingYet<T>(ms: seq<Kept>, a: seq<T>, b: seq<T>, offset: nat)
    ensures Progress([], ms, a, b, offset, 0, |a|, 0)
  {
  }

  lemma PassKept<T>(changes: seq<DifferenceEntry<T>>, ms: seq<Kept>, a: seq<T>, b: seq<T>, offset: nat, k: nat,
                    okNew: nat)
    requires k < |ms| && IsMatching(ms, a, b)
    ensures Progress(changes, ms, a, b, offset, ms[k].x, |a|, okNew) ==> Progress(changes, ms, a, b, offset, ms[k].x + 1, |a|, okNew)
    ensures Progress(changes, ms, a, b, offset, okNew, |a|, ms[k].y) ==> Progress(changes, ms, a, b, offset, okNew, |a|, ms[k].y + 1)
  {
    assert ms[k] in ms;
    assert ms[k].x in XsOf(ms) && ms[k].y in YsOf(ms);
  }

  /** Between two neighbouring kept letters nothing is kept. */
  lemma NoneKeptBetween<T>(ms: seq<Kept>, a: seq<T>, b: seq<T>, k: nat)
    requires IsMatching(ms, a, b) && k <= |ms|
    ensures forall i: int :: StartX(ms, k) <= i && (k < |ms| ==> i < ms[k].x) ==> i !in XsOf(ms)
    ensures forall i: int :: StartY(ms, k) <= i && (k < |ms| ==> i < ms[k].y) ==> i !in YsOf(ms)
  {
    forall m | m in ms
      ensures m.x < StartX(ms, k) || (k < |ms| && m.x >= ms[k].x)
      ensures m.y < StartY(ms, k) || (k < |ms| && m.y >= ms[k].y)
    {
      var j :| 0 <= j < |ms| && ms[j] == m;
    }
  }

  function StartX(ms: seq<Kept>, k: nat): nat
    requires k <= |ms|
  {
    if k == 0 then 0 else ms[k - 1].x + 1
  }

  function StartY(ms: seq<Kept>, k: nat): nat
    requires k <= |ms|
  {
    if k == 0 then 0 else ms[k - 1].y + 1
  }

  method BuildScript<T>(a: seq<T>, b: seq<T>, ms: seq<Kept>, offset: nat) returns (result: seq<DifferenceEntry<T>>)
    requires IsMatching(ms, a, b)
    ensures Progress(result, ms, a, b, offset, |a|, |a|, |b|)
    ensures |result| == |a| + |b| - 2 * |ms|
  {
    hide Progress, XsOf, YsOf;
    result := [];
    NothingYet(ms, a, b, offset);
    var okOld, okNew, checkedLast := 0, 0, false;
    for k := 0 to |ms|
      invariant okOld == StartX(ms, k) <= |a| && okNew == StartY(ms, k) <= |b|
      invariant Progress(result, ms, a, b, offset, okOld, |a|, okNew)
      invariant |result| == okOld + okNew - 2 * k
      invariant checkedLast <==> k > 0 && okNew == |b|
    {
      var matrixItem := ms[k];
      NoneKeptBetween(ms, a, b, k);
      if okOld < matrixItem.x {
        while okOld < matrixItem.x
          invariant StartX(ms, k) <= okOld <= matrixItem.x
          invariant Progress(result, ms, a, b, offset, okOld, |a|, okNew)
          invariant |result| == okOld + okNew - 2 * k
        {
          AddDeletion(result, ms, a, b, offset, okOld, |a|, okNew, okOld);
          result := result + [DifferenceEntry(okOld + offset, a[okOld], false)];
          okOld := okOld + 1;
        }
        okOld := okOld + 1;
      } else {
        okOld := matrixItem.x + 1;
      }
      PassKept(result, ms, a, b, offset, k, okNew);
      if okNew < matrixItem.y {
        while okNew < matrixItem.y
          invariant StartY(ms, k) <= okNew <= matrixItem.y
          invariant Progress(result, ms, a, b, offset, okOld, |a|, okNew)
          invariant |result| == okOld - 1 + okNew - 2 * k
        {
          AddInsertion(result, ms, a, b, offset, okOld, |a|, okNew);
          result := result + [DifferenceEntry(okNew + offset, b[okNew], true)];
          okNew := okNew + 1;
        }
        okNew := okNew + 1;
      } else {
        okNew := matrixItem.y + 1;
      }
      PassKept(result, ms, a, b, offset, k, okOld);
      if okNew == |b| {
        checkedLast := true;
      }
    }
    NoneKeptBetween(ms, a, b, |ms|);
    var i := |a| - 1;
    while i >= okOld
      invariant okOld - 1 <= i < |a|
      invariant Progress(result, ms, a, b, offset, okOld, i + 1, okNew)
      invariant |result| == okOld + (|a| - 1 - i) + okNew - 2 * |ms|
    {
      AddDeletion(result, ms, a, b, offset, okOld, i + 1, okNew, i);
      result := result + [DifferenceEntry(i + offset, a[i], false)];
      i := i - 1;
    }
    AllDeleted(result, ms, a, b, offset, okOld, okNew);
    i := okNew + if checkedLast then 1 else 0;
    ghost var done := okNew;
    while i < |b|
      invariant okNew <= done <= |b| && (checkedLast ==> done == |b|) && (!checkedLast ==> i == done)
      invariant Progress(result, ms, a, b, offset, |a|, |a|, done)
      invariant |result| == |a| + done - 2 * |ms|
    {
      AddInsertion(result, ms, a, b, offset, |a|, |a|, done);
      result := result + [DifferenceEntry(i + offset, b[i], true)];
      i := i + 1;
      done := i;
    }
  }

  // ----- the script leaves the same elements of both arrays -----

  lemma {:induction false} RestDropsAll<T>(s: seq<T>, i: nat, j: nat, p: set<int>)
    requires i <= j <= |s| && forall k :: i <= k < j ==> k in p
    ensures Rest(s, i, p) == Rest(s, j, p)
    decreases j - i
  {
    if i < j {
      RestDropsAll(s, i + 1, j, p);
    }
  }

  lemma {:induction false} RestKeepsAll<T>(s: seq<T>, i: nat, j: nat, p: set<int>)
    requires i <= j <= |s| && forall k :: i <= k < j ==> k !in p
    ensures Rest(s, i, p) == s[i..j] + Rest(s, j, p)
    decreases j - i
  {
    if i == j {
      assert s[i..j] == [];
    } else {
      RestKeepsAll(s, i + 1, j, p);
      var rest := Rest(s, j, p);
      assert s[i..j] + rest == [s[i]] + (s[i + 1..j] + rest);
    }
  }

  /** From just behind one kept letter to the next one, everything is left out. */
  lemma RestToNextKept<T>(s: seq<T>, p: set<int>, kept: set<int>, offset: nat, len: nat, low: nat, next: nat)
    requires CoversUnkept(p, kept, offset, len, len, len) && low <= next < len && offset + len <= |s|
    requires next in kept && forall i :: low <= i < next ==> i !in kept
    ensures Rest(s, offset + low, p) == [s[offset + next]] + Rest(s, offset + next + 1, p)
  {
    RestDropsAll(s, offset + low, offset + next, p);
  }

  /** Behind the last kept letter only the common suffix is left. */
  lemma RestToSuffix<T>(s: seq<T>, p: set<int>, kept: set<int>, offset: nat, len: nat, low: nat)
    requires CoversUnkept(p, kept, offset, len, len, len) && low <= len && offset + len <= |s|
    requires forall i :: low <= i ==> i !in kept
    ensures Rest(s, offset + low, p) == s[offset + len..]
  {
    RestDropsAll(s, offset + low, offset + len, p);
    RestKeepsAll(s, offset + len, |s|, p);
  }

  /** After `k` kept letters the same elements are left: the remaining kept letters and the common suffix. */
  lemma {:induction false} SameRest<T>(old_: seq<T>, new_: seq<T>, d: set<int>, n: set<int>, ms: seq<Kept>, offset: nat,
                                      s: nat, k: nat)
    requires IsTrim(old_, new_, offset, s) && k <= |ms|
    requires var a, b := old_[offset..|old_| - s], new_[offset..|new_| - s];
             && IsMatching(ms, a, b)
             && CoversUnkept(d, XsOf(ms), offset, |a|, |a|, |a|) && CoversUnkept(n, YsOf(ms), offset, |b|, |b|, |b|)
             && StartX(ms, k) <= |a| && StartY(ms, k) <= |b|
    ensures Rest(old_, offset + StartX(ms, k), d) == Rest(new_, offset + StartY(ms, k), n)
    decreases |ms| - k
  {
    hide CoversUnkept, XsOf, YsOf, Rest;
    var a, b := old_[offset..|old_| - s], new_[offset..|new_| - s];
    NoneKeptBetween(ms, a, b, k);
    if k == |ms| {
      RestToSuffix(old_, d, XsOf(ms), offset, |a|, StartX(ms, k));
      RestToSuffix(new_, n, YsOf(ms), offset, |b|, StartY(ms, k));
    } else {
      KeptInSets(ms, k);
      RestToNextKept(old_, d, XsOf(ms), offset, |a|, StartX(ms, k), ms[k].x);
      RestToNextKept(new_, n, YsOf(ms), offset, |b|, StartY(ms, k), ms[k].y);
      SameRest(old_, new_, d, n, ms, offset, s, k + 1);
      assert old_[offset + ms[k].x] == a[ms[k].x] && new_[offset + ms[k].y] == b[ms[k].y];
    }
  }

  lemma KeptInSets(ms: seq<Kept>, k: nat)
    requires k < |ms|
    ensures ms[k].x in XsOf(ms) && ms[k].y in YsOf(ms)
  {
    assert ms[k] in ms;
  }

  lemma ScriptOfTrimmed<T>(changes: seq<DifferenceEntry<T>>, old_: seq<T>, new_: seq<T>, ms: seq<Kept>, offset: nat, s: nat)
    requires IsTrim(old_, new_, offset, s)
    requires var a, b := old_[offset..|old_| - s], new_[offset..|new_| - s];
             IsMatching(ms, a, b) && Progress(changes, ms, a, b, offset, |a|, |a|, |b|)
    ensures IsScript(changes, old_, new_)
  {
    hide Rest, Positions, NamesElements, DistinctEntries, CoversUnkept, IsMatching, XsOf, YsOf;
    NamesUntrimmed(changes, old_, new_, offset, s);
    RestOfTrimmed(Positions(changes, false), Positions(changes, true), old_, new_, ms, offset, s);
  }

  lemma NamesUntrimmed<T>(changes: seq<DifferenceEntry<T>>, old_: seq<T>, new_: seq<T>, offset: nat, s: nat)
    requires offset + s <= |old_| && offset + s <= |new_|
    requires NamesElements(changes, old_[offset..|old_| - s], new_[offset..|new_| - s], offset)
    ensures NamesElements(changes, old_, new_, 0)
  {
    forall c | c in changes
      ensures var t := if c.isInsertion then new_ else old_;
              0 <= c.position < |t| && t[c.position] == c.character
    {
    }
  }

  lemma RestOfTrimmed<T>(d: set<int>, n: set<int>, old_: seq<T>, new_: seq<T>, ms: seq<Kept>, offset: nat, s: nat)
    requires IsTrim(old_, new_, offset, s)
    requires var a, b := old_[offset..|old_| - s], new_[offset..|new_| - s];
             && IsMatching(ms, a, b)
             && CoversUnkept(d, XsOf(ms), offset, |a|, |a|, |a|) && CoversUnkept(n, YsOf(ms), offset, |b|, |b|, |b|)
    ensures Rest(old_, 0, d) == Rest(new_, 0, n)
  {
    hide Rest, IsMatching, XsOf, YsOf;
    SameRest(old_, new_, d, n, ms, offset, s, 0);
    RestKeepsAll(old_, 0, offset, d);
    RestKeepsAll(new_, 0, offset, n);
  }

  // ----- the whole function -----

  /** Trimming leaves something of the old array and nothing of the new one. */
  predicate OnlyOldIsLeft<T(==)>(a: seq<T>, b: seq<T>) {
    var p := CommonPrefix(a, b, 0);
    var s := CommonSuffix(a, b, p, 0);
    |b| - s - p == 0 && |a| - s - p > 0
  }

  /** The new array is the old one with a nonempty block cut out. */
  ghost predicate IsCut<T>(a: seq<T>, b: seq<T>) {
    exists i, j :: 0 <= i < j <= |a| && b == a[..i] + a[j..]
  }

  lemma {:induction false} PrefixReaches<T>(a: seq<T>, b: seq<T>, k: nat, i: nat)
    requires k <= i <= |a| && i <= |b| && a[..i] == b[..i]
    ensures CommonPrefix(a, b, k) >= i
    decreases i - k
  {
    if k < i {
      assert a[k] == a[..i][k] && b[k] == b[..i][k];
      PrefixReaches(a, b, k + 1, i);
    }
  }

  lemma {:induction false} PrefixIsCommon<T>(a: seq<T>, b: seq<T>, k: nat)
    requires k <= |a| && k <= |b| && a[..k] == b[..k]
    ensures var p := CommonPrefix(a, b, k); k <= p <= |a| && p <= |b| && a[..p] == b[..p]
    decreases |a| - k
  {
    if k < |a| && k < |b| && a[k] == b[k] {
      assert a[..k + 1] == a[..k] + [a[k]] && b[..k + 1] == b[..k] + [b[k]];
      PrefixIsCommon(a, b, k + 1);
    }
  }

  lemma OneLonger<T>(a: seq<T>, k: nat)
    requires k < |a|
    ensures a[|a| - (k + 1)..] == [a[|a| - 1 - k]] + a[|a| - k..]
  {
  }

  lemma {:induction false} SuffixIsCommon<T>(a: seq<T>, b: seq<T>, p: nat, k: nat)
    requires p + k <= |a| && p + k <= |b| && a[|a| - k..] == b[|b| - k..]
    ensures var s := CommonSuffix(a, b, p, k); p + s <= |a| && p + s <= |b| && a[|a| - s..] == b[|b| - s..]
    decreases |a| - k
  {
    if k < |a| - p && k < |b| - p && a[|a| - 1 - k] == b[|b| - 1 - k] {
      OneLonger(a, k);
      OneLonger(b, k);
      SuffixIsCommon(a, b, p, k + 1);
    }
  }

  lemma {:induction false} SuffixReaches<T>(a: seq<T>, b: seq<T>, p: nat, k: nat, i: nat)
    requires k <= i && p + i <= |a| && p + i <= |b| && a[|a| - i..] == b[|b| - i..]
    ensures CommonSuffix(a, b, p, k) >= i
    decreases i - k
  {
    if k < i {
      assert a[|a| - 1 - k] == a[|a| - i..][i - 1 - k] && b[|b| - 1 - k] == b[|b| - i..][i - 1 - k];
      SuffixReaches(a, b, p, k + 1, i);
    }
  }

  lemma CutsLeaveOnlyOld<T>(a: seq<T>, b: seq<T>)
    ensures OnlyOldIsLeft(a, b) <==> IsCut(a, b)
  {
    if OnlyOldIsLeft(a, b) {
      OnlyOldIsCut(a, b);
    }
    if i, j :| 0 <= i < j <= |a| && b == a[..i] + a[j..] {
      CutLeavesOnlyOld(a, b, i, j);
    }
  }

  lemma OnlyOldIsCut<T>(a: seq<T>, b: seq<T>)
    requires OnlyOldIsLeft(a, b)
    ensures IsCut(a, b)
  {
    PrefixIsCommon(a, b, 0);
    var p := CommonPrefix(a, b, 0);
    SuffixIsCommon(a, b, p, 0);
    hide CommonPrefix, CommonSuffix;
    var s := CommonSuffix(a, b, p, 0);
    assert b == b[..p] + b[|b| - s..];
    assert b == a[..p] + a[|a| - s..] && p < |a| - s;
  }

  lemma CutLeavesOnlyOld<T>(a: seq<T>, b: seq<T>, i: nat, j: nat)
    requires i < j <= |a| && b == a[..i] + a[j..]
    ensures OnlyOldIsLeft(a, b)
  {
    assert b[..i] == a[..i];
    PrefixReaches(a, b, 0, i);
    PrefixIsCommon(a, b, 0);
    var p := CommonPrefix(a, b, 0);
    SuffixIsCommon(a, b, p, 0);
    hide CommonPrefix, CommonSuffix;
    var t := |b| - p;
    CutSuffix(a, i, j, t);
    SuffixReaches(a, b, p, 0, t);
  }

  lemma CutSuffix<T>(a: seq<T>, i: nat, j: nat, t: nat)
    requires i < j <= |a| && t <= |a| - j
    ensures var b := a[..i] + a[j..]; t <= |b| && a[|a| - t..] == b[|b| - t..]
  {
  }

  /** Such as deleting the last element only. */
  lemma DeletingLastIsCut<T>(a: seq<T>, x: T)
    ensures IsCut(a + [x], a)
  {
    var b := a + [x];
    assert a == b[..|a|] + b[|b|..];
  }

  /** The program stops without a result exactly on cuts: the table then has no row to start the backtrack from. */
  method DiffInStringLCS<T(==)>(a: seq<T>, b: seq<T>) returns (result: Option<seq<DifferenceEntry<T>>>)
    ensures result.None? <==> IsCut(a, b)
    ensures result.Some? ==> IsScript(result.value, a, b) && |result.value| == |a| + |b| - 2 * LCS(a, b)
  {
    hide LCS, IsMatching, Progress, IsCut, IsScript, Cell;
    var x, y, offset := DiffTrim(a, b);
    ghost var s := CommonSuffix(a, b, offset, 0);
    TrimKeepsOptimality(a, b, offset, s);
    CutsLeaveOnlyOld(a, b);
    if |x| == 0 && |y| == 0 {
      NothingYet([], x, y, offset);
      NothingKept(x, y);
      ScriptOfTrimmed([], a, b, [], offset, s);
      return Some([]);
    }
    var matrix := FillMatrix(x, y);
    var matching := Backtrack(x, y, matrix);
    if matching.None? {
      return None;
    }
    var script := BuildScript(x, y, matching.value, offset);
    ScriptOfTrimmed(script, a, b, matching.value, offset, s);
    return Some(script);
  }

  lemma NothingKept<T>(a: seq<T>, b: seq<T>)
    ensures IsMatching([], a, b) && (a == [] ==> LCS(a, b) == 0)
  {
  }
}
