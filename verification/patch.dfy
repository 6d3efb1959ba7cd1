/** Applying an edit script (filesystem/DiffTools.go:40-58 and 932-954). */
module Patch {
  import opened Wrappers
  import opened Slices
  import opened Subsequences
  import opened Diff

  // ----- the two sorted insertions -----

  /** appendAtTop: before the first entry with a smaller position. */
  function InsertTop<T>(slice: seq<DifferenceEntry<T>>, item: DifferenceEntry<T>): seq<DifferenceEntry<T>> {
    if slice == [] then [item]
    else if slice[0].position < item.position then [item] + slice
    else [slice[0]] + InsertTop(slice[1..], item)
  }

  /** appendAtBottom: behind the last entry with a smaller position. */
  function InsertBottom<T>(slice: seq<DifferenceEntry<T>>, item: DifferenceEntry<T>): seq<DifferenceEntry<T>> {
    if slice == [] then [item]
    else if Last(slice).position < item.position then slice + [item]
    else InsertBottom(Init(slice), item) + [Last(slice)]
  }

  lemma InsertTopIntoNone<T>(slice: seq<DifferenceEntry<T>>, item: DifferenceEntry<T>)
    ensures slice[..0] + InsertTop(slice[0..], item) == InsertTop(slice, item)
    ensures slice[..|slice|] + InsertTop(slice[|slice|..], item) == slice + [item]
  {
    assert slice[0..] == slice && slice[|slice|..] == [];
  }

  lemma InsertTopStep<T>(slice: seq<DifferenceEntry<T>>, item: DifferenceEntry<T>, i: nat)
    requires i < |slice|
    ensures slice[..i] + InsertTop(slice[i..], item) ==
            if slice[i].position < item.position then slice[..i] + [item] + slice[i..]
            else slice[..i + 1] + InsertTop(slice[i + 1..], item)
  {
    assert slice[i..][0] == slice[i] && slice[i..][1..] == slice[i + 1..];
    assert slice[..i + 1] == slice[..i] + [slice[i]];
  }

  method AppendAtTop<T>(slice: seq<DifferenceEntry<T>>, item: DifferenceEntry<T>) returns (r: seq<DifferenceEntry<T>>)
    ensures r == InsertTop(slice, item)
  {
    hide InsertTop;
    InsertTopIntoNone(slice, item);
    for i := 0 to |slice|
      invariant InsertTop(slice, item) == slice[..i] + InsertTop(slice[i..], item)
    {
      InsertTopStep(slice, item, i);
      if slice[i].position < item.position {
        return InsertElementAtIndex(slice, i, item);
      }
    }
    return slice + [item];
  }

  lemma InsertBottomIntoNone<T>(slice: seq<DifferenceEntry<T>>, item: DifferenceEntry<T>)
    ensures InsertBottom(slice[..|slice|], item) + slice[|slice|..] == InsertBottom(slice, item)
    ensures InsertBottom(slice[..0], item) + slice[0..] == [item] + slice
  {
    assert slice[..|slice|] == slice && slice[|slice|..] == [];
  }

  lemma InsertBottomStep<T>(slice: seq<DifferenceEntry<T>>, item: DifferenceEntry<T>, i: nat)
    requires i < |slice|
    ensures InsertBottom(slice[..i + 1], item) + slice[i + 1..] ==
            if slice[i].position < item.position then slice[..i + 1] + [item] + slice[i + 1..]
            else InsertBottom(slice[..i], item) + slice[i..]
  {
    assert Init(slice[..i + 1]) == slice[..i];
    assert slice[i..] == [slice[i]] + slice[i + 1..];
  }

  method AppendAtBottom<T>(slice: seq<DifferenceEntry<T>>, item: DifferenceEntry<T>) returns (r: seq<DifferenceEntry<T>>)
    ensures r == InsertBottom(slice, item)
  {
    hide InsertBottom;
    InsertBottomIntoNone(slice, item);
    for i := |slice| downto 0
      invariant InsertBottom(slice, item) == InsertBottom(slice[..i], item) + slice[i..]
    {
      InsertBottomStep(slice, item, i);
      if slice[i].position < item.position {
        return InsertElementAtIndex(slice, i + 1, item);
      }
    }
    return InsertElementAtIndex(slice, 0, item);
  }

  // ----- patching -----

  /** Deletions sorted with the highest position first. */
  function Deletions<T>(changes: seq<DifferenceEntry<T>>): seq<DifferenceEntry<T>> {
    if changes == [] then []
    else if Last(changes).isInsertion then Deletions(Init(changes))
    else InsertTop(Deletions(Init(changes)), Last(changes))
  }

  /** Insertions sorted with the lowest position first. */
  function Insertions<T>(changes: seq<DifferenceEntry<T>>): seq<DifferenceEntry<T>> {
    if changes == [] then []
    else if Last(changes).isInsertion then InsertBottom(Insertions(Init(changes)), Last(changes))
    else Insertions(Init(changes))
  }

  function DeleteAll<T>(s: seq<T>, ds: seq<DifferenceEntry<T>>): seq<T> {
    if ds == [] then s else RemoveElementAtIndex(DeleteAll(s, Init(ds)), Last(ds).position)
  }

  function InsertAll<T>(s: seq<T>, ns: seq<DifferenceEntry<T>>): seq<T> {
    if ns == [] then s else InsertElementAtIndex(InsertAll(s, Init(ns)), Last(ns).position, Last(ns).character)
  }

  /** What PatchUsingChanges makes of any list of changes. */
  function Patched<T>(s: seq<T>, changes: seq<DifferenceEntry<T>>): seq<T> {
    InsertAll(DeleteAll(s, Deletions(changes)), Insertions(changes))
  }

  method PatchUsingChanges<T>(old_: seq<T>, changes: seq<DifferenceEntry<T>>) returns (result: seq<T>)
    ensures result == Patched(old_, changes)
  {
    var deletions, insertions := [], [];
    assert changes[..0] == [] && changes[..|changes|] == changes;
    for i := 0 to |changes|
      invariant deletions == Deletions(changes[..i]) && insertions == Insertions(changes[..i])
    {
      var v := changes[i];
      assert Init(changes[..i + 1]) == changes[..i];
      if v.isInsertion {
        insertions := AppendAtBottom(insertions, v);
      } else {
        deletions := AppendAtTop(deletions, v);
      }
    }
    result := old_;
    assert deletions[..0] == [] && deletions[..|deletions|] == deletions;
    for i := 0 to |deletions|
      invariant result == DeleteAll(old_, deletions[..i])
    {
      assert Init(deletions[..i + 1]) == deletions[..i];
      result := RemoveElementAtIndex(result, deletions[i].position);
    }
    ghost var left := result;
    assert insertions[..0] == [] && insertions[..|insertions|] == insertions;
    for i := 0 to |insertions|
      invariant result == InsertAll(left, insertions[..i])
    {
      assert Init(insertions[..i + 1]) == insertions[..i];
      result := InsertElementAtIndex(result, insertions[i].position, insertions[i].character);
    }
  }

  // ----- what sorting does -----

  ghost predicate Falling<T>(ds: seq<DifferenceEntry<T>>) {
    forall i, j :: 0 <= i < j < |ds| ==> ds[i].position > ds[j].position
  }

  ghost predicate Rising<T>(ns: seq<DifferenceEntry<T>>) {
    forall i, j :: 0 <= i < j < |ns| ==> ns[i].position < ns[j].position
  }

  /** The same entries, with one more. */
  ghost predicate WithItem<T>(r: seq<DifferenceEntry<T>>, s: seq<DifferenceEntry<T>>, item: DifferenceEntry<T>) {
    && |r| == |s| + 1
    && item in r
    && (forall i :: 0 <= i < |r| ==> r[i] == item || r[i] in s)
    && forall i :: 0 <= i < |s| ==> s[i] in r
  }

  lemma {:induction false} InsertTopBelow<T>(ds: seq<DifferenceEntry<T>>, item: DifferenceEntry<T>, bound: int)
    requires item.position < bound && forall i :: 0 <= i < |ds| ==> ds[i].position < bound
    ensures forall i :: 0 <= i < |InsertTop(ds, item)| ==> InsertTop(ds, item)[i].position < bound
  {
    if ds != [] && ds[0].position >= item.position {
      InsertTopBelow(ds[1..], item, bound);
    }
  }

  lemma {:induction false} InsertTopSorts<T>(ds: seq<DifferenceEntry<T>>, item: DifferenceEntry<T>)
    requires Falling(ds) && forall i :: 0 <= i < |ds| ==> ds[i].position != item.position
    ensures Falling(InsertTop(ds, item)) && WithItem(InsertTop(ds, item), ds, item)
  {
    if ds != [] && ds[0].position >= item.position {
      InsertTopSorts(ds[1..], item);
      InsertTopBelow(ds[1..], item, ds[0].position);
    }
  }

  lemma {:induction false} InsertBottomBelow<T>(ns: seq<DifferenceEntry<T>>, item: DifferenceEntry<T>, bound: int)
    requires item.position < bound && forall i :: 0 <= i < |ns| ==> ns[i].position < bound
    ensures forall i :: 0 <= i < |InsertBottom(ns, item)| ==> InsertBottom(ns, item)[i].position < bound
  {
    if ns != [] && Last(ns).position >= item.position {
      InsertBottomBelow(Init(ns), item, bound);
    }
  }

  lemma {:induction false} InsertBottomSorts<T>(ns: seq<DifferenceEntry<T>>, item: DifferenceEntry<T>)
    requires Rising(ns) && forall i :: 0 <= i < |ns| ==> ns[i].position != item.position
    ensures Rising(InsertBottom(ns, item)) && WithItem(InsertBottom(ns, item), ns, item)
  {
    if ns != [] && Last(ns).position >= item.position {
      InsertBottomSorts(Init(ns), item);
      InsertBottomBelow(Init(ns), item, Last(ns).position);
      hide InsertBottom;
      OneMoreAbove(InsertBottom(Init(ns), item), Init(ns), item, Last(ns));
      assert Init(ns) + [Last(ns)] == ns;
    }
  }

  lemma OneMoreAbove<T>(r: seq<DifferenceEntry<T>>, s: seq<DifferenceEntry<T>>, item: DifferenceEntry<T>, top: DifferenceEntry<T>)
    requires Rising(r) && WithItem(r, s, item) && forall i :: 0 <= i < |r| ==> r[i].position < top.position
    ensures Rising(r + [top]) && WithItem(r + [top], s + [top], item)
  {
  }

  /** The entries of one kind, and nothing else. */
  ghost predicate EntriesOf<T>(es: seq<DifferenceEntry<T>>, changes: seq<DifferenceEntry<T>>, isInsertion: bool) {
    && (forall k :: 0 <= k < |es| ==> es[k] in changes && es[k].isInsertion == isInsertion)
    && forall i :: 0 <= i < |changes| && changes[i].isInsertion == isInsertion ==> changes[i] in es
  }

  lemma NewPosition<T>(es: seq<DifferenceEntry<T>>, changes: seq<DifferenceEntry<T>>)
    requires changes != [] && DistinctEntries(changes)
    requires forall k :: 0 <= k < |es| ==> es[k] in Init(changes) && es[k].isInsertion == Last(changes).isInsertion
    ensures forall k :: 0 <= k < |es| ==> es[k].position != Last(changes).position
  {
    forall k | 0 <= k < |es|
      ensures es[k].position != Last(changes).position
    {
      var j :| 0 <= j < |Init(changes)| && Init(changes)[j] == es[k];
      assert changes[j] == es[k];
    }
  }

  lemma EntriesGrow<T>(es: seq<DifferenceEntry<T>>, changes: seq<DifferenceEntry<T>>, isInsertion: bool)
    requires changes != [] && EntriesOf(es, Init(changes), isInsertion) && Last(changes).isInsertion != isInsertion
    ensures EntriesOf(es, changes, isInsertion)
  {
    assert changes == Init(changes) + [Last(changes)];
  }

  lemma EntriesGrowByLast<T>(r: seq<DifferenceEntry<T>>, es: seq<DifferenceEntry<T>>, changes: seq<DifferenceEntry<T>>, isInsertion: bool)
    requires changes != [] && EntriesOf(es, Init(changes), isInsertion) && Last(changes).isInsertion == isInsertion
    requires WithItem(r, es, Last(changes))
    ensures EntriesOf(r, changes, isInsertion)
  {
    assert changes == Init(changes) + [Last(changes)];
    forall i | 0 <= i < |changes| && changes[i].isInsertion == isInsertion
      ensures changes[i] in r
    {
      if i < |changes| - 1 {
        assert changes[i] == Init(changes)[i];
        var j :| 0 <= j < |es| && es[j] == changes[i];
        assert es[j] in r;
      }
    }
    forall k | 0 <= k < |r|
      ensures r[k] in changes && r[k].isInsertion == isInsertion
    {
      if r[k] != Last(changes) {
        var j :| 0 <= j < |es| && es[j] == r[k];
      }
    }
  }

  lemma {:induction false} SortedEntries<T>(changes: seq<DifferenceEntry<T>>)
    requires DistinctEntries(changes)
    ensures Falling(Deletions(changes)) && EntriesOf(Deletions(changes), changes, false)
    ensures Rising(Insertions(changes)) && EntriesOf(Insertions(changes), changes, true)
  {
    if changes != [] {
      SortedEntries(Init(changes));
      var ds, ns := Deletions(Init(changes)), Insertions(Init(changes));
      if Last(changes).isInsertion {
        NewPosition(ns, changes);
        InsertBottomSorts(ns, Last(changes));
        EntriesGrowByLast(Insertions(changes), ns, changes, true);
        EntriesGrow(ds, changes, false);
      } else {
        NewPosition(ds, changes);
        InsertTopSorts(ds, Last(changes));
        EntriesGrowByLast(Deletions(changes), ds, changes, false);
        EntriesGrow(ns, changes, true);
      }
    }
  }

  /** The entries stand at exactly the positions in `p`. */
  ghost predicate StandAt<T>(es: seq<DifferenceEntry<T>>, p: set<int>) {
    && (forall k :: 0 <= k < |es| ==> es[k].position in p)
    && forall q :: q in p ==> exists k :: 0 <= k < |es| && es[k].position == q
  }

  lemma NoneAt<T>(es: seq<DifferenceEntry<T>>, p: set<int>, low: int, high: int)
    requires StandAt(es, p) && forall k :: 0 <= k < |es| ==> !(low <= es[k].position < high)
    ensures forall q :: low <= q < high ==> q !in p
  {
  }

  lemma EntriesStandAt<T>(es: seq<DifferenceEntry<T>>, changes: seq<DifferenceEntry<T>>, isInsertion: bool)
    requires EntriesOf(es, changes, isInsertion)
    ensures StandAt(es, Positions(changes, isInsertion))
  {
    forall q | q in Positions(changes, isInsertion)
      ensures exists k :: 0 <= k < |es| && es[k].position == q
    {
      var c :| c in changes && c.isInsertion == isInsertion && c.position == q;
      var i :| 0 <= i < |changes| && changes[i] == c;
      var k :| 0 <= k < |es| && es[k] == changes[i];
    }
  }

  // ----- deleting from the top, inserting from the bottom -----

  function Cut<T>(s: seq<T>, ds: seq<DifferenceEntry<T>>, j: nat): int
    requires j <= |ds|
  {
    if j == 0 then |s| else ds[j - 1].position
  }

  lemma DeleteStep<T>(s: seq<T>, p: set<int>, before: nat, d: nat)
    requires d < before <= |s| && d in p && forall k :: d < k < before ==> k !in p
    ensures RemoveElementAtIndex(s[..before] + Rest(s, before, p), d) == s[..d] + Rest(s, d, p)
  {
    RestKeepsAll(s, d + 1, before, p);
    var rest := Rest(s, before, p);
    assert Rest(s, d, p) == Rest(s, d + 1, p);
    CutOut(s, rest, before, d);
  }

  lemma CutOut<T>(s: seq<T>, rest: seq<T>, before: nat, d: nat)
    requires d < before <= |s|
    ensures RemoveElementAtIndex(s[..before] + rest, d) == s[..d] + (s[d + 1..before] + rest)
  {
    var t := s[..before] + rest;
    assert t[..d] == s[..d];
    assert t[d + 1..] == s[d + 1..before] + rest;
  }

  lemma NoneDeletedBetween<T>(s: seq<T>, ds: seq<DifferenceEntry<T>>, p: set<int>, j: nat)
    requires Falling(ds) && StandAt(ds, p) && j < |ds| && forall k :: 0 <= k < |ds| ==> 0 <= ds[k].position < |s|
    ensures ds[j].position in p && forall q :: ds[j].position < q < Cut(s, ds, j) ==> q !in p
  {
    NoneAt(ds, p, ds[j].position + 1, Cut(s, ds, j));
  }

  /** After `j` deletions: untouched below the last one, and the rest above it. */
  lemma {:induction false} DeletedSoFar<T>(s: seq<T>, ds: seq<DifferenceEntry<T>>, p: set<int>, j: nat)
    requires Falling(ds) && StandAt(ds, p) && j <= |ds|
    requires forall k :: 0 <= k < |ds| ==> 0 <= ds[k].position < |s|
    ensures 0 <= Cut(s, ds, j) <= |s|
    ensures DeleteAll(s, ds[..j]) == s[..Cut(s, ds, j)] + Rest(s, Cut(s, ds, j), p)
  {
    hide Rest, RemoveElementAtIndex, StandAt;
    if j == 0 {
      assert ds[..0] == [] && s[..|s|] == s;
      NothingRests(s, p);
    } else {
      DeletedSoFar(s, ds, p, j - 1);
      NoneDeletedBetween(s, ds, p, j - 1);
      assert Init(ds[..j]) == ds[..j - 1] && Last(ds[..j]) == ds[j - 1];
      DeleteStep(s, p, Cut(s, ds, j - 1), ds[j - 1].position);
    }
  }

  lemma NothingRests<T>(s: seq<T>, p: set<int>)
    ensures Rest(s, |s|, p) == []
  {
  }

  function Done<T>(ns: seq<DifferenceEntry<T>>, j: nat): int
    requires j <= |ns|
  {
    if j == 0 then 0 else ns[j - 1].position + 1
  }

  lemma InsertStep<T>(s: seq<T>, p: set<int>, before: nat, q: nat)
    requires before <= q < |s| && q in p && forall k :: before <= k < q ==> k !in p
    ensures InsertElementAtIndex(s[..before] + Rest(s, before, p), q, s[q]) == s[..q + 1] + Rest(s, q + 1, p)
  {
    RestKeepsAll(s, before, q, p);
    var rest := Rest(s, q + 1, p);
    assert Rest(s, q, p) == rest;
    PutIn(s, rest, before, q);
  }

  lemma PutIn<T>(s: seq<T>, rest: seq<T>, before: nat, q: nat)
    requires before <= q < |s|
    ensures InsertElementAtIndex(s[..before] + (s[before..q] + rest), q, s[q]) == s[..q + 1] + rest
  {
    var t := s[..before] + (s[before..q] + rest);
    assert t == s[..q] + rest;
    assert t[..q] == s[..q] && t[q..] == rest;
    assert s[..q] + [s[q]] == s[..q + 1];
  }

  lemma NoneInsertedBetween<T>(ns: seq<DifferenceEntry<T>>, p: set<int>, j: nat)
    requires Rising(ns) && StandAt(ns, p) && j < |ns| && forall k :: 0 <= k < |ns| ==> 0 <= ns[k].position
    ensures ns[j].position in p && forall q :: Done(ns, j) <= q < ns[j].position ==> q !in p
    ensures j > 0 ==> Done(ns, j) <= ns[j].position
  {
    NoneAt(ns, p, Done(ns, j), ns[j].position);
  }

  /** After `j` insertions into what is left of `s`: complete up to the last one, and the rest above it. */
  lemma {:induction false} InsertedSoFar<T>(s: seq<T>, ns: seq<DifferenceEntry<T>>, p: set<int>, j: nat)
    requires Rising(ns) && StandAt(ns, p) && j <= |ns|
    requires forall k :: 0 <= k < |ns| ==> 0 <= ns[k].position < |s| && ns[k].character == s[ns[k].position]
    ensures 0 <= Done(ns, j) <= |s|
    ensures InsertAll(Rest(s, 0, p), ns[..j]) == s[..Done(ns, j)] + Rest(s, Done(ns, j), p)
  {
    hide Rest, InsertElementAtIndex, StandAt;
    if j == 0 {
      assert ns[..0] == [];
    } else {
      InsertedSoFar(s, ns, p, j - 1);
      NoneInsertedBetween(ns, p, j - 1);
      assert Init(ns[..j]) == ns[..j - 1] && Last(ns[..j]) == ns[j - 1];
      InsertStep(s, p, Done(ns, j - 1), ns[j - 1].position);
    }
  }

  /** Deleting every position of `p` leaves the rest of `s`. */
  lemma DeletesAll<T>(s: seq<T>, ds: seq<DifferenceEntry<T>>, p: set<int>)
    requires Falling(ds) && StandAt(ds, p) && forall k :: 0 <= k < |ds| ==> 0 <= ds[k].position < |s|
    requires forall q :: q in p ==> q >= 0
    ensures DeleteAll(s, ds) == Rest(s, 0, p)
  {
    hide Rest, DeleteAll, StandAt;
    DeletedSoFar(s, ds, p, |ds|);
    assert ds[..|ds|] == ds;
    NoneAt(ds, p, 0, Cut(s, ds, |ds|));
    RestKeepsAll(s, 0, Cut(s, ds, |ds|), p);
    assert s[0..Cut(s, ds, |ds|)] == s[..Cut(s, ds, |ds|)];
  }

  lemma Halves<T>(s: seq<T>, i: nat)
    requires i <= |s|
    ensures s[..i] + (s[i..|s|] + []) == s
  {
  }

  /** Inserting every position of `p` into the rest of `s` completes it. */
  lemma InsertsAll<T>(s: seq<T>, ns: seq<DifferenceEntry<T>>, p: set<int>)
    requires Rising(ns) && StandAt(ns, p)
    requires forall k :: 0 <= k < |ns| ==> 0 <= ns[k].position < |s| && ns[k].character == s[ns[k].position]
    ensures InsertAll(Rest(s, 0, p), ns) == s
  {
    hide Rest, InsertAll, StandAt;
    InsertedSoFar(s, ns, p, |ns|);
    assert ns[..|ns|] == ns;
    var done := Done(ns, |ns|);
    NoneAt(ns, p, done, |s|);
    RestKeepsAll(s, done, |s|, p);
    NothingRests(s, p);
    Halves(s, done);
  }

  lemma EntriesInRange<T>(es: seq<DifferenceEntry<T>>, changes: seq<DifferenceEntry<T>>, a: seq<T>, b: seq<T>, isInsertion: bool)
    requires EntriesOf(es, changes, isInsertion) && NamesElements(changes, a, b, 0)
    ensures var s := if isInsertion then b else a;
            forall k :: 0 <= k < |es| ==> 0 <= es[k].position < |s| && s[es[k].position] == es[k].character
  {
    forall k | 0 <= k < |es|
      ensures es[k] in changes && es[k].isInsertion == isInsertion
    {
    }
  }

  /** An edit script, its entries in any order, patches the old array into the new one. */
  lemma ScriptPatches<T>(a: seq<T>, b: seq<T>, changes: seq<DifferenceEntry<T>>)
    requires IsScript(changes, a, b)
    ensures Patched(a, changes) == b
  {
    hide Rest, DeleteAll, InsertAll, Deletions, Insertions, Positions, EntriesOf, Falling, Rising, StandAt;
    var ds, ns := Deletions(changes), Insertions(changes);
    var d, n := Positions(changes, false), Positions(changes, true);
    SortedEntries(changes);
    EntriesStandAt(ds, changes, false);
    EntriesStandAt(ns, changes, true);
    EntriesInRange(ds, changes, a, b, false);
    EntriesInRange(ns, changes, a, b, true);
    PositionsInRange(changes, a, b);
    DeletesAll(a, ds, d);
    InsertsAll(b, ns, n);
  }

  lemma PositionsInRange<T>(changes: seq<DifferenceEntry<T>>, a: seq<T>, b: seq<T>)
    requires NamesElements(changes, a, b, 0)
    ensures forall q :: q in Positions(changes, false) ==> q >= 0
  {
  }

  // ----- any order of the entries -----

  lemma TwiceInMultiset<T>(s: seq<T>, i: nat, j: nat)
    requires i < j < |s| && s[i] == s[j]
    ensures multiset(s)[s[i]] >= 2
  {
    assert s == s[..i] + [s[i]] + s[i + 1..j] + [s[j]] + s[j + 1..];
  }

  lemma {:induction false} DistinctAreOnce<T>(changes: seq<DifferenceEntry<T>>, c: DifferenceEntry<T>)
    requires DistinctEntries(changes)
    ensures multiset(changes)[c] <= 1
  {
    if changes != [] {
      DistinctAreOnce(Init(changes), c);
      assert changes == Init(changes) + [Last(changes)];
      if c == Last(changes) {
        assert c !in Init(changes);
      }
    }
  }

  lemma SameMembers<T>(s: seq<T>, t: seq<T>)
    requires multiset(s) == multiset(t)
    ensures forall x :: x in s <==> x in t
  {
    forall x
      ensures x in s <==> x in t
    {
      assert x in s <==> x in multiset(s);
      assert x in t <==> x in multiset(t);
    }
  }

  lemma PermutedScript<T>(changes: seq<DifferenceEntry<T>>, other: seq<DifferenceEntry<T>>, a: seq<T>, b: seq<T>)
    requires IsScript(changes, a, b) && multiset(other) == multiset(changes)
    ensures IsScript(other, a, b)
  {
    SameMembers(changes, other);
    assert Positions(other, false) == Positions(changes, false) && Positions(other, true) == Positions(changes, true);
    forall i, j | 0 <= i < j < |other| && other[i].isInsertion == other[j].isInsertion
      ensures other[i].position != other[j].position
    {
      assert other[i] in changes && other[j] in changes;
      if other[i].position == other[j].position {
        TwiceInMultiset(other, i, j);
        DistinctAreOnce(changes, other[i]);
        assert false;
      }
    }
  }

  /** Where there is a difference, patching the old array with it, its entries in any order, gives the new one. */
  method PatchOfDiff<T(==)>(a: seq<T>, b: seq<T>) returns (changes: Option<seq<DifferenceEntry<T>>>, result: seq<T>)
    ensures changes.None? <==> IsCut(a, b)
    ensures changes.Some? ==> result == b && |changes.value| == Distance(a, b)
    ensures changes.Some? ==> forall other :: multiset(other) == multiset(changes.value) ==> Patched(a, other) == b
  {
    hide IsCut, IsScript, LCS;
    changes := DiffInStringLCS(a, b);
    if changes.None? {
      return changes, a;
    }
    result := PatchUsingChanges(a, changes.value);
    ScriptPatches(a, b, changes.value);
    forall other | multiset(other) == multiset(changes.value)
      ensures Patched(a, other) == b
    {
      PermutedScript(changes.value, other, a, b);
      ScriptPatches(a, b, other);
    }
  }

  // ----- no shorter list of changes does the same -----

  lemma RemovalCostsOne<T>(s: seq<T>, index: int, b: seq<T>)
    ensures Distance(s, b) <= Distance(RemoveElementAtIndex(s, index), b) + 1
  {
    if 0 <= index < |s| {
      assert RemoveElementAtIndex(s, index) == Without(s, index);
      AnyCostsAtMostOne(s, index, b);
    }
  }

  lemma InsertionCostsOne<T>(s: seq<T>, index: int, element: T, b: seq<T>)
    ensures Distance(s, b) <= Distance(InsertElementAtIndex(s, index, element), b) + 1
  {
    var t := InsertElementAtIndex(s, index, element);
    if index >= 0 {
      var i := if index <= |s| then index else |s|;
      assert t == s[..i] + [element] + s[i..];
      assert Without(t, i) == s;
      AnyCostsAtMostOne(t, i, b);
    }
  }

  lemma {:induction false} DeletionsCost<T>(s: seq<T>, ds: seq<DifferenceEntry<T>>, b: seq<T>)
    ensures Distance(s, b) <= Distance(DeleteAll(s, ds), b) + |ds|
  {
    if ds != [] {
      DeletionsCost(s, Init(ds), b);
      RemovalCostsOne(DeleteAll(s, Init(ds)), Last(ds).position, b);
    }
  }

  lemma {:induction false} InsertionsCost<T>(s: seq<T>, ns: seq<DifferenceEntry<T>>, b: seq<T>)
    ensures Distance(s, b) <= Distance(InsertAll(s, ns), b) + |ns|
  {
    if ns != [] {
      InsertionsCost(s, Init(ns), b);
      InsertionCostsOne(InsertAll(s, Init(ns)), Last(ns).position, Last(ns).character, b);
    }
  }

  lemma {:induction false} InsertedLengths<T>(es: seq<DifferenceEntry<T>>, item: DifferenceEntry<T>)
    ensures |InsertTop(es, item)| == |InsertBottom(es, item)| == |es| + 1
  {
    if es != [] {
      InsertedLengths(es[1..], item);
      InsertedLengths(Init(es), item);
    }
  }

  lemma {:induction false} EveryChangeIsApplied<T>(changes: seq<DifferenceEntry<T>>)
    ensures |Deletions(changes)| + |Insertions(changes)| == |changes|
  {
    if changes != [] {
      EveryChangeIsApplied(Init(changes));
      InsertedLengths(Deletions(Init(changes)), Last(changes));
      InsertedLengths(Insertions(Init(changes)), Last(changes));
    }
  }

  /** Whatever list of changes turns `a` into `b` is at least as long as the one DiffInStringLCS returns. */
  lemma NoShorterScript<T>(a: seq<T>, b: seq<T>, changes: seq<DifferenceEntry<T>>)
    requires Patched(a, changes) == b
    ensures |changes| >= Distance(a, b)
  {
    hide LCS, DeleteAll, InsertAll, Deletions, Insertions;
    EveryChangeIsApplied(changes);
    DeletionsCost(a, Deletions(changes), b);
    InsertionsCost(DeleteAll(a, Deletions(changes)), Insertions(changes), b);
    NothingBetweenEquals(b);
  }
}
