/** The journaling database as a machine of single disk steps (database/JournalingRAMDatabase.go). */
module JournalMeaning {
  import opened Wrappers
  import opened Serial

  type Key = string

  /** One entry of the journal, written with a single append. */
  datatype Entry<T> = Entry(key: Key, isDelete: bool, value: T)

  /** The snapshot is written and read as alternating keys and values. */
  datatype Part<T> = KeyPart(key: Key) | ValuePart(value: T)

  /** The database file, the temporary file and the journal; each may be missing. */
  datatype Disk<T> = Disk(db: Option<seq<Part<T>>>, tmp: Option<seq<Part<T>>>, journal: Option<seq<Entry<T>>>)

  datatype Step<T> =
    | OpenJournal
    | AppendEntry(entry: Entry<T>)
    | RemoveTmp
    | CreateTmp
    | WritePart(part: Part<T>)
    | RenameTmp
    | RemoveJournal

  function Content<A>(file: Option<seq<A>>): seq<A> {
    if file.Some? then file.value else []
  }

  function Do<T>(disk: Disk<T>, step: Step<T>): Disk<T> {
    match step
    case OpenJournal => disk.(journal := Some(Content(disk.journal)))
    case AppendEntry(entry) => disk.(journal := Some(Content(disk.journal) + [entry]))
    case RemoveTmp => disk.(tmp := None)
    case CreateTmp => disk.(tmp := Some([]))
    case WritePart(part) => disk.(tmp := Some(Content(disk.tmp) + [part]))
    case RenameTmp => disk.(db := disk.tmp, tmp := None)
    case RemoveJournal => disk.(journal := None)
  }

  function DoAll<T>(disk: Disk<T>, steps: seq<Step<T>>): Disk<T> {
    if steps == [] then disk else Do(DoAll(disk, steps[..|steps| - 1]), steps[|steps| - 1])
  }

  // ----- what the files say -----

  function Apply<T>(m: map<Key, T>, e: Entry<T>): map<Key, T> {
    if e.isDelete then m - {e.key} else m[e.key := e.value]
  }

  function ApplyAll<T>(m: map<Key, T>, es: seq<Entry<T>>): map<Key, T> {
    if es == [] then m else Apply(ApplyAll(m, es[..|es| - 1]), es[|es| - 1])
  }

  /** Reading a snapshot stops at the end of the file, also behind a key without a value. */
  function LoadParts<T>(m: map<Key, T>, parts: seq<Part<T>>): map<Key, T>
    decreases |parts|
  {
    if |parts| < 2 || !parts[0].KeyPart? || !parts[1].ValuePart? then m
    else LoadParts(m[parts[0].key := parts[1].value], parts[2..])
  }

  /** What Load makes of the map in memory. */
  function LoadOver<T>(m: map<Key, T>, disk: Disk<T>): map<Key, T> {
    ApplyAll(LoadParts(m, Content(disk.db)), Content(disk.journal))
  }

  /** What it rebuilds in a fresh instance. */
  function Recover<T>(disk: Disk<T>): map<Key, T> {
    LoadOver(map[], disk)
  }

  // ----- listings of a map, in any order -----

  datatype Record<T> = Record(key: Key, value: T)

  ghost predicate IsListing<T>(listing: seq<Record<T>>, m: map<Key, T>)
    decreases |listing|
  {
    if listing == [] then m == map[]
    else
      && listing[0].key in m && m[listing[0].key] == listing[0].value
      && IsListing(listing[1..], m - {listing[0].key})
  }

  function PartsOf<T>(listing: seq<Record<T>>): seq<Part<T>> {
    if listing == [] then []
    else [KeyPart(listing[0].key), ValuePart(listing[0].value)] + PartsOf(listing[1..])
  }

  lemma {:induction false} SnapshotRoundTrip<T>(listing: seq<Record<T>>, m: map<Key, T>, before: map<Key, T>)
    requires IsListing(listing, m)
    ensures LoadParts(before, PartsOf(listing)) == before + m
  {
    if listing == [] {
      assert before + m == before;
    } else {
      var r := listing[0];
      SnapshotRoundTrip(listing[1..], m - {r.key}, before[r.key := r.value]);
      assert PartsOf(listing)[2..] == PartsOf(listing[1..]);
      assert before[r.key := r.value] + (m - {r.key}) == before + m;
    }
  }

  // ----- replaying a journal over its own snapshot -----

  ghost predicate SameAt<T>(m: map<Key, T>, n: map<Key, T>, k: Key) {
    (k in m <==> k in n) && (k in m ==> m[k] == n[k])
  }

  /** Where the journal mentions a key, the map before it makes no difference; elsewhere nothing changes. */
  lemma {:induction false} ReplayDependsOnKeys<T>(m: map<Key, T>, n: map<Key, T>, es: seq<Entry<T>>, k: Key)
    ensures (exists i :: 0 <= i < |es| && es[i].key == k) ==> SameAt(ApplyAll(m, es), ApplyAll(n, es), k)
    ensures !(exists i :: 0 <= i < |es| && es[i].key == k) ==> SameAt(ApplyAll(m, es), m, k)
  {
    if es != [] {
      var init := es[..|es| - 1];
      ReplayDependsOnKeys(m, n, init, k);
      if i :| 0 <= i < |es| && es[i].key == k {
        if i < |init| {
          assert init[i].key == k;
        }
      } else {
        forall i | 0 <= i < |init|
          ensures init[i].key != k
        {
          assert init[i] == es[i];
        }
      }
    }
  }

  /** Replaying a journal over what it has already made changes nothing. */
  lemma ReplayIsIdempotent<T>(m: map<Key, T>, es: seq<Entry<T>>)
    ensures ApplyAll(ApplyAll(m, es), es) == ApplyAll(m, es)
  {
    var n := ApplyAll(m, es);
    forall k: Key
      ensures k in ApplyAll(n, es) <==> k in n
      ensures k in n ==> ApplyAll(n, es)[k] == n[k]
    {
      ReplayDependsOnKeys(n, m, es, k);
    }
  }

  // ----- saving -----

  function Writes<T>(parts: seq<Part<T>>): seq<Step<T>> {
    if parts == [] then [] else Writes(parts[..|parts| - 1]) + [WritePart(parts[|parts| - 1])]
  }

  /** The disk steps of Save. */
  function SaveSteps<T>(listing: seq<Record<T>>): seq<Step<T>> {
    [RemoveTmp, CreateTmp] + Writes(PartsOf(listing)) + [RenameTmp, RemoveJournal]
  }

  predicate OnlyTouchesTmp<T>(step: Step<T>) {
    step.RemoveTmp? || step.CreateTmp? || step.WritePart?
  }

  lemma {:induction false} TmpIsInvisible<T>(disk: Disk<T>, steps: seq<Step<T>>)
    requires forall i :: 0 <= i < |steps| ==> OnlyTouchesTmp(steps[i])
    ensures DoAll(disk, steps).db == disk.db && DoAll(disk, steps).journal == disk.journal
  {
    if steps != [] {
      TmpIsInvisible(disk, steps[..|steps| - 1]);
    }
  }

  lemma DoOneMore<T>(disk: Disk<T>, steps: seq<Step<T>>, step: Step<T>)
    ensures DoAll(disk, steps + [step]) == Do(DoAll(disk, steps), step)
  {
    assert (steps + [step])[..|steps|] == steps;
  }

  lemma {:induction false} WritesTouchTmp<T>(parts: seq<Part<T>>)
    ensures forall i :: 0 <= i < |Writes(parts)| ==> OnlyTouchesTmp(Writes(parts)[i])
  {
    if parts != [] {
      WritesTouchTmp(parts[..|parts| - 1]);
    }
  }

  lemma {:induction false} WritesWrite<T>(disk: Disk<T>, parts: seq<Part<T>>)
    ensures DoAll(disk.(tmp := Some([])), Writes(parts)) == disk.(tmp := Some(parts))
  {
    if parts != [] {
      var init := parts[..|parts| - 1];
      WritesWrite(disk, init);
      DoOneMore(disk.(tmp := Some([])), Writes(init), WritePart(parts[|parts| - 1]));
      assert parts == init + [parts[|parts| - 1]];
    }
  }

  lemma {:induction false} DoAllSplits<T>(disk: Disk<T>, first: seq<Step<T>>, second: seq<Step<T>>)
    ensures DoAll(disk, first + second) == DoAll(DoAll(disk, first), second)
  {
    if second == [] {
      assert first + second == first;
    } else {
      var init := second[..|second| - 1];
      DoAllSplits(disk, first, init);
      assert (first + second)[..|first + second| - 1] == first + init;
    }
  }

  lemma DoOne<T>(disk: Disk<T>, step: Step<T>)
    ensures DoAll(disk, [step]) == Do(disk, step)
  {
    assert [step][..0] == [];
  }

  /** Everything up to the rename only prepares the temporary file. */
  lemma SavePrepares<T>(disk: Disk<T>, listing: seq<Record<T>>)
    ensures var prepare := [RemoveTmp, CreateTmp] + Writes(PartsOf(listing));
            && DoAll(disk, prepare) == disk.(tmp := Some(PartsOf(listing)))
            && forall i :: 0 <= i < |prepare| ==> OnlyTouchesTmp(prepare[i])
  {
    var two: seq<Step<T>> := [RemoveTmp, CreateTmp];
    DoAllSplits(disk, two, Writes(PartsOf(listing)));
    DoAllSplits(disk, [RemoveTmp], [CreateTmp]);
    assert two == [RemoveTmp] + [CreateTmp];
    DoOne(disk, RemoveTmp);
    DoOne(disk.(tmp := None), CreateTmp);
    WritesWrite(disk, PartsOf(listing));
    WritesTouchTmp(PartsOf(listing));
  }

  /** What the disk holds once Save has renamed the temporary file, and once it is through. */
  lemma SaveFinishes<T>(disk: Disk<T>, listing: seq<Record<T>>)
    ensures var steps := SaveSteps(listing); var renamed := Disk(Some(PartsOf(listing)), None, disk.journal);
            && DoAll(disk, steps[..|steps| - 1]) == renamed
            && DoAll(disk, steps) == renamed.(journal := None)
  {
    var prepare := [RemoveTmp, CreateTmp] + Writes(PartsOf(listing));
    var steps := SaveSteps(listing);
    SavePrepares(disk, listing);
    assert steps[..|steps| - 1][..|steps| - 2] == prepare;
  }

  /** Wherever Save is interrupted, the disk still recovers to the same map. */
  lemma SavingKeepsContents<T>(disk: Disk<T>, listing: seq<Record<T>>, done: nat)
    requires IsListing(listing, Recover(disk)) && done <= |SaveSteps(listing)|
    ensures Recover(DoAll(disk, SaveSteps(listing)[..done])) == Recover(disk)
  {
    hide Recover, IsListing, Do, DoAll;
    var prepare := [RemoveTmp, CreateTmp] + Writes(PartsOf(listing));
    var steps := SaveSteps(listing);
    assert |steps| == |prepare| + 2;
    if done <= |prepare| {
      assert steps[..done] == prepare[..done];
      SavePrepares(disk, listing);
      TmpIsInvisible(disk, prepare[..done]);
      SameFilesRecoverAlike(disk, DoAll(disk, prepare[..done]));
    } else {
      SaveFinishes(disk, listing);
      SnapshotRecovers(disk, listing);
      assert done == |steps| ==> steps[..done] == steps;
    }
  }

  lemma SameFilesRecoverAlike<T>(disk: Disk<T>, other: Disk<T>)
    requires disk.db == other.db && disk.journal == other.journal
    ensures Recover(disk) == Recover(other)
  {
  }

  /** With the new snapshot in place the journal may still be there or be gone. */
  lemma SnapshotRecovers<T>(disk: Disk<T>, listing: seq<Record<T>>)
    requires IsListing(listing, Recover(disk))
    ensures Recover(Disk(Some(PartsOf(listing)), None, disk.journal)) == Recover(disk)
    ensures Recover(Disk(Some(PartsOf(listing)), None, None)) == Recover(disk)
  {
    SnapshotRoundTrip(listing, Recover(disk), map[]);
    assert map[] + Recover(disk) == Recover(disk);
    ReplayIsIdempotent(LoadParts(map[], Content(disk.db)), Content(disk.journal));
  }

  // ----- calls, crashes and runs -----

  /** What a running instance remembers. */
  datatype Ram<T> = Ram(data: map<Key, T>, journalLen: uint32)

  /** The disk, and the instance that runs on it, if one does. */
  datatype Store<T> = Store(disk: Disk<T>, ram: Option<Ram<T>>)

  datatype Call<T> = SetValue(key: Key, value: T) | DeleteKey(key: Key, zero: T) | SaveNow | LoadFresh

  /** The entries a call puts into the journal. */
  function EntriesOf<T>(call: Call<T>): seq<Entry<T>> {
    match call
    case SetValue(key, value) => [Entry(key, false, value)]
    case DeleteKey(key, zero) => [Entry(key, true, zero)]
    case SaveNow => []
    case LoadFresh => []
  }

  /** An instance is loaded once, before anything else is asked of it. */
  predicate Callable<T>(s: Store<T>, call: Call<T>) {
    s.ram.None? <==> call.LoadFresh?
  }

  /** Does appendToJournal save by itself? */
  predicate Autosaves(threshold: uint32, journalLen: uint32) {
    threshold != 0 && threshold <= Wrap(journalLen + 1)
  }

  /** Does the call save, and what is in memory by then? */
  predicate Saves<T>(threshold: uint32, s: Store<T>, call: Call<T>)
    requires Callable(s, call)
  {
    match call
    case SaveNow => true
    case LoadFresh => s.disk.journal.Some?
    case _ => Autosaves(threshold, s.ram.value.journalLen)
  }

  function DataAfter<T>(s: Store<T>, call: Call<T>): map<Key, T>
    requires Callable(s, call)
  {
    if call.LoadFresh? then Recover(s.disk) else ApplyAll(s.ram.value.data, EntriesOf(call))
  }

  function LengthAfter<T>(threshold: uint32, s: Store<T>, call: Call<T>): uint32
    requires Callable(s, call)
  {
    if call.LoadFresh? || Saves(threshold, s, call) then 0 else Wrap(s.ram.value.journalLen + 1)
  }

  function JournalSteps<T>(call: Call<T>): seq<Step<T>> {
    if EntriesOf(call) == [] then [] else [OpenJournal, AppendEntry(EntriesOf(call)[0])]
  }

  /** All disk steps of a call, in order; `listing` is the order in which the map is written if it is saved. */
  function StepsOf<T>(threshold: uint32, s: Store<T>, call: Call<T>, listing: seq<Record<T>>): seq<Step<T>>
    requires Callable(s, call)
  {
    JournalSteps(call) + if Saves(threshold, s, call) then SaveSteps(listing) else []
  }

  /** A call that has come as far as `done` disk steps: completed, or cut short by a crash. */
  ghost predicate Event<T>(threshold: uint32, s: Store<T>, call: Call<T>, listing: seq<Record<T>>, done: nat, t: Store<T>) {
    && Callable(s, call)
    && IsListing(listing, DataAfter(s, call))
    && done <= |StepsOf(threshold, s, call, listing)|
    && t.disk == DoAll(s.disk, StepsOf(threshold, s, call, listing)[..done])
    && (t.ram.None? ||
        (done == |StepsOf(threshold, s, call, listing)|
         && t.ram == Some(Ram(DataAfter(s, call), LengthAfter(threshold, s, call)))))
  }

  /** The entries that reached the journal before the call was cut short. */
  function Journaled<T>(call: Call<T>, done: nat): seq<Entry<T>> {
    if done < 2 then [] else EntriesOf(call)
  }

  /** Memory and disk agree with the journaled operations, and the counter with the journal. */
  ghost predicate Agrees<T>(threshold: uint32, s: Store<T>, ops: seq<Entry<T>>) {
    && Recover(s.disk) == ApplyAll(map[], ops)
    && (s.ram.Some? ==>
        && s.ram.value.data == ApplyAll(map[], ops)
        && s.ram.value.journalLen == Wrap(|Content(s.disk.journal)|)
        && (threshold != 0 ==> |Content(s.disk.journal)| < threshold))
  }

  lemma ApplyOneMore<T>(m: map<Key, T>, es: seq<Entry<T>>, e: Entry<T>)
    ensures ApplyAll(m, es + [e]) == Apply(ApplyAll(m, es), e)
    ensures ApplyAll(m, [e]) == Apply(m, e)
  {
    assert (es + [e])[..|es|] == es && [e][..0] == [];
  }

  /** The two steps that journal an entry. */
  lemma JournalingAppends<T>(disk: Disk<T>, e: Entry<T>)
    ensures var steps := [OpenJournal, AppendEntry(e)];
            && DoAll(disk, steps) == disk.(journal := Some(Content(disk.journal) + [e]))
            && DoAll(disk, [OpenJournal]) == disk.(journal := Some(Content(disk.journal)))
            && Recover(DoAll(disk, steps)) == Apply(Recover(disk), e)
            && Recover(DoAll(disk, [OpenJournal])) == Recover(disk)
  {
    var steps := [OpenJournal, AppendEntry(e)];
    assert steps[..1] == [OpenJournal];
    DoOne(disk, OpenJournal);
    ApplyOneMore(LoadParts(map[], Content(disk.db)), Content(disk.journal), e);
  }

  /** The journal part of a call cut short after `done` steps. */
  lemma JournalPart<T>(disk: Disk<T>, call: Call<T>, done: nat)
    requires done <= |JournalSteps(call)|
    ensures Recover(DoAll(disk, JournalSteps(call)[..done])) == ApplyAll(Recover(disk), Journaled(call, done))
  {
    hide Recover, DoAll, ApplyAll;
    var steps := JournalSteps(call);
    NothingToApply(Recover(disk));
    if done == 0 {
      assert steps[..0] == [];
      DoNothing(disk);
    } else {
      var e := EntriesOf(call)[0];
      JournalingAppends(disk, e);
      ApplyOneMore(Recover(disk), [], e);
      if done == 1 {
        assert steps[..1] == [OpenJournal];
      } else {
        assert steps[..2] == [OpenJournal, AppendEntry(e)];
      }
    }
  }

  lemma NothingToApply<T>(m: map<Key, T>)
    ensures ApplyAll(m, []) == m
  {
  }

  lemma DoNothing<T>(disk: Disk<T>)
    ensures DoAll(disk, []) == disk
  {
  }

  /** Any call, cut short anywhere, changes what the disk recovers to by just the entries it has journaled. */
  lemma CrashRecovers<T>(threshold: uint32, s: Store<T>, call: Call<T>, listing: seq<Record<T>>, done: nat, t: Store<T>)
    requires Event(threshold, s, call, listing, done, t)
    requires s.ram.Some? ==> s.ram.value.data == Recover(s.disk)
    ensures Recover(t.disk) == ApplyAll(Recover(s.disk), Journaled(call, done))
  {
    hide Recover, DoAll, IsListing, SaveSteps;
    var first := JournalSteps(call);
    var steps := StepsOf(threshold, s, call, listing);
    if done <= |first| {
      assert steps[..done] == first[..done];
      JournalPart(s.disk, call, done);
    } else {
      JournalPart(s.disk, call, |first|);
      assert first[..|first|] == first;
      assert steps[..done] == first + SaveSteps(listing)[..done - |first|];
      DoAllSplits(s.disk, first, SaveSteps(listing)[..done - |first|]);
      SavingKeepsContents(DoAll(s.disk, first), listing, done - |first|);
    }
  }

  lemma {:induction false} ApplyAllSplits<T>(m: map<Key, T>, first: seq<Entry<T>>, second: seq<Entry<T>>)
    ensures ApplyAll(m, first + second) == ApplyAll(ApplyAll(m, first), second)
  {
    if second == [] {
      assert first + second == first;
    } else {
      ApplyAllSplits(m, first, second[..|second| - 1]);
      assert (first + second)[..|first + second| - 1] == first + second[..|second| - 1];
    }
  }

  /** The journal a completed call leaves behind. */
  lemma JournalLeft<T>(threshold: uint32, s: Store<T>, call: Call<T>, listing: seq<Record<T>>)
    requires Callable(s, call)
    ensures var disk := DoAll(s.disk, StepsOf(threshold, s, call, listing));
            disk.journal == if Saves(threshold, s, call) then None
                            else if EntriesOf(call) == [] then s.disk.journal
                            else Some(Content(s.disk.journal) + EntriesOf(call))
  {
    hide DoAll, SaveSteps, Recover;
    var first := JournalSteps(call);
    DoNothing(s.disk);
    if EntriesOf(call) != [] {
      JournalingAppends(s.disk, EntriesOf(call)[0]);
    }
    if Saves(threshold, s, call) {
      DoAllSplits(s.disk, first, SaveSteps(listing));
      SaveFinishes(DoAll(s.disk, first), listing);
    } else {
      assert first + [] == first;
    }
  }

  lemma CompletedLeaves<T>(threshold: uint32, s: Store<T>, call: Call<T>, listing: seq<Record<T>>, done: nat, t: Store<T>)
    requires Event(threshold, s, call, listing, done, t) && t.ram.Some?
    ensures t.disk.journal == if Saves(threshold, s, call) then None
                              else if EntriesOf(call) == [] then s.disk.journal
                              else Some(Content(s.disk.journal) + EntriesOf(call))
  {
    hide DoAll, SaveSteps, Recover, IsListing, Saves;
    var steps := StepsOf(threshold, s, call, listing);
    assert steps[..done] == steps;
    JournalLeft(threshold, s, call, listing);
  }

  /** The counter follows the length of the journal, which stays below the threshold. */
  lemma CounterFollows<T>(threshold: uint32, s: Store<T>, call: Call<T>, t: Store<T>)
    requires Callable(s, call)
    requires t.disk.journal == if Saves(threshold, s, call) then None
                               else if EntriesOf(call) == [] then s.disk.journal
                               else Some(Content(s.disk.journal) + EntriesOf(call))
    requires s.ram.Some? ==> s.ram.value.journalLen == Wrap(|Content(s.disk.journal)|)
    requires s.ram.Some? && threshold != 0 ==> |Content(s.disk.journal)| < threshold
    ensures LengthAfter(threshold, s, call) == Wrap(|Content(t.disk.journal)|)
    ensures threshold != 0 ==> |Content(t.disk.journal)| < threshold
  {
  }

  /** A completed Set or Delete has its entry in the journal. */
  lemma CompletedIsJournaled<T>(threshold: uint32, s: Store<T>, call: Call<T>, listing: seq<Record<T>>, done: nat, t: Store<T>)
    requires Event(threshold, s, call, listing, done, t) && t.ram.Some?
    ensures Journaled(call, done) == EntriesOf(call)
  {
    hide DoAll, Recover, IsListing, SaveSteps;
  }

  /** Every call, completed or cut short, keeps memory, disk and counter in agreement with the journaled operations. */
  lemma EventKeepsAgreement<T>(threshold: uint32, s: Store<T>, call: Call<T>, listing: seq<Record<T>>, done: nat, t: Store<T>,
                               ops: seq<Entry<T>>)
    requires Event(threshold, s, call, listing, done, t) && Agrees(threshold, s, ops)
    ensures Agrees(threshold, t, ops + Journaled(call, done))
  {
    hide Recover, DoAll, IsListing, SaveSteps, ApplyAll;
    CrashRecovers(threshold, s, call, listing, done, t);
    ApplyAllSplits(map[], ops, Journaled(call, done));
    if t.ram.Some? {
      hide StepsOf, Saves;
      NothingToApply(Recover(s.disk));
      CompletedLeaves(threshold, s, call, listing, done, t);
      CounterFollows(threshold, s, call, t);
      CompletedIsJournaled(threshold, s, call, listing, done, t);
    }
  }

  // ----- whole histories -----

  datatype Happening<T> = Happening(call: Call<T>, listing: seq<Record<T>>, done: nat)

  ghost predicate History<T>(threshold: uint32, stores: seq<Store<T>>, hs: seq<Happening<T>>) {
    && |stores| == |hs| + 1
    && stores[0] == Store(Disk(None, None, None), None)
    && forall i :: 0 <= i < |hs| ==> Event(threshold, stores[i], hs[i].call, hs[i].listing, hs[i].done, stores[i + 1])
  }

  /** All operations that reached the journal, in order. */
  function AllJournaled<T>(hs: seq<Happening<T>>): seq<Entry<T>> {
    if hs == [] then []
    else AllJournaled(hs[..|hs| - 1]) + Journaled(hs[|hs| - 1].call, hs[|hs| - 1].done)
  }

  /** In every history, with crashes anywhere, the disk recovers to exactly the journaled operations. */
  lemma {:induction false} EveryHistoryRecovers<T>(threshold: uint32, stores: seq<Store<T>>, hs: seq<Happening<T>>)
    requires History(threshold, stores, hs)
    ensures Agrees(threshold, stores[|hs|], AllJournaled(hs))
    decreases |hs|
  {
    hide Event;
    if hs == [] {
      NothingJournaled<T>(threshold);
    } else {
      var n := |hs| - 1;
      var init := hs[..n];
      assert History(threshold, stores[..n + 1], init);
      EveryHistoryRecovers(threshold, stores[..n + 1], init);
      assert Event(threshold, stores[n], hs[n].call, hs[n].listing, hs[n].done, stores[n + 1]);
      EventKeepsAgreement(threshold, stores[n], hs[n].call, hs[n].listing, hs[n].done, stores[n + 1], AllJournaled(init));
    }
  }

  lemma NothingJournaled<T>(threshold: uint32)
    ensures Agrees<T>(threshold, Store(Disk(None, None, None), None), [])
  {
  }
}
