/** The journaling database itself (database/JournalingRAMDatabase.go:40-305), over the files it changes one step at a time. */
module JournalingDatabases {
  import opened Wrappers
  import opened Serial
  import opened JournalMeaning

  /** The three files of a database, and a record of every step made on them. */
  class Files<T> {
    var db: Option<seq<Part<T>>>
    var tmp: Option<seq<Part<T>>>
    var journal: Option<seq<Entry<T>>>
    ghost var steps: seq<Step<T>>

    ghost function Disk(): Disk<T>
      reads this
    {
      JournalMeaning.Disk(db, tmp, journal)
    }

    method OpenJournal()
      modifies this
      ensures Disk() == Do(old(Disk()), Step.OpenJournal) && steps == old(steps) + [Step.OpenJournal]
    {
      if journal.None? {
        journal := Some([]);
      }
      steps := steps + [Step.OpenJournal];
    }

    method AppendEntry(entry: Entry<T>)
      modifies this
      ensures Disk() == Do(old(Disk()), Step.AppendEntry(entry)) && steps == old(steps) + [Step.AppendEntry(entry)]
    {
      journal := Some((if journal.Some? then journal.value else []) + [entry]);
      steps := steps + [Step.AppendEntry(entry)];
    }

    method RemoveTmp()
      modifies this
      ensures Disk() == Do(old(Disk()), Step.RemoveTmp) && steps == old(steps) + [Step.RemoveTmp]
    {
      tmp := None;
      steps := steps + [Step.RemoveTmp];
    }

    method CreateTmp()
      modifies this
      ensures Disk() == Do(old(Disk()), Step.CreateTmp) && steps == old(steps) + [Step.CreateTmp]
    {
      tmp := Some([]);
      steps := steps + [Step.CreateTmp];
    }

    method WritePart(part: Part<T>)
      modifies this
      ensures Disk() == Do(old(Disk()), Step.WritePart(part)) && steps == old(steps) + [Step.WritePart(part)]
    {
      tmp := Some((if tmp.Some? then tmp.value else []) + [part]);
      steps := steps + [Step.WritePart(part)];
    }

    method RenameTmp()
      modifies this
      ensures Disk() == Do(old(Disk()), Step.RenameTmp) && steps == old(steps) + [Step.RenameTmp]
    {
      db, tmp := tmp, None;
      steps := steps + [Step.RenameTmp];
    }

    method RemoveJournal()
      modifies this
      ensures Disk() == Do(old(Disk()), Step.RemoveJournal) && steps == old(steps) + [Step.RemoveJournal]
    {
      journal := None;
      steps := steps + [Step.RemoveJournal];
    }
  }

  lemma DoOneAfterOther<T>(disk: JournalMeaning.Disk<T>, first: Step<T>, second: Step<T>)
    ensures DoAll(disk, [first, second]) == Do(Do(disk, first), second)
  {
    hide DoAll, Do;
    DoOne(disk, first);
    DoOneMore(disk, [first], second);
    assert [first] + [second] == [first, second];
  }

  lemma DoTwoMore<T>(disk: JournalMeaning.Disk<T>, made: seq<Step<T>>, first: Step<T>, second: Step<T>)
    ensures DoAll(disk, made + [first, second]) == Do(Do(DoAll(disk, made), first), second)
  {
    hide DoAll, Do;
    DoOneMore(disk, made, first);
    DoOneMore(disk, made + [first], second);
    assert made + [first] + [second] == made + [first, second];
  }

  function WritesOf<T>(record: Record<T>): seq<Step<T>> {
    [Step.WritePart(KeyPart(record.key)), Step.WritePart(ValuePart(record.value))]
  }

  lemma NothingToWrite<T>(made: seq<Step<T>>)
    ensures Writes<T>(PartsOf([])) == [] && made + [] == made
  {
  }

  lemma {:induction false} WritesAppend<T>(a: seq<Part<T>>, b: seq<Part<T>>)
    ensures Writes(a + b) == Writes(a) + Writes(b)
  {
    if b == [] {
      assert a + b == a;
    } else {
      WritesAppend(a, b[..|b| - 1]);
      assert (a + b)[..|a + b| - 1] == a + b[..|b| - 1];
    }
  }

  /** The writes of the record at `i` come in front of the writes of the rest. */
  lemma WriteOneMore<T>(records: seq<Record<T>>, i: nat, made: seq<Step<T>>, done: seq<Step<T>>)
    requires i < |records|
    ensures Writes(PartsOf(records[i..])) == WritesOf(records[i]) + Writes(PartsOf(records[i + 1..]))
    ensures done + WritesOf(records[i]) + Writes(PartsOf(records[i + 1..])) == done + Writes(PartsOf(records[i..]))
    ensures made + done + WritesOf(records[i]) == made + (done + WritesOf(records[i]))
  {
    var r := records[i];
    assert records[i..][1..] == records[i + 1..];
    WritesAppend([KeyPart(r.key), ValuePart(r.value)], PartsOf(records[i + 1..]));
    WritesOfTwo(r);
  }

  lemma WritesOfTwo<T>(r: Record<T>)
    ensures Writes([KeyPart(r.key), ValuePart(r.value)]) == WritesOf(r)
  {
    var one: seq<Part<T>> := [KeyPart(r.key)];
    var two: seq<Part<T>> := [KeyPart(r.key), ValuePart(r.value)];
    assert two[..1] == one && one[..0] == [];
    assert Writes(one) == [Step.WritePart(one[0])];
    assert Writes(two) == Writes(one) + [Step.WritePart(two[1])];
  }

  /** What is listed so far, followed by any listing of what is left, lists the whole map. */
  ghost predicate Completes<T(!new)>(listing: seq<Record<T>>, left: map<Key, T>, data: map<Key, T>) {
    forall rest :: IsListing(rest, left) ==> IsListing(listing + rest, data)
  }

  lemma NothingListed<T(!new)>(data: map<Key, T>)
    ensures Completes([], data, data)
  {
    forall rest | IsListing(rest, data)
      ensures IsListing([] + rest, data)
    {
      assert [] + rest == rest;
    }
  }

  lemma ListedOneMore<T(!new)>(listing: seq<Record<T>>, left: map<Key, T>, data: map<Key, T>, key: Key)
    requires Completes(listing, left, data) && key in left
    ensures Completes(listing + [Record(key, left[key])], left - {key}, data)
  {
    forall rest | IsListing(rest, left - {key})
      ensures IsListing(listing + [Record(key, left[key])] + rest, data)
    {
      var more := [Record(key, left[key])] + rest;
      assert more[1..] == rest && IsListing(more, left);
      assert listing + [Record(key, left[key])] + rest == listing + more;
    }
  }

  lemma AllListed<T(!new)>(listing: seq<Record<T>>, data: map<Key, T>)
    requires Completes(listing, map[], data)
    ensures IsListing(listing, data)
  {
    assert IsListing<T>([], map[]) && listing + [] == listing;
  }

  class JournalingRAMDatabase<T(!new)> {
    const journalItemCountBeforeAutosave: uint32
    const files: Files<T>
    /** The value that a deletion is journaled with. */
    const zero: T
    var journalLen: uint32
    var data: map<Key, T>

    constructor (files: Files<T>, journalItemCountBeforeAutosave: uint32, zero: T)
      ensures data == map[] && journalLen == 0
      ensures this.files == files && this.zero == zero
      ensures this.journalItemCountBeforeAutosave == journalItemCountBeforeAutosave
    {
      this.files := files;
      this.journalItemCountBeforeAutosave := journalItemCountBeforeAutosave;
      this.zero := zero;
      journalLen := 0;
      data := map[];
    }

    ghost function Running(): Store<T>
      reads this, files
    {
      Store(files.Disk(), Some(Ram(data, journalLen)))
    }

    method Get(key: Key) returns (value: T)
      ensures value == if key in data then data[key] else zero
    {
      value := if key in data then data[key] else zero;
    }

    method GetData() returns (listing: seq<Record<T>>)
      ensures IsListing(listing, data)
    {
      listing := [];
      var left := data;
      NothingListed(data);
      while left != map[]
        invariant Completes(listing, left, data)
        decreases |left|
      {
        hide Completes;
        assert left.Keys != {};
        var key :| key in left.Keys;
        ListedOneMore(listing, left, data, key);
        listing := listing + [Record(key, left[key])];
        left := left - {key};
      }
      AllListed(listing, data);
    }

    /** Set and Delete: the operation, one journal entry, and a save when the journal is long enough. */
    method Set(key: Key, value: T) returns (ghost listing: seq<Record<T>>)
      modifies this, files
      ensures var s, call := old(Running()), SetValue(key, value);
              && IsListing(listing, data)
              && files.steps == old(files.steps) + StepsOf(journalItemCountBeforeAutosave, s, call, listing)
              && Event(journalItemCountBeforeAutosave, s, call, listing,
                       |StepsOf(journalItemCountBeforeAutosave, s, call, listing)|, Running())
    {
      data := data[key := value];
      listing := AppendToJournal(Entry(key, false, value));
      ghost var s, call := old(Running()), SetValue(key, value);
      ApplyOneMore(s.ram.value.data, [], EntriesOf(call)[0]);
      ghost var steps := StepsOf(journalItemCountBeforeAutosave, s, call, listing);
      assert steps[..|steps|] == steps;
    }

    method Delete(key: Key) returns (ghost listing: seq<Record<T>>)
      modifies this, files
      ensures var s, call := old(Running()), DeleteKey(key, zero);
              && IsListing(listing, data)
              && files.steps == old(files.steps) + StepsOf(journalItemCountBeforeAutosave, s, call, listing)
              && Event(journalItemCountBeforeAutosave, s, call, listing,
                       |StepsOf(journalItemCountBeforeAutosave, s, call, listing)|, Running())
    {
      data := data - {key};
      listing := AppendToJournal(Entry(key, true, zero));
      ghost var s, call := old(Running()), DeleteKey(key, zero);
      ApplyOneMore(s.ram.value.data, [], EntriesOf(call)[0]);
      ghost var steps := StepsOf(journalItemCountBeforeAutosave, s, call, listing);
      assert steps[..|steps|] == steps;
    }

    /** The steps of appendToJournal when it starts with a journal counter of `length`. */
    ghost function AppendSteps(e: Entry<T>, length: uint32, listing: seq<Record<T>>): seq<Step<T>> {
      [Step.OpenJournal, Step.AppendEntry(e)]
      + if Autosaves(journalItemCountBeforeAutosave, length) then SaveSteps(listing) else []
    }

    method AppendToJournal(operation: Entry<T>) returns (ghost listing: seq<Record<T>>)
      modifies this`journalLen, files
      ensures IsListing(listing, data)
      ensures var steps := AppendSteps(operation, old(journalLen), listing);
              files.steps == old(files.steps) + steps && files.Disk() == DoAll(old(files.Disk()), steps)
      ensures journalLen == if Autosaves(journalItemCountBeforeAutosave, old(journalLen)) then 0 else Wrap(old(journalLen) + 1)
    {
      hide DoAll, SaveSteps, IsListing;
      ghost var before := files.Disk();
      ghost var first := [Step.OpenJournal, Step.AppendEntry(operation)];
      files.OpenJournal();
      files.AppendEntry(operation);
      JournalingAppends(before, operation);
      journalLen := Wrap(journalLen + 1);
      var count := journalLen;
      if journalItemCountBeforeAutosave == 0 || journalItemCountBeforeAutosave > count {
        listing := GetData();
        assert first + [] == first;
        return;
      }
      listing := Save();
      DoAllSplits(before, first, SaveSteps(listing));
    }

    method Save() returns (ghost listing: seq<Record<T>>)
      modifies this`journalLen, files
      ensures IsListing(listing, data) && journalLen == 0
      ensures files.steps == old(files.steps) + SaveSteps(listing)
      ensures files.Disk() == DoAll(old(files.Disk()), SaveSteps(listing))
    {
      hide DoAll, Do, Writes, IsListing;
      ghost var before, logged := files.Disk(), files.steps;
      files.RemoveTmp();
      files.CreateTmp();
      ghost var two: seq<Step<T>> := [Step.RemoveTmp, Step.CreateTmp];
      DoOneAfterOther(before, Step.RemoveTmp, Step.CreateTmp);
      assert files.steps == logged + two;
      var records := GetData();
      listing := records;
      WriteRecords(records, before, two);
      ghost var prepare := two + Writes(PartsOf(records));
      assert files.steps == logged + prepare;
      files.RenameTmp();
      journalLen := 0;
      files.RemoveJournal();
      DoTwoMore(before, prepare, Step.RenameTmp, Step.RemoveJournal);
      assert prepare + [Step.RenameTmp, Step.RemoveJournal] == SaveSteps(listing);
    }

    /** The loop of Save: every key, then its value. */
    method WriteRecords(records: seq<Record<T>>, ghost before: JournalMeaning.Disk<T>, ghost made: seq<Step<T>>)
      requires files.Disk() == DoAll(before, made)
      modifies files
      ensures var writes := Writes(PartsOf(records));
              files.steps == old(files.steps) + writes && files.Disk() == DoAll(before, made + writes)
    {
      hide DoAll, Writes, PartsOf;
      ghost var done: seq<Step<T>> := [];
      NothingToWrite(made);
      assert records[0..] == records && records[|records|..] == [];
      assert done + Writes(PartsOf(records)) == Writes(PartsOf(records));
      for i := 0 to |records|
        invariant done + Writes(PartsOf(records[i..])) == Writes(PartsOf(records))
        invariant files.steps == old(files.steps) + done && files.Disk() == DoAll(before, made + done)
      {
        WriteRecord(records[i], before, made + done);
        WriteOneMore(records, i, made, done);
        done := done + WritesOf(records[i]);
      }
      assert done + [] == done;
    }

    method WriteRecord(record: Record<T>, ghost before: JournalMeaning.Disk<T>, ghost made: seq<Step<T>>)
      requires files.Disk() == DoAll(before, made)
      modifies files
      ensures files.steps == old(files.steps) + WritesOf(record) && files.Disk() == DoAll(before, made + WritesOf(record))
    {
      hide DoAll, Do;
      var key, value := KeyPart(record.key), ValuePart(record.value);
      files.WritePart(key);
      files.WritePart(value);
      DoTwoMore(before, made, Step.WritePart(key), Step.WritePart(value));
    }

    /** Load: the snapshot, then the journal over it, and a save if there was a journal. */
    method Load() returns (ghost listing: seq<Record<T>>)
      modifies this, files
      ensures var before := old(files.Disk());
              && data == LoadOver(old(data), before) && IsListing(listing, data)
              && var steps := if before.journal.Some? then SaveSteps(listing) else [];
                 files.steps == old(files.steps) + steps && files.Disk() == DoAll(before, steps)
      ensures journalLen == if old(files.journal).Some? then 0 else old(journalLen)
      ensures old(data) == map[] && old(journalLen) == 0 ==>
                var s, call := Store(old(files.Disk()), None), Call<T>.LoadFresh;
                Event(journalItemCountBeforeAutosave, s, call, listing,
                      |StepsOf(journalItemCountBeforeAutosave, s, call, listing)|, Running())
    {
      ghost var before := files.Disk();
      if files.db.Some? {
        LoadDatabase(files.db.value);
      }
      if files.journal.None? {
        listing := GetData();
        DoNothing(before);
        assert files.steps == files.steps + [];
      } else {
        LoadJournal(files.journal.value);
        listing := Save();
        assert [] + SaveSteps(listing) == SaveSteps(listing);
      }
      ghost var steps := StepsOf(journalItemCountBeforeAutosave, Store(before, None), Call<T>.LoadFresh, listing);
      assert steps[..|steps|] == steps;
    }

    method LoadDatabase(file: seq<Part<T>>)
      modifies this`data
      ensures data == LoadParts(old(data), file)
    {
      var at := 0;
      assert file[0..] == file;
      while true
        invariant 0 <= at <= |file| && LoadParts(data, file[at..]) == LoadParts(old(data), file)
        decreases |file| - at
      {
        if at == |file| || !file[at].KeyPart? {
          break;
        }
        var key := file[at].key;
        if at + 1 == |file| || !file[at + 1].ValuePart? {
          break;
        }
        assert file[at..][2..] == file[at + 2..];
        data := data[key := file[at + 1].value];
        at := at + 2;
      }
    }

    method LoadJournal(journal: seq<Entry<T>>)
      modifies this`data
      ensures data == ApplyAll(old(data), journal)
    {
      assert journal[..0] == [] && journal[..|journal|] == journal;
      for i := 0 to |journal|
        invariant data == ApplyAll(old(data), journal[..i])
      {
        ApplyOneMore(old(data), journal[..i], journal[i]);
        assert journal[..i + 1] == journal[..i] + [journal[i]];
        if journal[i].isDelete {
          data := data - {journal[i].key};
        } else {
          data := data[journal[i].key := journal[i].value];
        }
      }
    }
  }
}
