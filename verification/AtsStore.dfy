/**
 The persistent ATS state of packages/qcom-time-daemon/src/qcom-time-daemon.c: the in-memory
 record, the record file and its replacement through a temporary file.

 The flash file system is modelled down to what a power loss may leave behind.  A file whose data
 has not been synchronised may hold anything afterwards, and a rename that has not been
 synchronised may be lost.  Every system call leaves one entry in a ghost history: what a reader
 of the record file sees at that moment, and what one could see if the power failed then.  The power may fail at any
 system call; from then on calls fail and change nothing, until the AP boots from what flash has kept.
 */
module AtsStore {
  import opened Words
  import opened AtsRecordText
  import opened AtsClock

  const TMP_PATH_SIZE := 288

  datatype File = File(text: string, durable: bool)

  datatype Moment = Moment(live: Option<string>, ghost afterPowerLoss: iset<Option<string>>)

  /** May a reader that follows this directory entry after a power loss get this text (or no file)? */
  ghost predicate Yields(files: map<nat, File>, e: Option<nat>, t: Option<string>) {
    if e.None? || e.value !in files then t == None
    else t.Some? && (files[e.value].durable ==> t.value == files[e.value].text)
  }

  ghost predicate MayYield(files: map<nat, File>, entries: set<Option<nat>>, t: Option<string>) {
    exists e :: e in entries && Yields(files, e, t)
  }

  ghost function Outcomes(files: map<nat, File>, entries: set<Option<nat>>): iset<Option<string>> {
    iset t: Option<string> | MayYield(files, entries, t)
  }

  ghost predicate DirectoryOk(files: map<nat, File>, nextInode: nat, recordEntry: Option<nat>, tempEntry: Option<nat>,
                              entriesOnFlash: set<Option<nat>>)
  {
    && (recordEntry.Some? ==> recordEntry.value in files)
    && (tempEntry.Some? ==> tempEntry.value in files)
    && recordEntry in entriesOnFlash
    && (forall e :: e in entriesOnFlash && e.Some? ==> e.value in files)
    && (tempEntry.Some? ==> tempEntry !in entriesOnFlash)
    && (forall i :: i in files ==> i < nextInode)
  }

  /** No file, or the text of a record the program has written. */
  ghost predicate Known(t: Option<string>, versions: set<Record>) {
    t.Some? ==> exists r :: r in versions && t.value == Format(r)
  }

  /**
   What a reader sees, and what it may see after a power loss, comes from the program, as long as it owns the file and
   no synchronisation of data has failed.
   */
  ghost predicate VersionsOk(live: Option<string>, outcomes: iset<Option<string>>, versions: set<Record>, foreign: bool,
                             syncFailed: bool)
  {
    && (!foreign ==> Known(live, versions))
    && (!foreign && !syncFailed ==> forall t :: t in outcomes ==> Known(t, versions))
  }

  lemma OneMoreVersion(live: Option<string>, outcomes: iset<Option<string>>, versions: set<Record>, foreign: bool,
                       syncFailed: bool, p: Record)
    requires VersionsOk(live, outcomes, versions, foreign, syncFailed)
    ensures VersionsOk(Some(Format(p)), outcomes + iset{Some(Format(p))}, versions + {p}, foreign, syncFailed)
  {
    hide Format;
    forall t | Known(t, versions) ensures Known(t, versions + {p}) {
    }
    assert p in versions + {p};
  }

  lemma FewerOutcomes(live: Option<string>, outcomes: iset<Option<string>>, outcomes': iset<Option<string>>,
                      versions: set<Record>, foreign: bool, syncFailed: bool, syncFailed': bool)
    requires VersionsOk(live, outcomes, versions, foreign, syncFailed) && (syncFailed ==> syncFailed')
    requires syncFailed' || outcomes' <= outcomes
    ensures VersionsOk(live, outcomes', versions, foreign, syncFailed')
  {
  }

  /** Files no entry on flash leads to do not matter. */
  lemma SameOutcomes(before: map<nat, File>, after: map<nat, File>, entries: set<Option<nat>>)
    requires forall e :: e in entries && e.Some? ==> e.value in before && e.value in after && before[e.value] == after[e.value]
    ensures Outcomes(before, entries) == Outcomes(after, entries)
  {
    forall t: Option<string> ensures MayYield(before, entries, t) <==> MayYield(after, entries, t) {
      if MayYield(before, entries, t) {
        var e :| e in entries && Yields(before, e, t);
        assert Yields(after, e, t);
      }
      if MayYield(after, entries, t) {
        var e :| e in entries && Yields(after, e, t);
        assert Yields(before, e, t);
      }
    }
  }

  lemma OutcomesWithDurable(files: map<nat, File>, entries: set<Option<nat>>, inode: nat)
    requires inode in files && files[inode].durable
    ensures Outcomes(files, entries + {Some(inode)}) == Outcomes(files, entries) + iset{Some(files[inode].text)}
  {
    var text := files[inode].text;
    forall t: Option<string>
      ensures MayYield(files, entries + {Some(inode)}, t) <==> MayYield(files, entries, t) || t == Some(text)
    {
      if MayYield(files, entries, t) {
        var e :| e in entries && Yields(files, e, t);
        assert e in entries + {Some(inode)};
      }
      assert Some(inode) in entries + {Some(inode)} && Yields(files, Some(inode), Some(text));
    }
  }

  /** Without the synchronisation a renamed file may read as anything after a power loss. */
  lemma OutcomesWithoutSync(files: map<nat, File>, entries: set<Option<nat>>, inode: nat, text: string)
    requires inode in files && !files[inode].durable
    ensures Some(text) in Outcomes(files, entries + {Some(inode)})
  {
    assert Some(inode) in entries + {Some(inode)} && Yields(files, Some(inode), Some(text));
  }

  lemma NoFileIsKnown(files: map<nat, File>, entries: set<Option<nat>>)
    ensures entries == {None} ==> forall t :: t in Outcomes(files, entries) ==> t == None
  {
  }

  lemma OneOutcome(files: map<nat, File>, entries: set<Option<nat>>, content: Option<string>)
    requires files == if content.Some? then map[0 := File(content.value, true)] else map[]
    requires entries == {if content.Some? then Some(0) else None}
    ensures forall t :: t in Outcomes(files, entries) ==> t == content
  {
  }

  lemma FewerEntries(files: map<nat, File>, a: set<Option<nat>>, b: set<Option<nat>>)
    requires a <= b
    ensures Outcomes(files, a) <= Outcomes(files, b)
  {
    forall t: Option<string> | MayYield(files, a, t) ensures MayYield(files, b, t) {
      var e :| e in a && Yields(files, e, t);
      assert e in b;
    }
  }

  lemma OnlyOutcome(files: map<nat, File>, e: Option<nat>)
    ensures e.Some? && e.value in files && files[e.value].durable ==> Outcomes(files, {e}) == iset{Some(files[e.value].text)}
  {
    if e.Some? && e.value in files && files[e.value].durable {
      forall t: Option<string> ensures MayYield(files, {e}, t) <==> t == Some(files[e.value].text) {
        assert e in {e};
        assert t == Some(files[e.value].text) ==> Yields(files, e, t);
      }
    }
  }

  class Store {
    // the program's variables
    const enabled: bool
    const pathLength: nat
    var loaded: bool
    var state: Record

    // the file system: inodes, the two directory entries, and what flash may hold for the record's entry
    var files: map<nat, File>
    var nextInode: nat
    var recordEntry: Option<nat>
    var tempEntry: Option<nat>
    var entriesOnFlash: set<Option<nat>>

    // the power has failed
    var dead: bool

    // the records the program has written so far, in this boot or an earlier one, and whether others may have written the file
    ghost var versions: set<Record>
    ghost const foreign: bool

    // every system call so far, and whether one of the data synchronisations failed
    ghost var history: seq<Moment>
    ghost var syncFailed: bool

    // system calls whose failure the program notices, and synchronisations of the directory that failed without notice
    ghost var faults: nat
    ghost var directoryFaults: nat

    /** What reading the record file gives now. */
    function Live(): Option<string>
      reads this
    {
      if recordEntry.Some? && recordEntry.value in files then Some(files[recordEntry.value].text) else None
    }

    ghost predicate Valid()
      reads this
    {
      && DirectoryOk(files, nextInode, recordEntry, tempEntry, entriesOnFlash)
      && VersionsOk(Live(), Outcomes(files, entriesOnFlash), versions, foreign, syncFailed)
    }

    /** What reading the record file may give after a power loss. */
    ghost function AfterPowerLoss(): iset<Option<string>>
      requires Valid()
      reads this
    {
      Outcomes(files, entriesOnFlash)
    }

    /** The record's file has been synchronised. */
    ghost predicate Synced()
      reads this
    {
      recordEntry.Some? && recordEntry.value in files && files[recordEntry.value].durable
    }

    /** The record's file has not been synchronised. */
    ghost predicate Unsynced()
      reads this
    {
      recordEntry.Some? && recordEntry in entriesOnFlash && recordEntry.value in files && !files[recordEntry.value].durable
    }

    /** Its text may then be anything after a power loss. */
    lemma AnythingAfterLoss()
      requires Valid() && Unsynced()
      ensures forall text :: Some(text) in AfterPowerLoss()
    {
      forall text ensures Some(text) in AfterPowerLoss() {
        OutcomesWithoutSync(files, entriesOnFlash, recordEntry.value, text);
        assert entriesOnFlash + {recordEntry} == entriesOnFlash;
      }
    }

    /** With every synchronisation done it is never the empty text. */
    lemma NotEverythingAfterLoss()
      requires Valid() && !foreign && !syncFailed
      ensures Some("") !in AfterPowerLoss()
    {
      hide Format;
      if Some("") in AfterPowerLoss() {
        var r :| r in versions && "" == Format(r);
        FormatFits(r);
      }
    }

    /** A record file nobody vouches for, or none. */
    constructor (enabled: bool, pathLength: nat, content: Option<string>)
      ensures Valid() && Live() == content && !loaded && history == [] && !syncFailed && !dead && versions == {}
      ensures this.enabled == enabled && this.pathLength == pathLength && foreign == content.Some?
    {
      versions, foreign, dead := {}, content.Some?, false;
      this.enabled, this.pathLength := enabled, pathLength;
      loaded, state := false, Record(0, 0, 0, 0, 0, 0);
      files := if content.Some? then map[0 := File(content.value, true)] else map[];
      nextInode := 1;
      recordEntry := if content.Some? then Some(0) else None;
      entriesOnFlash := {if content.Some? then Some(0) else None};
      tempEntry := None;
      history, syncFailed, faults, directoryFaults := [], false, 0, 0;
      new;
      NoFileIsKnown(files, entriesOnFlash);
    }

    /** The AP boots after a power loss, from what flash may have kept. */
    constructor AfterLoss(before: Store)
      requires before.Valid()
      ensures Valid() && !loaded && !dead && history == [] && !syncFailed
      ensures Live() in before.AfterPowerLoss()
      ensures versions == before.versions && foreign == (before.foreign || before.syncFailed)
      ensures enabled == before.enabled && pathLength == before.pathLength
    {
      var e :| e in before.entriesOnFlash;
      var content: Option<string> := None;
      if e.Some? {
        var kept: string := *;
        content := Some(if before.files[e.value].durable then before.files[e.value].text else kept);
      }
      assert Yields(before.files, e, content);
      versions, foreign, dead := before.versions, before.foreign || before.syncFailed, false;
      enabled, pathLength := before.enabled, before.pathLength;
      loaded, state := false, Record(0, 0, 0, 0, 0, 0);
      files := if content.Some? then map[0 := File(content.value, true)] else map[];
      nextInode := 1;
      recordEntry := if content.Some? then Some(0) else None;
      entriesOnFlash := {if content.Some? then Some(0) else None};
      tempEntry := None;
      history, syncFailed, faults, directoryFaults := [], false, 0, 0;
      new;
      OneOutcome(files, entriesOnFlash, content);
    }

    // ----- system calls -----

    /** The power may fail now. */
    method Fail()
      modifies this`dead
      ensures old(dead) ==> dead
    {
      var now: bool := *;
      dead := dead || now;
    }

    ghost method Note()
      requires Valid()
      modifies this`history
      ensures history == old(history) + [Moment(Live(), AfterPowerLoss())]
    {
      history := history + [Moment(Live(), AfterPowerLoss())];
    }

    /** open(tmp, O_WRONLY | O_CREAT | O_TRUNC) */
    method OpenTemp() returns (ok: bool)
      requires Valid()
      modifies this`files, this`nextInode, this`tempEntry, this`history, this`dead, this`faults
      ensures faults == old(faults) + if ok then 0 else 1
      ensures Valid() && Live() == old(Live()) && AfterPowerLoss() == old(AfterPowerLoss())
      ensures ok ==> tempEntry.Some? && files[tempEntry.value] == File("", false)
      ensures history == old(history) + [Moment(Live(), AfterPowerLoss())]
    {
      hide VersionsOk, Outcomes;
      Fail();
      ok := *;
      ok := ok && !dead;
      if ok {
        if tempEntry.None? {
          tempEntry, nextInode := Some(nextInode), nextInode + 1;
        }
        files := files[tempEntry.value := File("", false)];
      }
      faults := faults + if ok then 0 else 1;
      SameOutcomes(old(files), files, entriesOnFlash);
      Note();
    }

    /** write(fd, buf, len): any part of the text may get written, and the call may fail. */
    method WriteTemp(text: string) returns (count: int)
      requires Valid() && tempEntry.Some?
      modifies this`files, this`history, this`dead, this`faults
      ensures faults == old(faults) + if count == |text| then 0 else 1
      ensures Valid() && Live() == old(Live()) && AfterPowerLoss() == old(AfterPowerLoss())
      ensures count == |text| ==> files[tempEntry.value].text == text
      ensures history == old(history) + [Moment(Live(), AfterPowerLoss())]
    {
      hide VersionsOk, Outcomes;
      Fail();
      count := *;
      if 0 <= count <= |text| && !dead {
        files := files[tempEntry.value := File(text[..count], false)];
        assert count == |text| ==> text[..count] == text;
      } else {
        count := -1;
      }
      faults := faults + if count == |text| then 0 else 1;
      SameOutcomes(old(files), files, entriesOnFlash);
      Note();
    }

    /** fsync(fd), whose result the program does not look at. */
    method SyncTemp()
      requires Valid() && tempEntry.Some?
      modifies this`files, this`history, this`syncFailed, this`dead
      ensures Valid() && Live() == old(Live()) && AfterPowerLoss() == old(AfterPowerLoss())
      ensures files[tempEntry.value].text == old(files[tempEntry.value].text)
      ensures (old(syncFailed) ==> syncFailed) && (dead || syncFailed || files[tempEntry.value].durable)
      ensures !dead && !old(syncFailed) ==> (files[tempEntry.value].durable <==> !syncFailed)
      ensures history == old(history) + [Moment(Live(), AfterPowerLoss())]
    {
      hide VersionsOk, Outcomes;
      Fail();
      var ok: bool := *;
      FewerOutcomes(Live(), AfterPowerLoss(), AfterPowerLoss(), versions, foreign, syncFailed, syncFailed || !ok);
      if !dead {
        files := files[tempEntry.value := File(files[tempEntry.value].text, ok)];
        syncFailed := syncFailed || !ok;
      }
      SameOutcomes(old(files), files, entriesOnFlash);
      Note();
    }

    /** rename(tmp, record) */
    method RenameTemp(ghost p: Record) returns (ok: bool)
      requires Valid() && tempEntry.Some? && files[tempEntry.value].text == Format(p)
      requires dead || syncFailed || files[tempEntry.value].durable
      modifies this`recordEntry, this`tempEntry, this`entriesOnFlash, this`history, this`versions, this`dead, this`faults
      ensures faults == old(faults) + if ok then 0 else 1
      ensures Valid() && versions == if ok then old(versions) + {p} else old(versions)
      ensures !ok ==> Live() == old(Live()) && AfterPowerLoss() == old(AfterPowerLoss()) && tempEntry == old(tempEntry)
      ensures ok ==> tempEntry.None? && !old(dead)
      ensures ok ==> Live() == Some(old(files[tempEntry.value].text))
      ensures ok && old(files[tempEntry.value].durable) ==> AfterPowerLoss() == old(AfterPowerLoss()) + iset{Live()}
      ensures ok && !old(files[tempEntry.value].durable) ==> Unsynced()
      ensures ok && old(files[tempEntry.value].durable) ==> Synced()
      ensures history == old(history) + [Moment(Live(), AfterPowerLoss())]
    {
      hide VersionsOk, Outcomes, Format;
      Fail();
      ok := *;
      ok := ok && !dead;
      if ok {
        ghost var outcomes := Outcomes(files, entriesOnFlash);
        OneMoreVersion(Live(), outcomes, versions, foreign, syncFailed, p);
        if files[tempEntry.value].durable {
          OutcomesWithDurable(files, entriesOnFlash, tempEntry.value);
        }
        FewerOutcomes(Some(Format(p)), outcomes + iset{Some(Format(p))}, Outcomes(files, entriesOnFlash + {tempEntry}),
                      versions + {p}, foreign, syncFailed, syncFailed);
        recordEntry := tempEntry;
        versions := versions + {p};
        entriesOnFlash := entriesOnFlash + {tempEntry};
        tempEntry := None;
      }
      faults := faults + if ok then 0 else 1;
      Note();
    }

    /** unlink(tmp) */
    method UnlinkTemp()
      requires Valid()
      modifies this`tempEntry, this`history, this`dead
      ensures dead || tempEntry.None?
      ensures Valid() && Live() == old(Live()) && AfterPowerLoss() == old(AfterPowerLoss())
      ensures history == old(history) + [Moment(Live(), AfterPowerLoss())]
    {
      hide VersionsOk, Outcomes;
      Fail();
      if !dead {
        tempEntry := None;
      }
      Note();
    }

    /** fsync of the directory: the rename is on flash. */
    method SyncDirectory() returns (ok: bool)
      requires Valid()
      modifies this`entriesOnFlash, this`history, this`dead, this`directoryFaults
      ensures directoryFaults == old(directoryFaults) + if ok then 0 else 1
      ensures Valid() && Live() == old(Live()) && AfterPowerLoss() <= old(AfterPowerLoss())
      ensures (old(Unsynced()) ==> Unsynced()) && (old(Synced()) ==> Synced()) && (ok && Synced() ==> AfterPowerLoss() == iset{Live()})
      ensures ok ==> forall e :: e in entriesOnFlash ==> e == recordEntry
      ensures history == old(history) + [Moment(Live(), AfterPowerLoss())]
    {
      hide VersionsOk, Outcomes;
      Fail();
      ok := *;
      ok := ok && !dead;
      directoryFaults := directoryFaults + if ok then 0 else 1;
      if ok {
        FewerEntries(files, {recordEntry}, entriesOnFlash);
        OnlyOutcome(files, recordEntry);
        FewerOutcomes(Live(), Outcomes(files, entriesOnFlash), Outcomes(files, {recordEntry}), versions, foreign,
          syncFailed, syncFailed);
        entriesOnFlash := {recordEntry};
      }
      Note();
    }

    // ----- the program -----

    /**
     `ats_state_save`.  While it runs, and when it returns either way, the record file holds the
     complete old text or the complete new one.  If the data synchronisation worked, a power loss at
     any moment leaves one of the two as well; if it failed, which the code does not notice, 0 is
     returned all the same and a power loss may leave any text.
     */
    method Save(p: Record) returns (r: int)
      requires Valid()
      modifies this`files, this`nextInode, this`recordEntry, this`tempEntry, this`entriesOnFlash, this`history,
        this`syncFailed, this`versions, this`dead, this`faults, this`directoryFaults
      ensures old(faults) <= faults && (r == -1 && enabled && pathLength + 5 <= 288 ==> faults > old(faults))
      ensures Valid() && (r == 0 || r == -1) && versions == if r == 0 then old(versions) + {p} else old(versions)
      ensures Live() == if r == 0 then Some(Format(p)) else old(Live())
      ensures old(history) <= history && (old(syncFailed) ==> syncFailed)
      ensures forall i :: |old(history)| <= i < |history| ==>
                history[i].live == old(Live()) || history[i].live == Some(Format(p))
      ensures !syncFailed ==> forall i :: |old(history)| <= i < |history| ==>
                history[i].afterPowerLoss <= old(AfterPowerLoss()) + iset{Some(Format(p))}
      ensures r == -1 ==> AfterPowerLoss() == old(AfterPowerLoss())
      ensures r == 0 && !syncFailed ==> AfterPowerLoss() <= old(AfterPowerLoss()) + iset{Some(Format(p))}
      ensures r == 0 && !syncFailed && directoryFaults == old(directoryFaults) ==> AfterPowerLoss() == iset{Some(Format(p))}
      ensures r == 0 && !old(syncFailed) && syncFailed ==> forall text :: Some(text) in AfterPowerLoss()
      ensures r == 0 && !old(syncFailed) && !foreign ==> (Some("") in AfterPowerLoss() <==> syncFailed)
      ensures !enabled || pathLength + 5 > 288 ==> r == -1 && history == old(history)
    {
      if !enabled || pathLength + 5 > TMP_PATH_SIZE {
        return -1;
      }
      hide Format, DirectoryOk, VersionsOk, Outcomes;
      FormatFits(p);
      var buf := Format(p);
      if |buf| == 0 || |buf| >= 512 {
        return -1;
      }
      var isOpen := OpenTemp();
      if !isOpen {
        return -1;
      }
      r := Replace(buf, p);
      if !foreign && !syncFailed {
        NotEverythingAfterLoss();
      }
    }

    /** The open temporary file is filled, synchronised and renamed over the record file, or removed. */
    method Replace(buf: string, ghost p: Record) returns (r: int)
      requires Valid() && tempEntry.Some? && buf == Format(p)
      modifies this`files, this`recordEntry, this`tempEntry, this`entriesOnFlash, this`history, this`syncFailed,
        this`versions, this`dead,
        this`faults, this`directoryFaults
      ensures old(faults) <= faults && (r == -1 ==> faults > old(faults))
      ensures Valid() && (r == 0 || r == -1) && versions == if r == 0 then old(versions) + {p} else old(versions)
      ensures dead || tempEntry.None?
      ensures Live() == if r == 0 then Some(Format(p)) else old(Live())
      ensures old(history) <= history && (old(syncFailed) ==> syncFailed)
      ensures forall i :: |old(history)| <= i < |history| ==>
                history[i].live == old(Live()) || history[i].live == Some(Format(p))
      ensures !syncFailed ==> forall i :: |old(history)| <= i < |history| ==>
                history[i].afterPowerLoss <= old(AfterPowerLoss()) + iset{Some(Format(p))}
      ensures r == -1 ==> AfterPowerLoss() == old(AfterPowerLoss())
      ensures r == 0 && !syncFailed ==> AfterPowerLoss() <= old(AfterPowerLoss()) + iset{Some(Format(p))}
      ensures r == 0 && !syncFailed && directoryFaults == old(directoryFaults) ==> AfterPowerLoss() == iset{Some(Format(p))}
      ensures r == 0 && !old(syncFailed) && syncFailed ==> forall text :: Some(text) in AfterPowerLoss()
    {
      hide Format, DirectoryOk, VersionsOk, Outcomes, Unsynced, Synced;
      var count := WriteTemp(buf);
      if count != |buf| {
        UnlinkTemp();
        return -1;
      }
      r := Install(p);
    }

    /** The filled file is synchronised and renamed over the record file, and the rename synchronised. */
    method Install(ghost p: Record) returns (r: int)
      requires Valid() && tempEntry.Some? && files[tempEntry.value].text == Format(p)
      modifies this`files, this`recordEntry, this`tempEntry, this`entriesOnFlash, this`history, this`syncFailed,
        this`versions, this`dead,
        this`faults, this`directoryFaults
      ensures old(faults) <= faults && (r == -1 ==> faults > old(faults))
      ensures Valid() && (r == 0 || r == -1) && versions == if r == 0 then old(versions) + {p} else old(versions)
      ensures dead || tempEntry.None?
      ensures Live() == if r == 0 then Some(Format(p)) else old(Live())
      ensures old(history) <= history && (old(syncFailed) ==> syncFailed)
      ensures forall i :: |old(history)| <= i < |history| ==>
                history[i].live == old(Live()) || history[i].live == Some(Format(p))
      ensures !syncFailed ==> forall i :: |old(history)| <= i < |history| ==>
                history[i].afterPowerLoss <= old(AfterPowerLoss()) + iset{Some(Format(p))}
      ensures r == -1 ==> AfterPowerLoss() == old(AfterPowerLoss())
      ensures r == 0 && !syncFailed ==> AfterPowerLoss() <= old(AfterPowerLoss()) + iset{Some(Format(p))}
      ensures r == 0 && !syncFailed && directoryFaults == old(directoryFaults) ==> AfterPowerLoss() == iset{Some(Format(p))}
      ensures r == 0 && !old(syncFailed) && syncFailed ==> forall text :: Some(text) in AfterPowerLoss()
    {
      hide Format, DirectoryOk, VersionsOk, Outcomes, Unsynced, Synced;
      SyncTemp();
      var renamed := RenameTemp(p);
      if !renamed {
        UnlinkTemp();
        return -1;
      }
      var _ := SyncDirectory();
      if !old(syncFailed) && syncFailed {
        AnythingAfterLoss();
      }
      return 0;
    }

    /** `ats_state_load`: on failure the fields parsed so far have been stored, but the record does not count. */
    method Load() returns (r: int)
      requires Valid()
      modifies this`loaded, this`state, this`faults
      ensures (loaded <==> r == 0) && (r == 0 || r == -1)
      ensures r == -1 && enabled && Live().Some? && LoadFile(Live().value).Some? ==> faults > old(faults)
      ensures r == 0 ==> Live().Some? && LoadFile(Live().value) == Some(state)
      ensures r == 0 ==> state.base == ATS_USER && (!foreign ==> state in versions)
      ensures !enabled || Live().None? || LoadFile(Live().value).None? ==> r == -1
    {
      hide Parse, DirectoryOk, Format, Outcomes;
      loaded := false;
      if !enabled || Live().None? {
        return -1;
      }
      var readable: bool := *;
      if !readable {
        faults := faults + 1;
        return -1;
      }
      var parsed := LoadFile(Live().value);
      match parsed {
        case None =>
          state := *;
          return -1;
        case Some(record) =>
          LoadedBase(Live().value);
          if !foreign {
            var r :| r in versions && Live().value == Format(r);
            LoadOfSaved(r);
          }
          state := record;
          loaded := true;
          return 0;
      }
    }

    /** The AP restarts in order: memory is lost, the file system stays. */
    method PowerCycle()
      requires Valid()
      modifies this`loaded
      ensures Valid() && !loaded
    {
      loaded := false;
    }

    /** The record the program may rely on. */
    function Saved(): Option<Record>
      reads this
    {
      if loaded then Some(state) else None
    }

    /** `ats_state_note_handshake`: the in-memory record changes exactly when the file was replaced. */
    method NoteHandshake(rtc: u64, wall: u64, offset: u64, isRefresh: bool) returns (saved: bool)
      requires Valid()
      modifies this
      ensures Valid() && old(history) <= history
      ensures !saved ==> Saved() == old(Saved()) && Live() == old(Live())
      ensures saved ==> enabled && Live() == Some(Format(state))
      ensures old(faults) <= faults
      ensures enabled && pathLength + 5 <= 288 && !saved ==>
                || faults > old(faults)
                || (isRefresh && old(Saved()).Some? && old(Saved()).value.offset == offset)
      ensures versions == if saved then old(versions) + {state} else old(versions)
      ensures saved ==>
                && Saved() == Some(state)
                && state.(syncedAt := 0) == Record(ATS_USER, offset, rtc, wall, AsSigned64(Sub64(wall, rtc)), 0)
      ensures isRefresh && old(Saved()).Some? && old(Saved()).value.offset == offset ==> !saved && history == old(history)
    {
      hide Format, DirectoryOk, VersionsOk, Outcomes;
      if !enabled {
        return false;
      }
      var changed := !loaded || state.offset != offset;
      if isRefresh && !changed {
        return false;
      }
      var syncedAt: u64 := *;
      var rec := Record(ATS_USER, offset, rtc, wall, AsSigned64(Sub64(wall, rtc)), syncedAt);
      var r := Save(rec);
      if r == 0 {
        state := rec;
        loaded := true;
        return true;
      }
      return false;
    }
  }
}
