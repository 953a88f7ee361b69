/** The durable journal store (crates/executor/src/journal_store.rs).

    `disk` is what the directory holds; every system call that changes it is one step and
    is appended to `trace`, so a contract about `trace` is a contract about every instant
    at which a crash can happen. On a `faulty` store any call may fail: I/O errors, failed
    syncs, and every "changed during inspection" outcome of the watches and identity
    checks. On a store that is not faulty the contracts say exactly when a call succeeds. */
module JournalStore {
  import opened Wrappers
  import opened Journals
  import opened JournalValidator
  import opened JournalUpdates
  import opened EntryNames
  import opened Disks
  import opened StoreStates
  import opened CrashSafety
  import opened RecordCreation

  datatype StoreError =
    | InvalidJournalId
    | InvalidRecord(defect: Defect)
    | NotAnExtension
    | UnexpectedEntry
    | HistoryMismatch
    | AlreadyExists(id: Digest)
    | NotFound(id: Digest)
    | NotRegularFile
    | IdMismatch
    | TooLarge
    | Undecodable
    | ChangedDuringInspection
    | Io

  /** The disks the staging part of either operation passes through. */
  ghost function PassedStaging(d: Disk, u: Update, steps: nat): seq<Disk> {
    seq(steps, i requires 0 <= i < steps => StagedDisk(d, u, i + 1))
  }

  /** The disks an update passes through in its first steps. */
  ghost function Passed(d: Disk, u: Update, steps: nat): seq<Disk> {
    seq(steps, i requires 0 <= i < steps => UpdateDisk(d, u, i + 1))
  }

  /** The disks the creation of a record passes through in its first steps. */
  ghost function PassedNew(d: Disk, u: Update, steps: nat): seq<Disk> {
    seq(steps, i requires 0 <= i < steps => CreateDisk(d, u, i + 1))
  }

  lemma StagingIsCommon(d: Disk, u: Update, steps: nat)
    requires steps <= 4
    ensures PassedStaging(d, u, steps) == Passed(d, u, steps) == PassedNew(d, u, steps)
  {
  }

  lemma PassedNext(d: Disk, u: Update, steps: nat)
    ensures Passed(d, u, steps + 1) == Passed(d, u, steps) + [UpdateDisk(d, u, steps + 1)]
  {
  }

  lemma PassedNewNext(d: Disk, u: Update, steps: nat)
    ensures PassedNew(d, u, steps + 1) == PassedNew(d, u, steps) + [CreateDisk(d, u, steps + 1)]
  {
  }

  lemma LiveExchanged(d: Disk, u: Update)
    requires u.temp.Staging? && u.temp !in Live(d) && u.Final() in Live(d)
    ensures Live(UpdateDisk(d, u, 4)) == StagedNames(Live(d), u)
    ensures Live(UpdateDisk(d, u, 5)) == ExchangedNames(Live(d), u)
    ensures UpdateDisk(d, u, 5).files == WithStaged(d.files, u)
  {
    UpdateLive(d, u, 4);
    UpdateLive(d, u, 5);
    UpdateFiles(d, u, 5);
  }

  /** Right after the exchange the staging name holds the displaced record and the primary
      name the new one, unless its newline takes it over the limit. */
  lemma LoadExchanged(d: Disk, u: Update)
    requires UpdateReady(Live(d), d.files, u)
    ensures var after := UpdateDisk(d, u, 5);
            && Load(Live(after), after.files, u.temp, u.next.journalId) == Some(u.expected)
            && Load(Live(after), after.files, u.Final(), u.next.journalId)
               == (if u.encoded < MAX_JOURNAL_BYTES then Some(u.next) else None)
            && Live(after) == ExchangedNames(Live(d), u)
  {
    LiveExchanged(d, u);
    var exchanged := ExchangedNames(Live(d), u);
    assert SingleLink(Live(d), u.Final());
    assert SingleLink(exchanged, u.temp) && SingleLink(exchanged, u.Final());
  }

  /** What the exchange of a staged record meets. */
  predicate ExchangeOutcome(d: Disk, u: Update) {
    && u.temp in Live(UpdateDisk(d, u, 4)) && u.Final() in Live(UpdateDisk(d, u, 4))
    && var after := UpdateDisk(d, u, 5);
       && Load(Live(after), after.files, u.temp, u.expected.journalId) == Some(u.expected)
       && Load(Live(after), after.files, u.Final(), u.next.journalId)
          == (if u.encoded < MAX_JOURNAL_BYTES then Some(u.next) else None)
  }

  lemma ExchangeFacts(d: Disk, u: Update)
    requires UpdateReady(Live(d), d.files, u)
    ensures ExchangeOutcome(d, u)
  {
    LiveExchanged(d, u);
    LoadExchanged(d, u);
  }

  /** Before the archive rename: the staging name is there, the archive name as before. */
  lemma NamesBeforeArchive(d: Disk, u: Update)
    requires UpdateReady(Live(d), d.files, u)
    ensures var names := Live(UpdateDisk(d, u, 6));
            u.temp in names && (u.Archive() in names <==> u.Archive() in Live(d))
  {
    LoadExchanged(d, u);
    LiveAfter(UpdateDisk(d, u, 5), Move(u.temp, u.Archive()), u.inode, File(Torn, false));
  }

  /** After the last step both names hold what they should. */
  lemma LoadArchived(d: Disk, u: Update)
    requires UpdateReady(Live(d), d.files, u) && u.Archive() !in Live(d)
    requires u.encoded < MAX_JOURNAL_BYTES
    ensures var after := UpdateDisk(d, u, 8);
            && Load(Live(after), after.files, u.Archive(), u.next.journalId) == Some(u.expected)
            && Load(Live(after), after.files, u.Final(), u.next.journalId) == Some(u.next)
  {
    UpdateLive(d, u, 8);
    UpdateFiles(d, u, 8);
    LoadFinal(Live(d), d.files, u);
  }

  /** Right after publication the primary name holds the new record, if it fits. */
  lemma LoadCreated(d: Disk, u: Update)
    requires CreateReady(Live(d), d.files, u) && u.Final() !in Live(d)
    ensures var after := CreateDisk(d, u, 5);
            Load(Live(after), after.files, u.Final(), u.next.journalId)
            == if u.encoded < MAX_JOURNAL_BYTES then Some(u.next) else None
  {
    CreateLive(d, u, 5);
    UpdateFiles(d, u, 5);
    LoadPublished(Live(d), d.files, u);
  }

  /** What the two archive steps meet when the exchange is behind them. */
  predicate ArchiveOutcome(d: Disk, u: Update) {
    && u.temp in Live(UpdateDisk(d, u, 6))
    && (u.Archive() in Live(UpdateDisk(d, u, 6)) <==> u.Archive() in Live(d))
    && (u.Archive() !in Live(d) ==>
          var after := UpdateDisk(d, u, 8);
          && Load(Live(after), after.files, u.Archive(), u.expected.journalId) == Some(u.expected)
          && Load(Live(after), after.files, u.Final(), u.next.journalId) == Some(u.next))
  }

  lemma ArchiveFacts(d: Disk, u: Update)
    requires UpdateReady(Live(d), d.files, u) && u.encoded < MAX_JOURNAL_BYTES
    ensures ArchiveOutcome(d, u)
  {
    NamesBeforeArchive(d, u);
    if u.Archive() !in Live(d) { LoadArchived(d, u); }
  }

  /** What publication of a staged record meets. */
  predicate PublishOutcome(d: Disk, u: Update) {
    && Live(StagedDisk(d, u, 4)) == StagedNames(Live(d), u) && u.temp.Staging?
    && (u.Final() !in Live(d) ==>
          var after := CreateDisk(d, u, 5);
          Load(Live(after), after.files, u.Final(), u.next.journalId)
          == if u.encoded < MAX_JOURNAL_BYTES then Some(u.next) else None)
  }

  lemma PublishFacts(d: Disk, u: Update)
    requires CreateReady(Live(d), d.files, u)
    ensures PublishOutcome(d, u)
  {
    StagedLive(d, u, 4);
    if u.Final() !in Live(d) { LoadCreated(d, u); }
  }

  /** Every name leads to a file. */
  predicate Consistent(d: Disk) {
    forall name :: name in Live(d) ==> Live(d)[name] in d.files
  }

  /** Second pass of `all`: every archived record must match the current one of its ID. */
  method MatchArchive(ghost names: Names, ghost files: map<Inode, File>,
                      journals: map<Digest, Journal>, history: map<Name, Journal>)
    returns (matched: bool)
    requires forall id :: id in journals <==> Primary(id) in names
    requires forall id :: id in journals ==> Load(names, files, Primary(id), id) == Some(journals[id])
    requires forall name :: name in history ==> name.History?
    requires forall name :: name in history ==> Load(names, files, name, name.id) == Some(history[name])
    ensures matched <==> forall name :: name in history ==> ArchiveMatches(names, files, name)
  {
    var unmatched := history.Keys;
    while unmatched != {}
      invariant unmatched <= history.Keys
      invariant forall name :: name in history.Keys - unmatched ==> ArchiveMatches(names, files, name)
      decreases unmatched
    {
      var name :| name in unmatched;
      unmatched := unmatched - {name};
      if name.id !in journals || !HistoryMatchesFinal(history[name], journals[name.id]) {
        return false;
      }
    }
    return true;
  }

  class DurableStore {
    var disk: Disk
    ghost var trace: seq<Disk>
    const faulty: bool

    constructor (initial: Disk, faulty: bool)
      ensures disk == initial && trace == [] && this.faulty == faulty
    {
      disk := initial;
      trace := [];
      this.faulty := faulty;
    }

    // ----- single steps -----

    /** Whether some environment-dependent call fails here. */
    method Fault() returns (failed: bool)
      ensures !faulty ==> !failed
    {
      failed := *;
      failed := failed && faulty;
    }

    /** `openat` with `O_CREAT | O_EXCL`. */
    method Create(u: Update) returns (ok: bool)
      modifies this
      ensures ok ==> u.temp !in Live(old(disk)) && u.inode !in old(disk).files
                     && disk == StagedDisk(old(disk), u, 1) && trace == old(trace) + [disk]
      ensures !ok ==> disk == old(disk) && trace == old(trace)
      ensures !faulty ==> (ok <==> u.temp !in Live(old(disk)) && u.inode !in old(disk).files)
    {
      var failed := Fault();
      ok := !failed && u.temp !in Live(disk) && u.inode !in disk.files;
      if ok {
        disk := WithFile(Issue(disk, Link(u.temp, u.inode)), u.inode, File(Torn, false));
        trace := trace + [disk];
      }
    }

    /** `fsync` or a completed write on the staged file. */
    method Store(inode: Inode, content: Content, flushed: bool) returns (ok: bool)
      modifies this
      ensures ok ==> disk == WithFile(old(disk), inode, File(content, flushed)) && trace == old(trace) + [disk]
      ensures !ok ==> disk == old(disk) && trace == old(trace)
      ensures !faulty ==> ok
    {
      var failed := Fault();
      ok := !failed;
      if ok {
        disk := WithFile(disk, inode, File(content, flushed));
        trace := trace + [disk];
      }
    }

    /** Directory `fsync`. */
    method Sync() returns (ok: bool)
      modifies this
      ensures ok ==> disk == Synced(old(disk)) && trace == old(trace) + [disk]
      ensures !ok ==> disk == old(disk) && trace == old(trace)
      ensures !faulty ==> ok
    {
      var failed := Fault();
      ok := !failed;
      if ok {
        disk := Synced(disk);
        trace := trace + [disk];
      }
    }

    /** `renameat2` with `RENAME_EXCHANGE`: both names must exist. */
    method ExchangeNames(first: Name, second: Name) returns (ok: bool)
      modifies this
      ensures ok ==> first in Live(old(disk)) && second in Live(old(disk))
                     && disk == Issue(old(disk), Exchange(first, second)) && trace == old(trace) + [disk]
      ensures !ok ==> disk == old(disk) && trace == old(trace)
      ensures !faulty ==> (ok <==> first in Live(old(disk)) && second in Live(old(disk)))
    {
      var failed := Fault();
      ok := !failed && first in Live(disk) && second in Live(disk);
      if ok {
        disk := Issue(disk, Exchange(first, second));
        trace := trace + [disk];
      }
    }

    /** `renameat2` with `RENAME_NOREPLACE`: the target must not exist. */
    method PublishNew(from: Name, to: Name) returns (ok: bool)
      modifies this
      ensures ok ==> from in Live(old(disk)) && to !in Live(old(disk))
                     && disk == Issue(old(disk), Move(from, to)) && trace == old(trace) + [disk]
      ensures !ok ==> disk == old(disk) && trace == old(trace)
      ensures !faulty ==> (ok <==> from in Live(old(disk)) && to !in Live(old(disk)))
    {
      var failed := Fault();
      ok := !failed && from in Live(disk) && to !in Live(disk);
      if ok {
        disk := Issue(disk, Move(from, to));
        trace := trace + [disk];
      }
    }

    // ----- reading -----

    /** `load_pinned_journal`. */
    method LoadPinned(name: Name, id: Digest) returns (r: Result<Journal, StoreError>)
      ensures r.Ok? ==> Load(Live(disk), disk.files, name, id) == Some(r.value)
      ensures !faulty && Load(Live(disk), disk.files, name, id).Some? ==> r.Ok?
    {
      if !IsHexDigest(id) { return Err(StoreError.InvalidJournalId); }
      var names := Live(disk);
      if name !in names || names[name] !in disk.files { return Err(NotFound(id)); }
      if !SingleLink(names, name) { return Err(NotRegularFile); }
      var failed := Fault();
      if failed { return Err(ChangedDuringInspection); }
      match disk.files[names[name]].content
      case Torn => return Err(Undecodable);
      case Record(j, length) =>
        if length > MAX_JOURNAL_BYTES { return Err(TooLarge); }
        if j.journalId != id { return Err(IdMismatch); }
        var defect := ValidateJournal(j);
        if defect.Some? { return Err(InvalidRecord(defect.value)); }
        return Ok(j);
    }

    /** Load a name and compare: it must hold exactly this record. */
    method Confirm(name: Name, j: Journal) returns (r: Result<(), StoreError>)
      ensures r.Ok? ==> Load(Live(disk), disk.files, name, j.journalId) == Some(j)
      ensures !faulty && Load(Live(disk), disk.files, name, j.journalId) == Some(j) ==> r.Ok?
    {
      var loaded := LoadPinned(name, j.journalId);
      if loaded.Err? { return Err(loaded.error); }
      if loaded.value != j { return Err(ChangedDuringInspection); }
      return Ok(());
    }

    /** Both names must hold exactly these records. */
    method ConfirmPair(first: Name, older: Journal, second: Name, newer: Journal) returns (r: Result<(), StoreError>)
      ensures r.Ok? ==> Load(Live(disk), disk.files, first, older.journalId) == Some(older)
                        && Load(Live(disk), disk.files, second, newer.journalId) == Some(newer)
      ensures !faulty && Load(Live(disk), disk.files, first, older.journalId) == Some(older) ==>
                Load(Live(disk), disk.files, second, newer.journalId) == Some(newer) ==> r.Ok?
    {
      r := Confirm(first, older);
      if r.Err? { return; }
      r := Confirm(second, newer);
    }

    /** First pass of `all`: read every entry. */
    method ReadEntries() returns (r: Result<(map<Digest, Journal>, map<Name, Journal>), StoreError>)
      ensures r.Ok? ==>
                var names, files := Live(disk), disk.files;
                && (forall name :: name in names ==> EntryReadable(names, files, name))
                && (forall id :: id in r.value.0 <==> Primary(id) in names)
                && (forall id :: id in r.value.0 ==> Load(names, files, Primary(id), id) == Some(r.value.0[id]))
                && (forall name :: name in r.value.1 <==> name in names && name.History?)
                && (forall name :: name in r.value.1 ==>
                      Load(names, files, name, name.id) == Some(r.value.1[name]))
      ensures !faulty && Quiescent(Live(disk), disk.files) ==> r.Ok?
    {
      var names, files := Live(disk), disk.files;
      var journals: map<Digest, Journal> := map[];
      var history: map<Name, Journal> := map[];
      var remaining := names.Keys;
      while remaining != {}
        invariant remaining <= names.Keys
        invariant forall name :: name in names.Keys - remaining ==> EntryReadable(names, files, name)
        invariant forall id :: id in journals <==> Primary(id) in names.Keys - remaining
        invariant forall id :: id in journals ==> Load(names, files, Primary(id), id) == Some(journals[id])
        invariant forall name :: name in history <==> name in names.Keys - remaining && name.History?
        invariant forall name :: name in history ==>
                    Load(names, files, name, name.id) == Some(history[name])
        decreases remaining
      {
        var name :| name in remaining;
        remaining := remaining - {name};
        match name
        case Primary(id) =>
          var loaded := LoadPinned(name, id);
          if loaded.Err? { return Err(loaded.error); }
          journals := journals[id := loaded.value];
        case History(id, sequence, digest) =>
          var loaded := LoadPinned(name, id);
          if loaded.Err? { return Err(loaded.error); }
          if |loaded.value.events| != sequence || DigestOf(loaded.value) != digest {
            return Err(HistoryMismatch);
          }
          history := history[name := loaded.value];
        case _ => return Err(UnexpectedEntry);
      }
      return Ok((journals, history));
    }

    /** `all`: read every entry, then match the archive against the current records. */
    method All() returns (r: Result<map<Digest, Journal>, StoreError>)
      ensures r.Ok? ==> AllOf(Live(disk), disk.files) == Some(r.value)
      ensures !faulty && Quiescent(Live(disk), disk.files) ==> r.Ok?
    {
      var read := ReadEntries();
      if read.Err? { return Err(read.error); }
      var failed := Fault();
      if failed { return Err(ChangedDuringInspection); }
      var journals, history := read.value.0, read.value.1;
      var matched := MatchArchive(Live(disk), disk.files, journals, history);
      if !matched { return Err(HistoryMismatch); }
      InventoryDetermined(Live(disk), disk.files, journals);
      return Ok(journals);
    }

    // ----- writing -----

    /** `write_staged_file` and the directory sync after it: create the staging name, write
        the record and its newline, flush, sync. A failure leaves what was done so far. */
    method Stage(u: Update) returns (ok: bool, ghost steps: nat)
      modifies this
      ensures steps <= 4 && disk == StagedDisk(old(disk), u, steps)
      ensures trace == old(trace) + PassedStaging(old(disk), u, steps)
      ensures ok ==> steps == 4
      ensures steps > 0 ==> u.temp !in Live(old(disk)) && u.inode !in old(disk).files
      ensures !faulty ==> (ok <==> u.temp !in Live(old(disk)) && u.inode !in old(disk).files)
      ensures !faulty ==> steps == if ok then 4 else 0
    {
      steps := 0;
      ok := Create(u);
      if !ok { return; }
      steps := 1;
      ok := Store(u.inode, u.Written(), false);
      if !ok { return; }
      steps := 2;
      ok := Store(u.inode, u.Written(), true);
      if !ok { return; }
      steps := 3;
      ok := Sync();
      if !ok { return; }
      steps := 4;
    }

    /** `persist_new`. The contract names every disk the call can leave behind or pass
        through: it is the old disk advanced by some number of creation steps. */
    method PersistNew(journal: Journal, encoded: nat, temp: Name, inode: Inode)
      returns (r: Result<(), StoreError>, ghost u: Update, ghost steps: nat)
      requires Consistent(disk) && temp.Staging?
      modifies this
      ensures u == Update(temp, inode, journal, journal, encoded)
      ensures steps <= CREATE_STEPS && disk == CreateDisk(old(disk), u, steps)
      ensures trace == old(trace) + PassedNew(old(disk), u, steps)
      ensures steps > 0 ==> CreateReady(Live(old(disk)), old(disk).files, u)
      ensures steps > 4 ==> u.Final() !in Live(old(disk))
      ensures r.Ok? ==> steps == CREATE_STEPS && encoded < MAX_JOURNAL_BYTES
      ensures !faulty ==>
                (r.Ok? <==> CreateReady(Live(old(disk)), old(disk).files, u)
                            && u.Final() !in Live(old(disk)) && encoded < MAX_JOURNAL_BYTES)
      ensures !faulty ==> steps == CreateStop(Live(old(disk)), old(disk).files, u)
    {
      u := Update(temp, inode, journal, journal, encoded);
      steps := 0;
      ghost var before, base := disk, trace;
      var defect := ValidateJournal(journal);
      if defect.Some? { return Err(InvalidRecord(defect.value)), u, steps; }
      if encoded > MAX_JOURNAL_BYTES { return Err(TooLarge), u, steps; }
      var up := Update(temp, inode, journal, journal, encoded);
      var ok;
      ok, steps := Stage(up);
      StagingIsCommon(before, u, steps);
      if !ok { return Err(Io), u, steps; }
      PublishFacts(before, up);
      r, steps := PublishStaged(up, before, base);
    }

    /** `renameat2` moves the staged record to its primary name, if that is free. */
    method MoveIn(u: Update, ghost before: Disk, ghost base: seq<Disk>) returns (ok: bool)
      requires PublishOutcome(before, u)
      requires disk == CreateDisk(before, u, 4) && trace == base + PassedNew(before, u, 4)
      modifies this
      ensures disk == CreateDisk(before, u, if ok then 5 else 4)
      ensures trace == base + PassedNew(before, u, if ok then 5 else 4)
      ensures ok ==> u.Final() !in Live(before)
      ensures !faulty ==> (ok <==> u.Final() !in Live(before))
    {
      ok := PublishNew(u.temp, u.Final());
      PassedNewNext(before, u, 4);
    }

    method SyncNew(u: Update, ghost before: Disk, ghost base: seq<Disk>) returns (ok: bool)
      requires disk == CreateDisk(before, u, 5) && trace == base + PassedNew(before, u, 5)
      modifies this
      ensures disk == CreateDisk(before, u, if ok then 6 else 5)
      ensures trace == base + PassedNew(before, u, if ok then 6 else 5)
      ensures !faulty ==> ok
    {
      ok := Sync();
      PassedNewNext(before, u, 5);
    }

    /** Publish the staged record under its primary name, check it and sync. */
    method PublishStaged(u: Update, ghost before: Disk, ghost base: seq<Disk>)
      returns (r: Result<(), StoreError>, ghost steps: nat)
      requires PublishOutcome(before, u)
      requires disk == CreateDisk(before, u, 4) && trace == base + PassedNew(before, u, 4)
      modifies this
      ensures 4 <= steps <= 6 && disk == CreateDisk(before, u, steps)
      ensures trace == base + PassedNew(before, u, steps)
      ensures steps > 4 ==> u.Final() !in Live(before)
      ensures r.Ok? ==> steps == 6 && u.encoded < MAX_JOURNAL_BYTES
      ensures !faulty ==> (r.Ok? <==> u.Final() !in Live(before) && u.encoded < MAX_JOURNAL_BYTES)
      ensures !faulty ==> steps == if u.Final() in Live(before) then 4
                                   else if u.encoded < MAX_JOURNAL_BYTES then 6 else 5
    {
      steps := 4;
      var ok := MoveIn(u, before, base);
      if !ok {
        return Err(if u.Final() in Live(disk) then AlreadyExists(u.next.journalId) else Io), steps;
      }
      steps := 5;
      r := Confirm(u.Final(), u.next);
      if r.Err? { return r, steps; }
      ok := SyncNew(u, before, base);
      if !ok { return Err(Io), steps; }
      steps := 6;
      var failed := Fault();
      if failed { return Err(ChangedDuringInspection), steps; }
      return Ok(()), steps;
    }

    /** `renameat2` swaps the staged record and the current one. */
    method Swap(u: Update, ghost before: Disk, ghost base: seq<Disk>) returns (ok: bool)
      requires u.temp in Live(UpdateDisk(before, u, 4)) && u.Final() in Live(UpdateDisk(before, u, 4))
      requires disk == UpdateDisk(before, u, 4) && trace == base + Passed(before, u, 4)
      modifies this
      ensures disk == UpdateDisk(before, u, if ok then 5 else 4)
      ensures trace == base + Passed(before, u, if ok then 5 else 4)
      ensures !faulty ==> ok
    {
      ok := ExchangeNames(u.temp, u.Final());
      PassedNext(before, u, 4);
    }

    /** The directory sync after it. */
    method SyncSwap(u: Update, ghost before: Disk, ghost base: seq<Disk>) returns (ok: bool)
      requires disk == UpdateDisk(before, u, 5) && trace == base + Passed(before, u, 5)
      modifies this
      ensures disk == UpdateDisk(before, u, if ok then 6 else 5)
      ensures trace == base + Passed(before, u, if ok then 6 else 5)
      ensures !faulty ==> ok
    {
      ok := Sync();
      PassedNext(before, u, 5);
    }

    /** The exchange and the checks after it, up to the second directory sync. */
    method ExchangeStaged(u: Update, ghost before: Disk, ghost base: seq<Disk>)
      returns (r: Result<(), StoreError>, ghost steps: nat)
      requires ExchangeOutcome(before, u)
      requires disk == UpdateDisk(before, u, 4) && trace == base + Passed(before, u, 4)
      modifies this
      ensures 4 <= steps <= 6 && disk == UpdateDisk(before, u, steps)
      ensures trace == base + Passed(before, u, steps)
      ensures r.Ok? ==> steps == 6 && u.encoded < MAX_JOURNAL_BYTES
      ensures !faulty ==> (r.Ok? <==> u.encoded < MAX_JOURNAL_BYTES)
      ensures !faulty ==> steps == if u.encoded < MAX_JOURNAL_BYTES then 6 else 5
    {
      steps := 4;
      var ok := Swap(u, before, base);
      if !ok { return Err(Io), steps; }
      steps := 5;
      r := ConfirmPair(u.temp, u.expected, u.Final(), u.next);
      if r.Err? { return r, steps; }
      ok := SyncSwap(u, before, base);
      if !ok { return Err(Io), steps; }
      steps := 6;
      var failed := Fault();
      if failed { return Err(ChangedDuringInspection), steps; }
      return Ok(()), steps;
    }

    /** The directory sync after the archive rename. */
    method SyncMove(u: Update, ghost before: Disk, ghost base: seq<Disk>) returns (ok: bool)
      requires disk == UpdateDisk(before, u, 7) && trace == base + Passed(before, u, 7)
      modifies this
      ensures disk == UpdateDisk(before, u, if ok then 8 else 7)
      ensures trace == base + Passed(before, u, if ok then 8 else 7)
      ensures !faulty ==> ok
    {
      ok := Sync();
      PassedNext(before, u, 7);
    }

    /** Move the displaced record to its archive name and sync. */
    method MoveAway(u: Update, ghost before: Disk, ghost base: seq<Disk>) returns (ok: bool, ghost steps: nat)
      requires u.temp in Live(UpdateDisk(before, u, 6))
      requires u.Archive() in Live(UpdateDisk(before, u, 6)) <==> u.Archive() in Live(before)
      requires disk == UpdateDisk(before, u, 6) && trace == base + Passed(before, u, 6)
      modifies this
      ensures 6 <= steps <= 8 && disk == UpdateDisk(before, u, steps)
      ensures trace == base + Passed(before, u, steps)
      ensures steps > 6 ==> u.Archive() !in Live(before)
      ensures ok ==> steps == 8
      ensures !faulty ==> (ok <==> u.Archive() !in Live(before))
      ensures !faulty ==> steps == if u.Archive() in Live(before) then 6 else 8
    {
      steps := 6;
      ok := PublishNew(u.temp, u.Archive());
      if !ok { return; }
      PassedNext(before, u, 6);
      ok := SyncMove(u, before, base);
      steps := if ok then 8 else 7;
    }

    /** Archive the displaced record and check both names. */
    method ArchiveDisplaced(u: Update, ghost before: Disk, ghost base: seq<Disk>)
      returns (r: Result<(), StoreError>, ghost steps: nat)
      requires ArchiveOutcome(before, u)
      requires disk == UpdateDisk(before, u, 6) && trace == base + Passed(before, u, 6)
      modifies this
      ensures 6 <= steps <= 8 && disk == UpdateDisk(before, u, steps)
      ensures trace == base + Passed(before, u, steps)
      ensures steps > 6 ==> u.Archive() !in Live(before)
      ensures r.Ok? ==> steps == 8
      ensures !faulty ==> (r.Ok? <==> u.Archive() !in Live(before))
      ensures !faulty ==> steps == if u.Archive() in Live(before) then 6 else 8
    {
      var ok;
      ok, steps := MoveAway(u, before, base);
      if !ok { return Err(Io), steps; }
      r := ConfirmPair(u.Archive(), u.expected, u.Final(), u.next);
    }

    /** The checks before anything is written. */
    method CheckUpdate(u: Update) returns (r: Result<(), StoreError>)
      ensures r.Ok? ==> UpdateGuards(Live(disk), disk.files, u)
      ensures !faulty && UpdateGuards(Live(disk), disk.files, u) ==> r.Ok?
    {
      var defect := ValidateJournal(u.expected);
      if defect.Some? { return Err(InvalidRecord(defect.value)); }
      defect := ValidateJournal(u.next);
      if defect.Some? { return Err(InvalidRecord(defect.value)); }
      if !ExtendsHistory(u.expected, u.next) { return Err(NotAnExtension); }
      var current := LoadPinned(u.Final(), u.next.journalId);
      if current.Err? { return Err(current.error); }
      if current.value != u.expected { return Err(ChangedDuringInspection); }
      if u.encoded > MAX_JOURNAL_BYTES { return Err(TooLarge); }
      return Ok(());
    }

    /** `persist_if_matches`: replace a record only when the exact previous one is still
        there. Nothing is unlinked; on any failure the disk is the old one advanced by
        some number of update steps. The staging name and inode are fresh, as the process
        ID, the sequence counter and the file system choose them. */
    method PersistIfMatches(expected: Journal, journal: Journal, encoded: nat, temp: Name, inode: Inode)
      returns (r: Result<(), StoreError>, ghost u: Update, ghost steps: nat)
      requires Consistent(disk) && temp.Staging?
      modifies this
      ensures u == Update(temp, inode, expected, journal, encoded)
      ensures steps <= UPDATE_STEPS && disk == UpdateDisk(old(disk), u, steps)
      ensures trace == old(trace) + Passed(old(disk), u, steps)
      ensures steps > 0 ==> UpdateReady(Live(old(disk)), old(disk).files, u)
      ensures steps > 6 ==> u.Archive() !in Live(old(disk)) && encoded < MAX_JOURNAL_BYTES
      ensures r.Ok? ==> steps == UPDATE_STEPS
      ensures !faulty ==>
                (r.Ok? <==> UpdateReady(Live(old(disk)), old(disk).files, u)
                            && u.Archive() !in Live(old(disk)) && encoded < MAX_JOURNAL_BYTES)
      ensures !faulty ==> steps == UpdateStop(Live(old(disk)), old(disk).files, u)
    {
      var up := Update(temp, inode, expected, journal, encoded);
      u := up;
      steps := 0;
      ghost var before, base := disk, trace;
      r := CheckUpdate(up);
      if r.Err? { return; }
      var ok;
      ok, steps := Stage(up);
      StagingIsCommon(before, u, steps);
      if !ok { return Err(Io), u, steps; }
      var failed := Fault();
      if failed { return Err(ChangedDuringInspection), u, steps; }
      ExchangeFacts(before, up);
      r, steps := ExchangeStaged(up, before, base);
      if r.Err? { return; }
      ArchiveFacts(before, up);
      r, steps := ArchiveDisplaced(up, before, base);
    }
  }
}
