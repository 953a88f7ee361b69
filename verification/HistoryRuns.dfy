/** History completeness: the archive holds exactly the earlier states of every record
    (crates/executor/src/journal_store.rs, `persist_new` and `persist_if_matches`). */
module HistoryRuns {
  import opened Wrappers
  import opened Journals
  import opened JournalUpdates
  import opened EntryNames
  import opened Disks
  import opened StoreStates
  import opened CrashSafety
  import opened RecordCreation

  /** All states a record has gone through, oldest first. */
  type Log = log: seq<Journal> | |log| > 0 witness [NewJournal(Literal(""), Literal(""), "", Literal(""))]

  type Logs = map<Digest, Log>

  function ArchiveName(j: Journal): Name {
    History(j.journalId, |j.events|, DigestOf(j))
  }

  /** Each state's events are a strict prefix of the next state's. */
  predicate Growing(log: Log) {
    forall i, k :: 0 <= i < k < |log| ==> HistoryMatchesFinal(log[i], log[k])
  }

  predicate Archived(names: Names, files: map<Inode, File>, log: Log, i: nat)
    requires i < |log|
  {
    Load(names, files, ArchiveName(log[i]), log[i].journalId) == Some(log[i])
  }

  /** The primary name holds the last state, the archive names of this ID are exactly
      those of the earlier states, and each holds its state. */
  predicate Recorded(names: Names, files: map<Inode, File>, id: Digest, log: Log) {
    && (forall i :: 0 <= i < |log| ==> log[i].journalId == id)
    && Load(names, files, Primary(id), id) == Some(log[|log| - 1])
    && (forall i :: 0 <= i < |log| - 1 ==> Archived(names, files, log, i))
    && (forall name :: name in names && name.History? && name.id == id ==>
          exists i :: 0 <= i < |log| - 1 && name == ArchiveName(log[i]))
    && Growing(log)
  }

  ghost predicate AllRecorded(names: Names, files: map<Inode, File>, logs: Logs) {
    && Quiescent(names, files)
    && (forall id :: id in logs <==> Primary(id) in names)
    && (forall id :: id in logs ==> Recorded(names, files, id, logs[id]))
  }

  datatype Operation = Creation(u: Update) | Replacement(u: Update)

  function Perform(d: Disk, op: Operation): Disk {
    match op
    case Creation(u) => CreateDisk(d, u, CREATE_STEPS)
    case Replacement(u) => UpdateDisk(d, u, UPDATE_STEPS)
  }

  /** The operation gets through: its guards hold, an update keeps the bindings that are
      there, and the record leaves room for its newline. */
  predicate Performable(d: Disk, op: Operation) {
    && op.u.encoded < MAX_JOURNAL_BYTES
    && match op
       case Creation(u) => CreateReady(Live(d), d.files, u) && u.Final() !in Live(d)
       case Replacement(u) => UpdateReady(Live(d), d.files, u) && Retains(u.expected, u.next)
  }

  function LogAfter(logs: Logs, op: Operation): Logs
    requires op.Replacement? ==> op.u.next.journalId in logs
  {
    match op
    case Creation(u) => logs[u.next.journalId := [u.next]]
    case Replacement(u) => Extended(logs, u.next)
  }

  lemma GrowingAppend(log: Log, next: Journal)
    requires Growing(log) && ExtendsHistory(log[|log| - 1], next) && Retains(log[|log| - 1], next)
    ensures Growing(log + [next])
  {
    var longer := log + [next];
    forall i, k | 0 <= i < k < |longer| ensures HistoryMatchesFinal(longer[i], longer[k]) {
      if k == |log| && i < |log| - 1 {
        HistoryMatchesStep(log[i], log[|log| - 1], next);
      }
    }
  }

  /** One update appends the new state to the log of its ID. */
  lemma UpdateRecordsOwn(names: Names, files: map<Inode, File>, u: Update, log: Log)
    requires Quiescent(names, files) && UpdateReady(names, files, u) && u.Archive() !in names
    requires Retains(u.expected, u.next) && u.encoded < MAX_JOURNAL_BYTES
    requires Recorded(names, files, u.next.journalId, log)
    ensures Recorded(ArchivedNames(names, u), WithStaged(files, u), u.next.journalId, log + [u.next])
  {
    var id := u.next.journalId;
    var after, files' := ArchivedNames(names, u), WithStaged(files, u);
    var longer := log + [u.next];
    assert log[|log| - 1] == u.expected;
    LoadFinal(names, files, u);
    GrowingAppend(log, u.next);
    forall i | 0 <= i < |longer| - 1 ensures Archived(after, files', longer, i) {
      if i < |log| - 1 {
        assert Archived(names, files, log, i);
        LoadUnaffected(names, files, u, ArchiveName(log[i]), id);
      } else {
        assert longer[i] == u.expected && ArchiveName(u.expected) == u.Archive();
      }
    }
    forall name | name in after && name.History? && name.id == id
      ensures exists i :: 0 <= i < |longer| - 1 && name == ArchiveName(longer[i])
    {
      if name == u.Archive() {
        assert name == ArchiveName(longer[|log| - 1]);
      } else {
        var i :| 0 <= i < |log| - 1 && name == ArchiveName(log[i]);
        assert longer[i] == log[i];
      }
    }
  }

  lemma UpdateRecordsOther(names: Names, files: map<Inode, File>, u: Update, id: Digest, log: Log)
    requires Quiescent(names, files) && UpdateReady(names, files, u) && u.Archive() !in names
    requires Recorded(names, files, id, log) && id != u.next.journalId
    ensures Recorded(ArchivedNames(names, u), WithStaged(files, u), id, log)
  {
    LoadUnaffected(names, files, u, Primary(id), id);
    forall i | 0 <= i < |log| - 1
      ensures Archived(ArchivedNames(names, u), WithStaged(files, u), log, i)
    {
      assert Archived(names, files, log, i);
      LoadUnaffected(names, files, u, ArchiveName(log[i]), id);
    }
  }

  lemma CreateRecordsOther(names: Names, files: map<Inode, File>, u: Update, id: Digest, log: Log)
    requires Quiescent(names, files) && CreateReady(names, files, u) && u.Final() !in names
    requires Recorded(names, files, id, log) && id != u.next.journalId
    ensures Recorded(PublishedNames(names, u), WithStaged(files, u), id, log)
  {
    LoadBeside(names, files, u, Primary(id), id);
    forall i | 0 <= i < |log| - 1
      ensures Archived(PublishedNames(names, u), WithStaged(files, u), log, i)
    {
      assert Archived(names, files, log, i);
      LoadBeside(names, files, u, ArchiveName(log[i]), id);
    }
  }

  lemma ArchivesHaveCurrent(names: Names, files: map<Inode, File>)
    requires Quiescent(names, files)
    ensures forall name :: name in names && name.History? ==> Primary(name.id) in names
  {
    forall name | name in names && name.History? ensures Primary(name.id) in names {
      assert ArchiveMatches(names, files, name);
    }
  }

  lemma CreateRecordsOwn(names: Names, files: map<Inode, File>, u: Update)
    requires Quiescent(names, files) && CreateReady(names, files, u) && u.Final() !in names
    requires u.encoded < MAX_JOURNAL_BYTES
    ensures Recorded(PublishedNames(names, u), WithStaged(files, u), u.next.journalId, [u.next])
  {
    LoadPublished(names, files, u);
    ArchivesHaveCurrent(names, files);
  }

  lemma CreateRecords(names: Names, files: map<Inode, File>, u: Update, logs: Logs)
    requires AllRecorded(names, files, logs) && CreateReady(names, files, u) && u.Final() !in names
    requires u.encoded < MAX_JOURNAL_BYTES
    ensures AllRecorded(PublishedNames(names, u), WithStaged(files, u), logs[u.next.journalId := [u.next]])
  {
    var after, files' := PublishedNames(names, u), WithStaged(files, u);
    PublishedQuiescent(names, files, u);
    CreateRecordsOwn(names, files, u);
    var logs' := logs[u.next.journalId := [u.next]];
    forall id | id in logs' ensures Recorded(after, files', id, logs'[id]) {
      if id != u.next.journalId {
        CreateRecordsOther(names, files, u, id, logs[id]);
      }
    }
    forall id ensures id in logs' <==> Primary(id) in after {
      assert id in logs <==> Primary(id) in names;
    }
  }

  function Extended(logs: Logs, next: Journal): Logs
    requires next.journalId in logs
  {
    logs[next.journalId := logs[next.journalId] + [next]]
  }

  lemma UpdateRecordsOne(names: Names, files: map<Inode, File>, u: Update, logs: Logs, id: Digest)
    requires Quiescent(names, files) && UpdateReady(names, files, u) && u.Archive() !in names
    requires Retains(u.expected, u.next) && u.encoded < MAX_JOURNAL_BYTES
    requires u.next.journalId in logs && id in logs
    requires Recorded(names, files, id, logs[id])
    ensures Recorded(ArchivedNames(names, u), WithStaged(files, u), id, Extended(logs, u.next)[id])
  {
    if id == u.next.journalId {
      UpdateRecordsOwn(names, files, u, logs[id]);
    } else {
      UpdateRecordsOther(names, files, u, id, logs[id]);
    }
  }

  lemma UpdateRecords(names: Names, files: map<Inode, File>, u: Update, logs: Logs)
    requires AllRecorded(names, files, logs) && UpdateReady(names, files, u) && u.Archive() !in names
    requires Retains(u.expected, u.next) && u.encoded < MAX_JOURNAL_BYTES
    requires u.next.journalId in logs
    ensures AllRecorded(ArchivedNames(names, u), WithStaged(files, u), Extended(logs, u.next))
  {
    ArchivedQuiescent(names, files, u);
    SameIds(names, u, logs);
    forall id | id in logs
      ensures Recorded(ArchivedNames(names, u), WithStaged(files, u), id, Extended(logs, u.next)[id])
    {
      UpdateRecordsOne(names, files, u, logs, id);
    }
  }

  lemma SameIds(names: Names, u: Update, logs: Logs)
    requires forall id :: id in logs <==> Primary(id) in names
    requires u.Final() in names
    ensures forall id :: id in logs <==> Primary(id) in ArchivedNames(names, u)
  {
  }

  /** One operation keeps the archive complete. */
  lemma PerformRecords(d: Disk, op: Operation, logs: Logs)
    requires AllRecorded(Live(d), d.files, logs) && Performable(d, op)
    ensures op.Replacement? ==> op.u.next.journalId in logs
    ensures var after := Perform(d, op);
            after.pending == [] && AllRecorded(Live(after), after.files, LogAfter(logs, op))
  {
    var u := op.u;
    match op
    case Creation(_) =>
      CreateLive(d, u, CREATE_STEPS);
      UpdateFiles(d, u, CREATE_STEPS);
      CreateRecords(Live(d), d.files, u, logs);
    case Replacement(_) =>
      assert u.Final() in Live(d);
      ArchiveNameFresh(Live(d), d.files, u);
      UpdateLive(d, u, UPDATE_STEPS);
      UpdateFiles(d, u, UPDATE_STEPS);
      UpdateRecords(Live(d), d.files, u, logs);
  }

  function PerformAll(d: Disk, ops: seq<Operation>): Disk {
    if ops == [] then d else Perform(PerformAll(d, ops[..|ops| - 1]), ops[|ops| - 1])
  }

  predicate AllPerformable(d: Disk, ops: seq<Operation>) {
    forall i {:trigger ops[i]} :: 0 <= i < |ops| ==> Performable(PerformAll(d, ops[..i]), ops[i])
  }

  /** The states an ID was given, in order: what the operations wrote under it. */
  function StatesOf(ops: seq<Operation>, id: Digest): seq<Journal> {
    if ops == [] then []
    else
      var last := ops[|ops| - 1];
      StatesOf(ops[..|ops| - 1], id) + (if last.u.next.journalId == id then [last.u.next] else [])
  }

  const EMPTY_DISK := Disk(map[], [], map[])

  lemma PrefixPerformable(ops: seq<Operation>)
    requires AllPerformable(EMPTY_DISK, ops) && ops != []
    ensures AllPerformable(EMPTY_DISK, ops[..|ops| - 1])
    ensures Performable(PerformAll(EMPTY_DISK, ops[..|ops| - 1]), ops[|ops| - 1])
  {
    var earlier := ops[..|ops| - 1];
    forall i | 0 <= i < |earlier| ensures Performable(PerformAll(EMPTY_DISK, earlier[..i]), earlier[i]) {
      assert earlier[..i] == ops[..i] && earlier[i] == ops[i];
    }
  }

  /** The states of an ID as its log in a map of logs. */
  predicate LogsAreStates(logs: Logs, ops: seq<Operation>, id: Digest) {
    StatesOf(ops, id) == if id in logs then logs[id] else []
  }

  lemma {:induction false} RunRecords(ops: seq<Operation>) returns (logs: Logs)
    requires AllPerformable(EMPTY_DISK, ops)
    ensures AllRecorded(Live(PerformAll(EMPTY_DISK, ops)), PerformAll(EMPTY_DISK, ops).files, logs)
    ensures forall id :: LogsAreStates(logs, ops, id)
  {
    if ops == [] {
      logs := map[];
    } else {
      var earlier, op := ops[..|ops| - 1], ops[|ops| - 1];
      PrefixPerformable(ops);
      var before := RunRecords(earlier);
      var d := PerformAll(EMPTY_DISK, earlier);
      PerformRecords(d, op, before);
      if op.Creation? {
        FirstState(d, op.u, before);
      }
      logs := LogAfter(before, op);
      forall id ensures LogsAreStates(logs, ops, id) {
        assert LogsAreStates(before, earlier, id);
        StatesStep(before, ops, id);
      }
    }
  }

  lemma StatesStep(before: Logs, ops: seq<Operation>, id: Digest)
    requires ops != [] && LogsAreStates(before, ops[..|ops| - 1], id)
    requires var op := ops[|ops| - 1];
             op.Replacement? <==> op.u.next.journalId in before
    ensures LogsAreStates(LogAfter(before, ops[|ops| - 1]), ops, id)
  {
  }

  lemma FirstState(d: Disk, u: Update, logs: Logs)
    requires forall id :: id in logs <==> Primary(id) in Live(d)
    requires Performable(d, Creation(u))
    ensures u.next.journalId !in logs
  {
  }

  /** History completeness. After any run of successful creations and updates from an
      empty directory, the records are exactly those written, and for every ID the
      archived records are exactly all its earlier states, each event list a strict
      prefix of the next. */
  lemma HistoryComplete(ops: seq<Operation>, id: Digest)
    requires AllPerformable(EMPTY_DISK, ops)
    ensures var d := PerformAll(EMPTY_DISK, ops);
            var states := StatesOf(ops, id);
            && Quiescent(Live(d), d.files)
            && (Primary(id) in Live(d) <==> states != [])
            && (states != [] ==> Recorded(Live(d), d.files, id, states))
  {
    var logs := RunRecords(ops);
    assert LogsAreStates(logs, ops, id);
    assert id in logs <==> Primary(id) in Live(PerformAll(EMPTY_DISK, ops));
  }
}
