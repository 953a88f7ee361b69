/** All runs of the host: sessions, pre-write aborts, process deaths and power losses over
    one journal directory. The host lock admits one session at a time. */
module HostRuns {
  import opened Wrappers
  import opened Journals
  import opened JournalValidator
  import opened JournalUpdates
  import opened EntryNames
  import opened Disks
  import opened StoreStates
  import opened CrashSafety
  import opened RecordCreation
  import opened LockedSessions
  import opened Reconciliation

  /** The disk, and the journal held by the session that owns the host lock. */
  datatype Host = Host(disk: Disk, session: Option<Journal>)

  datatype Step =
    | Begin(handoff: Handoff, id: Digest, w: WriteContext, steps: nat, ok: bool)
    | Write(t: Transition, w: WriteContext, steps: nat, ok: bool)
    | Revalidate(digest: Digest, w: WriteContext, steps: nat, ok: bool)
    | AbortPrewrite(shown: Journal, reason: string, w: WriteContext, steps: nat)
    | SessionEnds
    | PowerFails

  /** One step. A call that stops early, by an error or because its process died, leaves
      the disk after some of its steps. */
  ghost predicate Next(h: Host, s: Step, h': Host) {
    match s
    case Begin(handoff, id, w, steps, ok) =>
      && h.session.None? && w.temp.Staging?
      && BeginStep(h.disk, handoff, id, w, steps, h'.disk)
      && (ok ==> steps == CREATE_STEPS && w.encoded < MAX_JOURNAL_BYTES)
      && h'.session == if ok then Some(FirstRecord(handoff, id)) else None
    case Write(t, w, steps, ok) =>
      && h.session.Some? && w.temp.Staging?
      && WriteStep(h.disk, h.session.value, t, w, steps, h'.disk)
      && (ok ==> steps == UPDATE_STEPS)
      && h'.session == if ok then Some(Apply(h.session.value, t).value) else h.session
    case Revalidate(digest, w, steps, ok) =>
      && h.session.Some? && w.temp.Staging?
      && RevalidateStep(h.disk, h.session.value, digest, w, steps, h'.disk)
      && (ok ==> steps == UPDATE_STEPS)
      && h'.session == if ok then Some(Apply(h.session.value, RevalidateIdentity(digest)).value) else h.session
    case AbortPrewrite(shown, reason, w, steps) =>
      && h.session.None? && w.temp.Staging?
      && AbortStep(h.disk, shown, reason, w, steps, h'.disk)
      && h'.session == None
    case SessionEnds => h'.disk == h.disk && h'.session == None
    case PowerFails => PowerLoss(h.disk, h'.disk) && h'.session == None
  }

  // ----- the record found under a primary name -----

  function RecordOf(names: Names, files: map<Inode, File>, id: Digest): Option<Journal> {
    Load(names, files, Primary(id), id)
  }

  /** A mutation that may have started and is not known to be complete. */
  predicate Open(j: Option<Journal>) {
    j.Some? && j.value.mutationMayHaveStarted && !j.value.phase.Completed?
  }

  predicate StartedOn(j: Option<Journal>, planId: Digest) {
    j.Some? && j.value.mutationMayHaveStarted && j.value.planId == planId
  }

  /** At most one open mutation, and at most one started mutation per plan. */
  ghost predicate Safe(names: Names, files: map<Inode, File>) {
    && (forall a, b :: Open(RecordOf(names, files, a)) && Open(RecordOf(names, files, b)) ==> a == b)
    && (forall a, b, planId ::
          StartedOn(RecordOf(names, files, a), planId) && StartedOn(RecordOf(names, files, b), planId) ==> a == b)
  }

  /** Names lead to files, and no two names to the same one. */
  ghost predicate Rooted(names: Names, files: map<Inode, File>) {
    && (forall name :: name in names ==> names[name] in files)
    && (forall a, b :: a in names && b in names && names[a] == names[b] ==> a == b)
  }

  /** An entry the strict reader will never accept: a staging name, or a flushed file over
      the size limit (a record that fits, but whose final newline does not). */
  predicate JamsAt(names: Names, files: map<Inode, File>, name: Name)
    requires name in names
  {
    name.Staging?
    || (names[name] in files && files[names[name]].flushed && files[names[name]].content.Record?
        && files[names[name]].content.length > MAX_JOURNAL_BYTES)
  }

  ghost predicate Jammed(names: Names, files: map<Inode, File>) {
    exists name :: name in names && JamsAt(names, files, name)
  }

  lemma JammedNotQuiescent(names: Names, files: map<Inode, File>)
    requires Jammed(names, files)
    ensures !Quiescent(names, files)
  {
    var name :| name in names && JamsAt(names, files, name);
    assert !EntryReadable(names, files, name);
  }

  /** What every set of names that could be found satisfies: safety, and the directory is
      either jammed for good or quiescent with flushed files. */
  ghost predicate Sane(names: Names, files: map<Inode, File>) {
    && Rooted(names, files) && Safe(names, files)
    && (Jammed(names, files) || (Quiescent(names, files) && NamedFlushed(names, files)))
  }

  /** The invariant: whatever a power loss could leave is sane. */
  ghost predicate Invariant(d: Disk) {
    forall view :: ViewOf(d, view) ==> Sane(view, d.files)
  }

  // ----- how one operation changes the records -----

  /** A record depends only on its name and file. */
  lemma RecordDepends(names: Names, files: map<Inode, File>, names': Names, files': map<Inode, File>, id: Digest)
    requires Rooted(names, files) && Rooted(names', files')
    requires Primary(id) in names <==> Primary(id) in names'
    requires Primary(id) in names ==>
               && names'[Primary(id)] == names[Primary(id)]
               && files'[names[Primary(id)]] == files[names[Primary(id)]]
    ensures RecordOf(names', files', id) == RecordOf(names, files, id)
  {
  }

  /** A started record may only appear where nothing else blocks its plan. */
  ghost predicate Compatible(names: Names, files: map<Inode, File>, next: Journal) {
    next.mutationMayHaveStarted ==>
      forall id :: id != next.journalId && RecordOf(names, files, id).Some? ==>
        !Blocks(RecordOf(names, files, id).value, next.planId)
  }

  /** Replacing one record by a compatible one keeps the directory safe. */
  lemma SafeReplace(names: Names, files: map<Inode, File>, names': Names, files': map<Inode, File>, next: Journal)
    requires Safe(names, files) && Compatible(names, files, next)
    requires forall id :: id != next.journalId ==> RecordOf(names', files', id) == RecordOf(names, files, id)
    requires RecordOf(names', files', next.journalId) in {None, Some(next)}
    ensures Safe(names', files')
  {
    forall a, b | Open(RecordOf(names', files', a)) && Open(RecordOf(names', files', b)) ensures a == b {
      assert a != next.journalId ==> RecordOf(names, files, a) == RecordOf(names', files', a);
      assert b != next.journalId ==> RecordOf(names, files, b) == RecordOf(names', files', b);
    }
    forall a, b, planId |
      StartedOn(RecordOf(names', files', a), planId) && StartedOn(RecordOf(names', files', b), planId)
      ensures a == b
    {
      assert a != next.journalId ==> RecordOf(names, files, a) == RecordOf(names', files', a);
      assert b != next.journalId ==> RecordOf(names, files, b) == RecordOf(names', files', b);
      assert a != next.journalId ==> StartedOn(RecordOf(names, files, a), planId);
      assert b != next.journalId ==> StartedOn(RecordOf(names, files, b), planId);
    }
  }

  lemma SafeSame(names: Names, files: map<Inode, File>, names': Names, files': map<Inode, File>)
    requires Safe(names, files)
    requires forall id :: RecordOf(names', files', id) == RecordOf(names, files, id)
    ensures Safe(names', files')
  {
  }

  /** A jamming entry stays one while its name and its flushed file stay. */
  lemma JamStays(names: Names, files: map<Inode, File>, names': Names, files': map<Inode, File>, name: Name)
    requires name in names && JamsAt(names, files, name)
    requires name in names' && names'[name] == names[name]
    requires names[name] in files && files[names[name]].flushed ==>
               names[name] in files' && files'[names[name]] == files[names[name]]
    ensures Jammed(names', files')
  {
    assert JamsAt(names', files', name);
  }

  lemma JamsByStaging(names: Names, files: map<Inode, File>, name: Name)
    requires name in names && name.Staging?
    ensures Jammed(names, files)
  {
    assert JamsAt(names, files, name);
  }

  /** A new file nobody names changes nothing. */
  lemma SaneWithFile(names: Names, files: map<Inode, File>, inode: Inode, file: File)
    requires Sane(names, files) && inode !in files
    ensures Sane(names, files[inode := file])
  {
    var files' := files[inode := file];
    forall id ensures RecordOf(names, files', id) == RecordOf(names, files, id) {
      RecordDepends(names, files, names, files', id);
    }
    SafeSame(names, files, names, files');
    FilesAgree(names, files, files');
    if Jammed(names, files) {
      var name :| name in names && JamsAt(names, files, name);
      JamStays(names, files, names, files', name);
    }
  }

  /** A staging name for a new file jams the directory and changes no record. */
  lemma SaneStaged(names: Names, files: map<Inode, File>, u: Update, file: File)
    requires Sane(names, files) && u.temp.Staging? && u.inode !in files
    ensures Sane(StagedNames(names, u), files[u.inode := file])
    ensures Jammed(StagedNames(names, u), files[u.inode := file])
  {
    var names', files' := StagedNames(names, u), files[u.inode := file];
    assert Rooted(names', files');
    forall id ensures RecordOf(names', files', id) == RecordOf(names, files, id) {
      RecordDepends(names, files, names', files', id);
    }
    SafeSame(names, files, names', files');
    JamsByStaging(names', files', u.temp);
  }

  lemma SaneExchanged(names: Names, files: map<Inode, File>, u: Update)
    requires Sane(names, files) && UpdateReady(names, files, u) && Compatible(names, files, u.next)
    ensures Sane(ExchangedNames(names, u), WithStaged(files, u))
    ensures Jammed(ExchangedNames(names, u), WithStaged(files, u))
  {
    var names', files' := ExchangedNames(names, u), WithStaged(files, u);
    assert Rooted(names', files');
    forall id | id != u.next.journalId ensures RecordOf(names', files', id) == RecordOf(names, files, id) {
      RecordDepends(names, files, names', files', id);
    }
    SafeReplace(names, files, names', files', u.next);
    JamsByStaging(names', files', u.temp);
  }

  lemma SaneArchived(names: Names, files: map<Inode, File>, u: Update)
    requires Sane(names, files) && UpdateReady(names, files, u) && Compatible(names, files, u.next)
    requires u.Archive() !in names && Retains(u.expected, u.next) && u.encoded < MAX_JOURNAL_BYTES
    ensures Sane(ArchivedNames(names, u), WithStaged(files, u))
    ensures Jammed(names, files) ==> Jammed(ArchivedNames(names, u), WithStaged(files, u))
  {
    var names', files' := ArchivedNames(names, u), WithStaged(files, u);
    assert Rooted(names', files');
    forall id | id != u.next.journalId ensures RecordOf(names', files', id) == RecordOf(names, files, id) {
      RecordDepends(names, files, names', files', id);
    }
    LoadFinal(names, files, u);
    SafeReplace(names, files, names', files', u.next);
    if Jammed(names, files) {
      var name :| name in names && JamsAt(names, files, name);
      assert name != u.Final();
      JamStays(names, files, names', files', name);
    } else {
      ArchivedQuiescent(names, files, u);
      ArchivedFlushed(names, files, u);
    }
  }

  lemma SanePublished(names: Names, files: map<Inode, File>, u: Update)
    requires Sane(names, files) && CreateReady(names, files, u) && u.Final() !in names
    requires Quiescent(names, files) && !u.next.mutationMayHaveStarted
    ensures Sane(PublishedNames(names, u), WithStaged(files, u))
    ensures u.encoded == MAX_JOURNAL_BYTES ==> Jammed(PublishedNames(names, u), WithStaged(files, u))
  {
    var names', files' := PublishedNames(names, u), WithStaged(files, u);
    assert Rooted(names', files');
    forall id | id != u.next.journalId ensures RecordOf(names', files', id) == RecordOf(names, files, id) {
      RecordDepends(names, files, names', files', id);
    }
    LoadPublished(names, files, u);
    SafeReplace(names, files, names', files', u.next);
    if u.encoded == MAX_JOURNAL_BYTES {
      assert JamsAt(names', files', u.Final());
    } else {
      PublishedQuiescent(names, files, u);
      if Jammed(names, files) { JammedNotQuiescent(names, files); }
    }
  }

  // ----- the invariant over every run -----

  lemma LiveSane(d: Disk)
    requires Invariant(d)
    ensures Sane(Live(d), d.files) && ViewOf(d, Live(d))
  {
    LiveIsView(d.durable, d.pending);
  }

  /** What may be found while an update is being staged: an old view, or one of those
      with the staging name added. */
  lemma StagingSane(d: Disk, u: Update, steps: nat, view: Names)
    requires Invariant(d) && u.temp.Staging? && u.inode !in d.files
    requires steps <= 3 && ViewOf(StagedDisk(d, u, steps), view)
    ensures Sane(view, StagedDisk(d, u, steps).files)
    ensures ViewOf(d, view) || Jammed(view, StagedDisk(d, u, steps).files)
  {
    StagedFiles(d, u, steps);
    if steps > 0 {
      var file := StagedDisk(d, u, steps).files[u.inode];
      assert StagedDisk(d, u, steps).files == d.files[u.inode := file];
      StagingViews(d, u, steps, view);
      if ViewOf(d, view) {
        SaneWithFile(view, d.files, u.inode, file);
      } else {
        var v :| ViewOf(d, v) && view == StagedNames(v, u);
        SaneStaged(v, d.files, u, file);
      }
    }
  }

  lemma InvariantUpdate(d: Disk, u: Update, steps: nat)
    requires Invariant(d) && steps <= UPDATE_STEPS && UpdateReady(Live(d), d.files, u)
    requires Compatible(Live(d), d.files, u.next) && Retains(u.expected, u.next)
    requires steps > 6 ==> u.Archive() !in Live(d) && u.encoded < MAX_JOURNAL_BYTES
    ensures Invariant(UpdateDisk(d, u, steps))
    ensures forall view :: ViewOf(UpdateDisk(d, u, steps), view) ==>
              || (steps <= 3 && ViewOf(d, view))
              || Jammed(view, UpdateDisk(d, u, steps).files)
              || (steps > 6 && view == ArchivedNames(Live(d), u) && !Jammed(Live(d), d.files))
  {
    LiveSane(d);
    UpdateFiles(d, u, steps);
    forall view | ViewOf(UpdateDisk(d, u, steps), view)
      ensures Sane(view, UpdateDisk(d, u, steps).files)
      ensures || (steps <= 3 && ViewOf(d, view))
              || Jammed(view, UpdateDisk(d, u, steps).files)
              || (steps > 6 && view == ArchivedNames(Live(d), u) && !Jammed(Live(d), d.files))
    {
      if steps <= 3 {
        StagingSane(d, u, steps, view);
      } else {
        UpdateViews(d, u, steps, view);
        SaneStaged(Live(d), d.files, u, File(u.Written(), true));
        SaneExchanged(Live(d), d.files, u);
        if steps > 6 {
          SaneArchived(Live(d), d.files, u);
        }
      }
    }
  }

  lemma InvariantCreate(d: Disk, u: Update, steps: nat)
    requires Invariant(d) && steps <= CREATE_STEPS
    requires steps > 0 ==> CreateReady(Live(d), d.files, u) && Quiescent(Live(d), d.files)
                           && u.Final() !in Live(d) && !u.next.mutationMayHaveStarted
    ensures Invariant(CreateDisk(d, u, steps))
  {
    if steps > 0 {
      LiveSane(d);
      UpdateFiles(d, u, steps);
      forall view | ViewOf(CreateDisk(d, u, steps), view) ensures Sane(view, CreateDisk(d, u, steps).files) {
        if steps <= 3 {
          StagingSane(d, u, steps, view);
        } else {
          CreateViews(d, u, steps, view);
          SaneStaged(Live(d), d.files, u, File(u.Written(), true));
          SanePublished(Live(d), d.files, u);
        }
      }
    }
  }

  lemma SaneSurvived(names: Names, files: map<Inode, File>, files': map<Inode, File>)
    requires Sane(names, files) && Survived(files, files')
    ensures Sane(names, files')
    ensures Jammed(names, files) ==> Jammed(names, files')
    ensures !Jammed(names, files) ==>
              forall id :: RecordOf(names, files', id) == RecordOf(names, files, id)
  {
    forall id ensures RecordOf(names, files', id) in {None, RecordOf(names, files, id)} {
      assert Primary(id) in names ==> SingleLink(names, Primary(id));
    }
    forall id ensures Open(RecordOf(names, files', id)) ==> Open(RecordOf(names, files, id)) {
      assert RecordOf(names, files', id) in {None, RecordOf(names, files, id)};
    }
    forall id, planId
      ensures StartedOn(RecordOf(names, files', id), planId) ==> StartedOn(RecordOf(names, files, id), planId)
    {
      assert RecordOf(names, files', id) in {None, RecordOf(names, files, id)};
    }
    if Jammed(names, files) {
      var name :| name in names && JamsAt(names, files, name);
      JamStays(names, files, names, files', name);
    } else {
      FilesAgree(names, files, files');
      forall id ensures RecordOf(names, files', id) == RecordOf(names, files, id) {
        RecordDepends(names, files, names, files', id);
      }
    }
  }

  lemma InvariantPowerLoss(before: Disk, after: Disk)
    requires Invariant(before) && PowerLoss(before, after)
    ensures Invariant(after)
  {
    forall view | ViewOf(after, view) ensures Sane(view, after.files) {
      ViewSettled(after, view);
      SaneSurvived(view, before.files, after.files);
    }
  }

  /** A clear inventory leaves room for a started record. */
  lemma ClearIsCompatible(names: Names, files: map<Inode, File>, next: Journal)
    requires Quiescent(names, files)
    requires ClearBeside(Inventory(names, files), next.journalId, next.planId)
    ensures Compatible(names, files, next)
  {
    forall id | id != next.journalId && RecordOf(names, files, id).Some?
      ensures !Blocks(RecordOf(names, files, id).value, next.planId)
    {
      assert id in Inventory(names, files);
    }
  }

  /** The session's update of one transition keeps bindings and operation. */
  lemma SessionUpdateFacts(j: Journal, t: Transition, w: WriteContext)
    requires Valid(j) && Apply(j, t).Ok?
    ensures var u := SessionUpdate(j, t, w);
            && Retains(u.expected, u.next)
            && u.next.journalId == j.journalId && u.next.planId == j.planId
            && (j.mutationMayHaveStarted ==> u.next.mutationMayHaveStarted)
            && (t.RevalidateIdentity? ==> !j.mutationMayHaveStarted && !u.next.mutationMayHaveStarted)
            && (t.Abort? && !j.mutationMayHaveStarted ==> !u.next.mutationMayHaveStarted)
  {
    ApplyRetains(j, t);
  }

  /** Every step of the host keeps the invariant. */
  lemma InvariantStep(h: Host, s: Step, h': Host)
    requires Invariant(h.disk) && Next(h, s, h')
    ensures Invariant(h'.disk)
  {
    match s
    case Begin(handoff, id, w, steps, _) =>
      InvariantCreate(h.disk, FirstUpdate(handoff, id, w), steps);
    case Write(t, w, steps, _) =>
      if steps > 0 {
        var j := h.session.value;
        var u := SessionUpdate(j, t, w);
        SessionUpdateFacts(j, t, w);
        ClearIsCompatible(Live(h.disk), h.disk.files, u.next);
        ArchiveNameFresh(Live(h.disk), h.disk.files, u);
        InvariantUpdate(h.disk, u, steps);
      }
    case Revalidate(digest, w, steps, _) =>
      if steps > 0 {
        SessionUpdateFacts(h.session.value, RevalidateIdentity(digest), w);
        InvariantUpdate(h.disk, SessionUpdate(h.session.value, RevalidateIdentity(digest), w), steps);
      }
    case AbortPrewrite(shown, reason, w, steps) =>
      if steps > 0 {
        var u := SessionUpdate(shown, Abort(reason), w);
        SessionUpdateFacts(shown, Abort(reason), w);
        ArchiveNameFresh(Live(h.disk), h.disk.files, u);
        InvariantUpdate(h.disk, u, steps);
      }
    case SessionEnds =>
    case PowerFails => InvariantPowerLoss(h.disk, h'.disk);
  }

  ghost predicate Linked(hosts: seq<Host>, steps: seq<Step>, i: nat)
    requires |hosts| == |steps| + 1 && i < |steps|
  {
    Next(hosts[i], steps[i], hosts[i + 1])
  }

  /** A run: hosts linked by steps. */
  ghost predicate IsRun(hosts: seq<Host>, steps: seq<Step>) {
    |hosts| == |steps| + 1 && forall i :: 0 <= i < |steps| ==> Linked(hosts, steps, i)
  }

  const FIRST_HOST := Host(Disk(map[], [], map[]), None)

  // ----- an open mutation nobody can continue blocks the host for good -----

  /** This record has an open mutation and no session can write it any more: none holds
      it, or the one that does has it recorded as terminal. */
  predicate Hopeless(names: Names, files: map<Inode, File>, session: Option<Journal>, id: Digest) {
    && Open(RecordOf(names, files, id))
    && (session.None? || session.value.journalId != id
        || session.value != RecordOf(names, files, id).value
        || IsTerminal(session.value.phase))
  }

  /** Whatever is found is jammed or holds a hopeless record. */
  ghost predicate Hung(h: Host) {
    forall view :: ViewOf(h.disk, view) ==>
      Jammed(view, h.disk.files) || exists id :: Hopeless(view, h.disk.files, h.session, id)
  }

  /** In a quiescent directory a hopeless record blocks every new session, and the session
      at hand unless its own record is terminal. */
  lemma HopelessBlocks(h: Host)
    requires Invariant(h.disk) && Hung(h) && Quiescent(Live(h.disk), h.disk.files)
    ensures forall planId :: !Clear(Inventory(Live(h.disk), h.disk.files), planId)
    ensures h.session.Some? && InSync(Live(h.disk), h.disk.files, h.session.value)
            && ClearBeside(Inventory(Live(h.disk), h.disk.files),
                           h.session.value.journalId, h.session.value.planId)
            ==> IsTerminal(h.session.value.phase)
  {
    LiveSane(h.disk);
    if Jammed(Live(h.disk), h.disk.files) {
      JammedNotQuiescent(Live(h.disk), h.disk.files);
    } else {
      var id :| Hopeless(Live(h.disk), h.disk.files, h.session, id);
      assert id in Inventory(Live(h.disk), h.disk.files);
    }
  }

  /** A hopeless record stays hopeless while its name and file stay. */
  lemma HopelessStays(names: Names, files: map<Inode, File>, session: Option<Journal>,
                      names': Names, files': map<Inode, File>, session': Option<Journal>, id: Digest)
    requires Hopeless(names, files, session, id)
    requires RecordOf(names', files', id) == RecordOf(names, files, id)
    requires session' == session || session'.None? || session'.value.journalId != id
    ensures Hopeless(names', files', session', id)
  {
  }

  /** Updates that write a record without a started mutation leave a hung host hung. */
  lemma HungUpdate(h: Host, u: Update, steps: nat, session: Option<Journal>)
    requires Invariant(h.disk) && Hung(h) && steps <= UPDATE_STEPS
    requires UpdateReady(Live(h.disk), h.disk.files, u) && Retains(u.expected, u.next)
    requires !u.expected.mutationMayHaveStarted && !u.next.mutationMayHaveStarted
    requires steps > 6 ==> u.Archive() !in Live(h.disk) && u.encoded < MAX_JOURNAL_BYTES
    requires session == h.session || (steps == UPDATE_STEPS && session == Some(u.next))
    ensures Hung(Host(UpdateDisk(h.disk, u, steps), session))
  {
    var d' := UpdateDisk(h.disk, u, steps);
    forall view | ViewOf(d', view)
      ensures Jammed(view, d'.files) || exists id :: Hopeless(view, d'.files, session, id)
    {
      HungUpdateView(h, u, steps, session, view);
    }
  }

  lemma HungUpdateView(h: Host, u: Update, steps: nat, session: Option<Journal>, view: Names)
    requires Invariant(h.disk) && Hung(h) && steps <= UPDATE_STEPS
    requires UpdateReady(Live(h.disk), h.disk.files, u) && Retains(u.expected, u.next)
    requires !u.expected.mutationMayHaveStarted && !u.next.mutationMayHaveStarted
    requires steps > 6 ==> u.Archive() !in Live(h.disk) && u.encoded < MAX_JOURNAL_BYTES
    requires session == h.session || (steps == UPDATE_STEPS && session == Some(u.next))
    requires ViewOf(UpdateDisk(h.disk, u, steps), view)
    ensures var files := UpdateDisk(h.disk, u, steps).files;
            Jammed(view, files) || exists id :: Hopeless(view, files, session, id)
  {
    var files := UpdateDisk(h.disk, u, steps).files;
    UpdatedViews(h.disk, u, steps, view);
    if Jammed(view, files) {
    } else if steps <= 3 && ViewOf(h.disk, view) {
      StagingHung(h, u, steps, view);
    } else {
      FinishedHung(h, u, steps, session);
    }
  }

  lemma StagingHung(h: Host, u: Update, steps: nat, view: Names)
    requires Invariant(h.disk) && Hung(h) && ViewOf(h.disk, view) && u.inode !in h.disk.files
    ensures var files := UpdateDisk(h.disk, u, steps).files;
            Jammed(view, files) || exists id :: Hopeless(view, files, h.session, id)
  {
    UpdateFiles(h.disk, u, steps);
    OldViewHung(h, view, FilesAt(h.disk.files, u, steps));
  }

  lemma FinishedHung(h: Host, u: Update, steps: nat, session: Option<Journal>)
    requires Invariant(h.disk) && Hung(h) && !Jammed(Live(h.disk), h.disk.files)
    requires UpdateReady(Live(h.disk), h.disk.files, u) && u.Archive() !in Live(h.disk) && steps > 6
    requires !u.expected.mutationMayHaveStarted && u.expected.journalId == u.next.journalId
    requires session == h.session || session == Some(u.next)
    ensures exists id :: Hopeless(ArchivedNames(Live(h.disk), u), UpdateDisk(h.disk, u, steps).files, session, id)
  {
    UpdateFiles(h.disk, u, steps);
    ArchivedHung(h, u, session);
  }

  /** What an update without a started mutation leaves to be found. */
  lemma UpdatedViews(d: Disk, u: Update, steps: nat, view: Names)
    requires Invariant(d) && steps <= UPDATE_STEPS
    requires UpdateReady(Live(d), d.files, u) && Retains(u.expected, u.next) && !u.next.mutationMayHaveStarted
    requires steps > 6 ==> u.Archive() !in Live(d) && u.encoded < MAX_JOURNAL_BYTES
    requires ViewOf(UpdateDisk(d, u, steps), view)
    ensures || (steps <= 3 && ViewOf(d, view))
            || Jammed(view, UpdateDisk(d, u, steps).files)
            || (steps > 6 && view == ArchivedNames(Live(d), u) && !Jammed(Live(d), d.files))
  {
    InvariantUpdate(d, u, steps);
  }

  /** The finished update left the hopeless record alone: it wrote another ID. */
  lemma ArchivedHung(h: Host, u: Update, session: Option<Journal>)
    requires Invariant(h.disk) && Hung(h) && !Jammed(Live(h.disk), h.disk.files)
    requires UpdateReady(Live(h.disk), h.disk.files, u) && u.Archive() !in Live(h.disk)
    requires !u.expected.mutationMayHaveStarted && u.expected.journalId == u.next.journalId
    requires session == h.session || session == Some(u.next)
    ensures exists id :: Hopeless(ArchivedNames(Live(h.disk), u), WithStaged(h.disk.files, u), session, id)
  {
    var names, files := Live(h.disk), h.disk.files;
    LiveSane(h.disk);
    var id :| Hopeless(names, files, h.session, id);
    assert RecordOf(names, files, u.next.journalId) == Some(u.expected);
    LoadUnaffected(names, files, u, Primary(id), id);
    HopelessStays(names, files, h.session, ArchivedNames(names, u), WithStaged(files, u), session, id);
  }

  lemma OldViewHung(h: Host, view: Names, files: map<Inode, File>)
    requires Invariant(h.disk) && Hung(h) && ViewOf(h.disk, view)
    requires forall i :: i in h.disk.files ==> i in files && files[i] == h.disk.files[i]
    ensures Jammed(view, files) || exists id :: Hopeless(view, files, h.session, id)
  {
    assert Sane(view, h.disk.files);
    if Jammed(view, h.disk.files) {
      var name :| name in view && JamsAt(view, h.disk.files, name);
      JamStays(view, h.disk.files, view, files, name);
    } else {
      var id :| Hopeless(view, h.disk.files, h.session, id);
      RecordDepends(view, h.disk.files, view, files, id);
      HopelessStays(view, h.disk.files, h.session, view, files, h.session, id);
    }
  }

  lemma HungPowerLoss(h: Host, after: Disk)
    requires Invariant(h.disk) && Hung(h) && PowerLoss(h.disk, after)
    ensures Hung(Host(after, None))
  {
    forall view | ViewOf(after, view)
      ensures Jammed(view, after.files) || exists id :: Hopeless(view, after.files, None, id)
    {
      ViewSettled(after, view);
      assert Sane(view, h.disk.files);
      SaneSurvived(view, h.disk.files, after.files);
      if !Jammed(view, h.disk.files) {
        var id :| Hopeless(view, h.disk.files, h.session, id);
        HopelessStays(view, h.disk.files, h.session, view, after.files, None, id);
      }
    }
  }

  lemma HungEnds(h: Host)
    requires Hung(h)
    ensures Hung(Host(h.disk, None))
  {
    forall view | ViewOf(h.disk, view) && !Jammed(view, h.disk.files)
      ensures exists id :: Hopeless(view, h.disk.files, None, id)
    {
      var id :| Hopeless(view, h.disk.files, h.session, id);
      HopelessStays(view, h.disk.files, h.session, view, h.disk.files, None, id);
    }
  }

  /** A hung host stays hung: no session begins, the present one writes no further
      transition, and what else happens leaves a hopeless record behind. */
  lemma HungStep(h: Host, s: Step, h': Host)
    requires Invariant(h.disk) && Hung(h) && Next(h, s, h')
    ensures Hung(h')
    ensures s.Begin? ==> !s.ok && h' == h
    ensures s.Write? ==> !s.ok && h' == h
  {
    if Quiescent(Live(h.disk), h.disk.files) { HopelessBlocks(h); }
    match s
    case Begin(_, _, _, _, _) =>
    case Write(_, _, _, _) =>
    case Revalidate(digest, w, steps, _) =>
      if steps > 0 {
        SessionUpdateFacts(h.session.value, RevalidateIdentity(digest), w);
        HungUpdate(h, SessionUpdate(h.session.value, RevalidateIdentity(digest), w), steps, h'.session);
      }
    case AbortPrewrite(shown, reason, w, steps) =>
      if steps > 0 {
        SessionUpdateFacts(shown, Abort(reason), w);
        ArchiveNameFresh(Live(h.disk), h.disk.files, SessionUpdate(shown, Abort(reason), w));
        HungUpdate(h, SessionUpdate(shown, Abort(reason), w), steps, h'.session);
      }
    case SessionEnds => HungEnds(h);
    case PowerFails => HungPowerLoss(h, h'.disk);
  }

  // ----- what can be found agrees with what is seen -----

  /** The names show every open record that the other names show. */
  ghost predicate ShowsOpen(names: Names, live: Names, files: map<Inode, File>) {
    forall id :: Open(RecordOf(live, files, id)) ==> RecordOf(names, files, id) == RecordOf(live, files, id)
  }

  /** Whatever a power loss would leave is jammed or shows every open record that the
      running program sees. */
  ghost predicate Agree(d: Disk) {
    forall view :: ViewOf(d, view) ==> Jammed(view, d.files) || ShowsOpen(view, Live(d), d.files)
  }

  lemma AgreeSettled(d: Disk)
    requires d.pending == []
    ensures Agree(d)
  {
    forall view | ViewOf(d, view) ensures ShowsOpen(view, Live(d), d.files) {
      ViewSettled(d, view);
    }
  }

  /** A new file changes no record, and with it a new staging name neither. */
  lemma StagedRecords(names: Names, files: map<Inode, File>, u: Update, file: File)
    requires Sane(names, files) && u.temp.Staging? && u.inode !in files
    ensures forall id :: RecordOf(names, files[u.inode := file], id) == RecordOf(names, files, id)
    ensures forall id :: RecordOf(StagedNames(names, u), files[u.inode := file], id) == RecordOf(names, files, id)
    ensures Jammed(names, files) ==> Jammed(names, files[u.inode := file])
  {
    var files' := files[u.inode := file];
    assert Rooted(names, files') && Rooted(StagedNames(names, u), files');
    forall id
      ensures RecordOf(names, files', id) == RecordOf(names, files, id)
      ensures RecordOf(StagedNames(names, u), files', id) == RecordOf(names, files, id)
    {
      RecordDepends(names, files, names, files', id);
      RecordDepends(names, files, StagedNames(names, u), files', id);
    }
    if Jammed(names, files) {
      var name :| name in names && JamsAt(names, files, name);
      JamStays(names, files, names, files', name);
    }
  }

  lemma ShowsStaged(view: Names, live: Names, files: map<Inode, File>, u: Update, file: File)
    requires Sane(view, files) && Sane(live, files) && u.temp.Staging? && u.inode !in files
    requires Jammed(view, files) || ShowsOpen(view, live, files)
    ensures Jammed(view, files[u.inode := file])
            || ShowsOpen(view, StagedNames(live, u), files[u.inode := file])
  {
    StagedRecords(view, files, u, file);
    StagedRecords(live, files, u, file);
    var files', live' := files[u.inode := file], StagedNames(live, u);
    if !Jammed(view, files') {
      forall id | Open(RecordOf(live', files', id))
        ensures RecordOf(view, files', id) == RecordOf(live', files', id)
      {
        assert Open(RecordOf(live, files, id));
      }
    }
  }

  /** While a record is being staged, an old view still agrees. */
  lemma AgreeStaging(d: Disk, u: Update, steps: nat, view: Names)
    requires Invariant(d) && Agree(d) && u.temp.Staging? && u.inode !in d.files
    requires 0 < steps <= 3 && ViewOf(d, view)
    ensures var after := StagedDisk(d, u, steps);
            Jammed(view, after.files) || ShowsOpen(view, Live(after), after.files)
  {
    LiveSane(d);
    StagedFiles(d, u, steps);
    StagedLive(d, u, steps);
    var file := StagedDisk(d, u, steps).files[u.inode];
    assert StagedDisk(d, u, steps).files == d.files[u.inode := file];
    ShowsStaged(view, Live(d), d.files, u, file);
  }

  lemma AgreeUpdate(d: Disk, u: Update, steps: nat)
    requires Invariant(d) && Agree(d) && steps <= UPDATE_STEPS && UpdateReady(Live(d), d.files, u)
    requires Compatible(Live(d), d.files, u.next) && Retains(u.expected, u.next)
    requires steps > 6 ==> u.Archive() !in Live(d) && u.encoded < MAX_JOURNAL_BYTES
    ensures Agree(UpdateDisk(d, u, steps))
  {
    var after := UpdateDisk(d, u, steps);
    if steps > 0 {
      InvariantUpdate(d, u, steps);
      UpdateLive(d, u, steps);
      forall view | ViewOf(after, view) && !Jammed(view, after.files)
        ensures ShowsOpen(view, Live(after), after.files)
      {
        if steps <= 3 && ViewOf(d, view) {
          AgreeStaging(d, u, steps, view);
        } else {
          assert view == Live(after);
        }
      }
    }
  }

  lemma AgreeCreate(d: Disk, u: Update, steps: nat)
    requires Invariant(d) && Agree(d) && steps <= CREATE_STEPS
    requires steps > 0 ==> CreateReady(Live(d), d.files, u) && u.Final() !in Live(d)
    ensures Agree(CreateDisk(d, u, steps))
  {
    var after := CreateDisk(d, u, steps);
    if steps > 0 {
      CreateLive(d, u, steps);
      forall view | ViewOf(after, view) && !Jammed(view, after.files)
        ensures ShowsOpen(view, Live(after), after.files)
      {
        if steps <= 3 && ViewOf(d, view) {
          AgreeStaging(d, u, steps, view);
        } else {
          NewViews(d, u, steps, view);
          assert view == Live(after);
        }
      }
    }
  }

  /** A view of a creation that is neither old nor jammed is the present one. */
  lemma NewViews(d: Disk, u: Update, steps: nat, view: Names)
    requires u.temp.Staging? && u.temp !in Live(d) && 0 < steps <= CREATE_STEPS
    requires steps > 4 ==> u.Final() !in Live(d)
    requires ViewOf(CreateDisk(d, u, steps), view) && !Jammed(view, CreateDisk(d, u, steps).files)
    requires steps <= 3 ==> !ViewOf(d, view)
    ensures view == Live(CreateDisk(d, u, steps))
  {
    CreateViews(d, u, steps, view);
    CreateLive(d, u, steps);
    if u.temp in view { JamsByStaging(view, CreateDisk(d, u, steps).files, u.temp); }
  }

  /** Every step of the host keeps the agreement. */
  lemma AgreeStep(h: Host, s: Step, h': Host)
    requires Invariant(h.disk) && Agree(h.disk) && Next(h, s, h')
    ensures Agree(h'.disk)
  {
    match s
    case Begin(handoff, id, w, steps, _) =>
      AgreeCreate(h.disk, FirstUpdate(handoff, id, w), steps);
    case Write(t, w, steps, _) =>
      if steps > 0 {
        var u := SessionUpdate(h.session.value, t, w);
        SessionUpdateFacts(h.session.value, t, w);
        ClearIsCompatible(Live(h.disk), h.disk.files, u.next);
        ArchiveNameFresh(Live(h.disk), h.disk.files, u);
        AgreeUpdate(h.disk, u, steps);
      }
    case Revalidate(digest, w, steps, _) =>
      if steps > 0 {
        SessionUpdateFacts(h.session.value, RevalidateIdentity(digest), w);
        AgreeUpdate(h.disk, SessionUpdate(h.session.value, RevalidateIdentity(digest), w), steps);
      }
    case AbortPrewrite(shown, reason, w, steps) =>
      if steps > 0 {
        var u := SessionUpdate(shown, Abort(reason), w);
        SessionUpdateFacts(shown, Abort(reason), w);
        ArchiveNameFresh(Live(h.disk), h.disk.files, u);
        AgreeUpdate(h.disk, u, steps);
      }
    case SessionEnds =>
    case PowerFails => AgreeSettled(h'.disk);
  }

  /** A hopeless record that the running program can see hangs the host, whatever is still
      unsynced. */
  lemma HopelessHangs(h: Host, id: Digest)
    requires Agree(h.disk) && Hopeless(Live(h.disk), h.disk.files, h.session, id)
    ensures Hung(h)
  {
    forall view | ViewOf(h.disk, view) && !Jammed(view, h.disk.files)
      ensures Hopeless(view, h.disk.files, h.session, id)
    {
      assert ShowsOpen(view, Live(h.disk), h.disk.files);
    }
  }

  // ----- over every run -----

  /** Runs from an empty directory. */
  datatype Trace = Trace(hosts: seq<Host>, steps: seq<Step>)
  {
    ghost predicate IsHistory() {
      IsRun(hosts, steps) && hosts[0] == FIRST_HOST
    }
  }

  type History = t: Trace | t.IsHistory() ghost witness Trace([FIRST_HOST], [])

  ghost predicate Healthy(h: Host) {
    Invariant(h.disk) && Agree(h.disk)
  }

  lemma FirstHealthy()
    ensures Healthy(FIRST_HOST)
  {
    forall v | ViewOf(FIRST_HOST.disk, v) ensures Sane(v, FIRST_HOST.disk.files) {
      ViewSettled(FIRST_HOST.disk, v);
    }
    AgreeSettled(FIRST_HOST.disk);
  }

  lemma HealthyStep(h: Host, s: Step, h': Host)
    requires Healthy(h) && Next(h, s, h')
    ensures Healthy(h')
  {
    InvariantStep(h, s, h');
    AgreeStep(h, s, h');
  }

  lemma {:induction false} HealthyAlways(history: History, n: nat, h: Host)
    requires n < |history.hosts| && h == history.hosts[n]
    ensures Healthy(h)
    decreases n
  {
    if n == 0 {
      FirstHealthy();
    } else {
      var before := history.hosts[n - 1];
      HealthyAlways(history, n - 1, before);
      ghost var linked := Linked(history.hosts, history.steps, n - 1);
      HealthyStep(before, history.steps[n - 1], h);
    }
  }

  /** Host-wide safety. In every run from an empty directory, at every moment and whatever
      a power loss at that moment would leave: at most one record is mutation-started and
      not completed, and at most one started record exists per plan. */
  lemma HostWideSafety(history: History, n: nat, view: Names)
    requires n < |history.hosts| && ViewOf(history.hosts[n].disk, view)
    ensures Safe(view, history.hosts[n].disk.files)
    ensures Jammed(view, history.hosts[n].disk.files)
            || (Quiescent(view, history.hosts[n].disk.files)
                && NamedFlushed(view, history.hosts[n].disk.files))
  {
    HealthyAlways(history, n, history.hosts[n]);
    assert Sane(view, history.hosts[n].disk.files);
  }

  predicate BeginRefused(history: Trace, i: nat)
    requires i < |history.steps| && |history.hosts| == |history.steps| + 1
  {
    history.steps[i].Begin? ==> !history.steps[i].ok && history.hosts[i + 1] == history.hosts[i]
  }

  /** One step from a hung host. */
  lemma HungLink(history: History, i: nat, h: Host, h': Host)
    requires i < |history.steps| && h == history.hosts[i] && h' == history.hosts[i + 1] && Hung(h)
    ensures Hung(h') && BeginRefused(history, i)
  {
    HealthyAlways(history, i, h);
    ghost var linked := Linked(history.hosts, history.steps, i);
    HungStep(h, history.steps[i], h');
  }

  lemma {:induction false} HungFrom(history: History, n: nat, m: nat, h: Host)
    requires n <= m < |history.hosts| && h == history.hosts[m] && Hung(history.hosts[n])
    ensures Hung(h)
    decreases m
  {
    if n < m {
      HungFrom(history, n, m - 1, history.hosts[m - 1]);
      HungLink(history, m - 1, history.hosts[m - 1], h);
    }
  }

  /** Once hung, no session ever begins again. */
  lemma HungForever(history: History, n: nat, m: nat)
    requires n <= m < |history.steps| && Hung(history.hosts[n])
    ensures BeginRefused(history, m)
  {
    HungFrom(history, n, m, history.hosts[m]);
    HungLink(history, m, history.hosts[m], history.hosts[m + 1]);
  }

  /** In every run: if at some moment the program sees an open mutation that nobody can
      continue, every later attempt to begin a session is refused and changes nothing. */
  lemma OpenMutationBlocks(history: History, n: nat, m: nat, id: Digest)
    requires n <= m < |history.steps|
    requires Hopeless(Live(history.hosts[n].disk), history.hosts[n].disk.files, history.hosts[n].session, id)
    ensures BeginRefused(history, m)
  {
    HealthyAlways(history, n, history.hosts[n]);
    HopelessHangs(history.hosts[n], id);
    HungForever(history, n, m);
  }

  /** A record seen as RecoveryRequired is such a mutation, however its write was answered. */
  lemma RecoveryRequiredHangs(history: History, n: nat, m: nat, id: Digest)
    requires n <= m < |history.steps|
    requires var j := RecordOf(Live(history.hosts[n].disk), history.hosts[n].disk.files, id);
             j.Some? && j.value.phase.RecoveryRequired?
    ensures BeginRefused(history, m)
  {
    OpenMutationBlocks(history, n, m, id);
  }

  /** So is a record seen in Executing or Verifying when no session is there, whether the
      one that wrote it ended, failed or died before its last sync. */
  lemma AbandonedHangs(history: History, n: nat, m: nat, id: Digest)
    requires n <= m < |history.steps| && history.hosts[n].session.None?
    requires var j := RecordOf(Live(history.hosts[n].disk), history.hosts[n].disk.files, id);
             j.Some? && (j.value.phase.Executing? || j.value.phase.Verifying?)
    ensures BeginRefused(history, m)
  {
    OpenMutationBlocks(history, n, m, id);
  }

  // ----- calls that stop inside a write -----

  /** The call stopped between the end of staging and the archive rename, or it created a
      record that its newline takes over the limit. */
  predicate StopsInside(s: Step) {
    match s
    case Begin(_, _, w, steps, _) => steps == 4 || (steps > 4 && w.encoded == MAX_JOURNAL_BYTES)
    case Write(_, _, steps, _) => 4 <= steps <= 6
    case Revalidate(_, _, steps, _) => 4 <= steps <= 6
    case AbortPrewrite(_, _, _, steps) => 4 <= steps <= 6
    case SessionEnds => false
    case PowerFails => false
  }

  lemma StoppedUpdateJams(d: Disk, u: Update, steps: nat, view: Names)
    requires UpdateReady(Live(d), d.files, u) && 4 <= steps <= 6 && ViewOf(UpdateDisk(d, u, steps), view)
    ensures Jammed(view, UpdateDisk(d, u, steps).files)
  {
    UpdateViews(d, u, steps, view);
    JamsByStaging(view, UpdateDisk(d, u, steps).files, u.temp);
  }

  lemma StoppedCreationJams(d: Disk, u: Update, steps: nat, view: Names)
    requires CreateReady(Live(d), d.files, u) && u.Final() !in Live(d) && ViewOf(CreateDisk(d, u, steps), view)
    requires 4 <= steps <= CREATE_STEPS && (steps > 4 ==> u.encoded == MAX_JOURNAL_BYTES)
    ensures Jammed(view, CreateDisk(d, u, steps).files)
  {
    CreateViews(d, u, steps, view);
    UpdateFiles(d, u, steps);
    var name := if u.temp in view then u.temp else u.Final();
    assert JamsAt(view, CreateDisk(d, u, steps).files, name);
  }

  lemma StoppedCallHangs(h: Host, s: Step, h': Host)
    requires Next(h, s, h') && StopsInside(s)
    ensures Hung(h')
  {
    forall view | ViewOf(h'.disk, view) ensures Jammed(view, h'.disk.files) {
      match s
      case Begin(handoff, id, w, steps, _) =>
        StoppedCreationJams(h.disk, FirstUpdate(handoff, id, w), steps, view);
      case Write(t, w, steps, _) =>
        StoppedUpdateJams(h.disk, SessionUpdate(h.session.value, t, w), steps, view);
      case Revalidate(digest, w, steps, _) =>
        StoppedUpdateJams(h.disk, SessionUpdate(h.session.value, RevalidateIdentity(digest), w), steps, view);
      case AbortPrewrite(shown, reason, w, steps) =>
        StoppedUpdateJams(h.disk, SessionUpdate(shown, Abort(reason), w), steps, view);
    }
  }

  /** In every run: after a call that stopped inside its write, as it does for a record of
      exactly the size limit, every later begin is refused and changes nothing. */
  lemma StoppedCallBlocks(history: History, n: nat, m: nat)
    requires n < m < |history.steps| && StopsInside(history.steps[n])
    ensures BeginRefused(history, m)
  {
    StoppedLink(history, n, history.hosts[n], history.hosts[n + 1]);
    HungForever(history, n + 1, m);
  }

  lemma StoppedLink(history: History, n: nat, h: Host, h': Host)
    requires n < |history.steps| && h == history.hosts[n] && h' == history.hosts[n + 1]
    requires StopsInside(history.steps[n])
    ensures Hung(h')
  {
    ghost var linked := Linked(history.hosts, history.steps, n);
    StoppedCallHangs(h, history.steps[n], h');
  }
}
