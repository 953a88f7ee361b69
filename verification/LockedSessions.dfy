/** The locked execution session (crates/executor/src/locked_session.rs).

    A session keeps the journal in memory and writes every transition ahead through the
    store. Its invariant `Standing` relates the two: the durable record equals the one in
    memory or is exactly one transition ahead of it, and the directory is quiescent or
    blocked by a staging name. */
module LockedSessions {
  import opened Wrappers
  import opened Journals
  import opened JournalValidator
  import opened JournalUpdates
  import opened EntryNames
  import opened Disks
  import opened StoreStates
  import opened CrashSafety
  import opened RecordCreation
  import opened JournalStore
  import opened AttemptIds

  datatype SessionError =
    | HandoffBlocked
    | RevalidationAlreadyAttempted
    | Refused(reason: JournalError)
    | DurableJournalRequired
    | DurableJournalMismatch
    | Durable(error: StoreError)
    | Attempts(problem: AttemptError)
    | UnfinishedMutation
    | UnclassifiedRuntimeJournal

  /** Identity of the operation a handoff freezes. */
  datatype Handoff = Handoff(
    blocked: bool, guardId: Digest, planId: Digest, target: string, baselineManifestDigest: Digest)
  {
    function Proposed(): Journal {
      NewJournal(guardId, planId, target, baselineManifestDigest)
    }
  }

  /** What one write needs from its surroundings: the encoded length of the record, fresh
      names, and whether records of another journal format lie beside the store. */
  datatype WriteContext = WriteContext(encoded: nat, temp: Name, inode: Inode, foreignEvidence: bool)

  /** This record blocks an operation on the plan: its mutation may have started, and it
      is not completed or belongs to the same plan. */
  predicate Blocks(previous: Journal, planId: Digest) {
    previous.mutationMayHaveStarted && (!previous.phase.Completed? || previous.planId == planId)
  }

  predicate Clear(history: map<Digest, Journal>, planId: Digest) {
    forall id :: id in history ==> !Blocks(history[id], planId)
  }

  /** Clear of every record but one's own. */
  predicate ClearBeside(history: map<Digest, Journal>, own: Digest, planId: Digest) {
    forall id :: id in history && id != own ==> !Blocks(history[id], planId)
  }

  // ----- memory against disk -----

  predicate InSync(names: Names, files: map<Inode, File>, j: Journal) {
    Quiescent(names, files) && Load(names, files, Primary(j.journalId), j.journalId) == Some(j)
  }

  ghost predicate OneAhead(names: Names, files: map<Inode, File>, j: Journal) {
    && Quiescent(names, files)
    && exists t :: Apply(j, t).Ok?
         && Load(names, files, Primary(j.journalId), j.journalId) == Some(Apply(j, t).value)
  }

  /** The record in the file the primary name leads to, whatever the length of the file. */
  function Held(names: Names, files: map<Inode, File>, id: Digest): Option<Journal> {
    var name := Primary(id);
    if name in names && names[name] in files && SingleLink(names, name) then
      match files[names[name]].content
      case Torn => None
      case Record(j, _) => if Valid(j) && j.journalId == id then Some(j) else None
    else None
  }

  /** The reader finds the record held, unless the file is over the size limit. */
  lemma HeldLoads(names: Names, files: map<Inode, File>, id: Digest)
    ensures Load(names, files, Primary(id), id).Some? ==>
              Load(names, files, Primary(id), id) == Held(names, files, id)
    ensures Held(names, files, id).Some? ==>
              (Load(names, files, Primary(id), id) == Held(names, files, id)
               <==> files[names[Primary(id)]].content.length <= MAX_JOURNAL_BYTES)
  {
  }

  /** The record is this one or exactly one transition ahead of it. */
  ghost predicate Near(j: Journal, r: Journal) {
    r == j || exists t :: Apply(j, t) == Ok(r)
  }

  /** Memory and disk: the durable record is the one in memory or one transition ahead, in a
      directory that is quiescent or blocked. */
  ghost predicate Standing(d: Disk, j: Journal) {
    && (Quiescent(Live(d), d.files) || Blocked(Live(d)))
    && Held(Live(d), d.files, j.journalId).Some?
    && Near(j, Held(Live(d), d.files, j.journalId).value)
  }

  /** In a directory that is not blocked, that is: in sync or one ahead. */
  lemma StandingOpen(d: Disk, j: Journal)
    requires Standing(d, j) && !Blocked(Live(d))
    ensures InSync(Live(d), d.files, j) || OneAhead(Live(d), d.files, j)
  {
    var names, id := Live(d), j.journalId;
    assert Primary(id) in names && EntryReadable(names, d.files, Primary(id));
    HeldLoads(names, d.files, id);
    var r := Held(names, d.files, id).value;
    if r != j {
      var t :| Apply(j, t) == Ok(r);
      assert Apply(j, t).value == r;
    }
  }

  lemma InSyncStands(d: Disk, j: Journal)
    requires InSync(Live(d), d.files, j)
    ensures Standing(d, j) && Held(Live(d), d.files, j.journalId) == Some(j)
  {
    HeldLoads(Live(d), d.files, j.journalId);
  }

  /** The update a session writes for a transition. */
  function SessionUpdate(j: Journal, t: Transition, w: WriteContext): Update
    requires Apply(j, t).Ok?
  {
    Update(w.temp, w.inode, j, Apply(j, t).value, w.encoded)
  }

  /** The primary record at a step of an update: the old one until the exchange, the new
      one from then on. */
  function RecordAt(u: Update, steps: nat): Journal {
    if steps <= 4 then u.expected else u.next
  }

  lemma HeldStaged(names: Names, files: map<Inode, File>, files': map<Inode, File>, u: Update)
    requires UpdateReady(names, files, u)
    requires forall i :: i in files ==> i in files' && files'[i] == files[i]
    ensures Load(StagedNames(names, u), files', u.Final(), u.next.journalId) == Some(u.expected)
  {
    assert SingleLink(names, u.Final());
    assert SingleLink(StagedNames(names, u), u.Final());
  }

  lemma HeldExchanged(names: Names, files: map<Inode, File>, u: Update)
    requires UpdateReady(names, files, u)
    ensures Held(ExchangedNames(names, u), WithStaged(files, u), u.next.journalId) == Some(u.next)
    ensures Load(ExchangedNames(names, u), WithStaged(files, u), u.Final(), u.next.journalId)
            == if u.encoded < MAX_JOURNAL_BYTES then Some(u.next) else None
  {
    assert SingleLink(ExchangedNames(names, u), u.Final());
  }

  lemma HeldArchived(names: Names, files: map<Inode, File>, u: Update)
    requires UpdateReady(names, files, u) && u.Archive() !in names
    ensures Held(ArchivedNames(names, u), WithStaged(files, u), u.next.journalId) == Some(u.next)
    ensures Load(ArchivedNames(names, u), WithStaged(files, u), u.Final(), u.next.journalId)
            == if u.encoded < MAX_JOURNAL_BYTES then Some(u.next) else None
  {
    assert SingleLink(ArchivedNames(names, u), u.Final());
  }

  /** At every step of an update, in whatever directory, the primary name holds the old
      record up to the exchange and the new one after it, and the reader finds it there; the
      one exception is a new record whose newline takes it over the limit. */
  lemma PrimaryAlong(d: Disk, u: Update, steps: nat)
    requires UpdateReady(Live(d), d.files, u) && steps <= UPDATE_STEPS
    requires steps > 6 ==> u.Archive() !in Live(d)
    ensures var after := UpdateDisk(d, u, steps);
            && Held(Live(after), after.files, u.next.journalId) == Some(RecordAt(u, steps))
            && (Load(Live(after), after.files, u.Final(), u.next.journalId)
                == if steps <= 4 || u.encoded < MAX_JOURNAL_BYTES then Some(RecordAt(u, steps)) else None)
  {
    var after := UpdateDisk(d, u, steps);
    UpdateLive(d, u, steps);
    UpdateFiles(d, u, steps);
    HeldLoads(Live(after), after.files, u.next.journalId);
    if 1 <= steps <= 4 {
      HeldStaged(Live(d), d.files, after.files, u);
    } else if 5 <= steps <= 6 {
      HeldExchanged(Live(d), d.files, u);
    } else if steps > 6 {
      HeldArchived(Live(d), d.files, u);
    }
  }

  /** From its first step to its sixth an update keeps its staging name in the directory. */
  lemma BlockedInside(d: Disk, u: Update, steps: nat)
    requires UpdateReady(Live(d), d.files, u) && 1 <= steps <= 6
    ensures Blocked(Live(UpdateDisk(d, u, steps)))
  {
    UpdateLive(d, u, steps);
    assert u.temp in Live(UpdateDisk(d, u, steps));
  }

  lemma NearAt(j: Journal, t: Transition, w: WriteContext, steps: nat)
    requires Apply(j, t).Ok?
    ensures Near(j, RecordAt(SessionUpdate(j, t, w), steps))
  {
    assert Apply(j, t) == Ok(SessionUpdate(j, t, w).next);
  }

  /** When a session whose record is in sync writes a transition, every disk on the way
      keeps its standing: the record is the one in memory up to the fourth step and one
      transition ahead from the fifth on; the directory is blocked from the first step to
      the sixth, and from the archive rename on the reader finds exactly the one record
      replaced. */
  lemma StandingAlong(d: Disk, j: Journal, t: Transition, w: WriteContext, steps: nat)
    requires InSync(Live(d), d.files, j) && Apply(j, t).Ok?
    requires steps <= UPDATE_STEPS
    requires steps > 0 ==> UpdateReady(Live(d), d.files, SessionUpdate(j, t, w))
    requires steps > 6 ==> w.encoded < MAX_JOURNAL_BYTES
    ensures var after := UpdateDisk(d, SessionUpdate(j, t, w), steps);
            && Standing(after, j)
            && Held(Live(after), after.files, j.journalId) == Some(RecordAt(SessionUpdate(j, t, w), steps))
            && (steps <= 4 || w.encoded < MAX_JOURNAL_BYTES ==>
                  Load(Live(after), after.files, Primary(j.journalId), j.journalId)
                  == Some(RecordAt(SessionUpdate(j, t, w), steps)))
            && (steps == 0 ==> after == d)
            && (1 <= steps <= 6 ==> Blocked(Live(after)))
            && (steps > 6 ==>
                  && InSync(Live(after), after.files, Apply(j, t).value)
                  && OneAhead(Live(after), after.files, j)
                  && AllOf(Live(after), after.files)
                     == Some(Inventory(Live(d), d.files)[j.journalId := Apply(j, t).value]))
  {
    var u := SessionUpdate(j, t, w);
    if steps == 0 {
      InSyncStands(d, j);
    } else {
      ArchiveNameFresh(Live(d), d.files, u);
      NearAt(j, t, w, steps);
      PrimaryAlong(d, u, steps);
      if steps <= 6 {
        BlockedInside(d, u, steps);
      } else {
        FinishedInSync(d, j, t, w, steps);
      }
    }
  }

  /** A finished update that keeps bindings: the reader finds exactly the one record replaced. */
  lemma FinishedUpdate(d: Disk, u: Update, steps: nat)
    requires Quiescent(Live(d), d.files) && UpdateReady(Live(d), d.files, u)
    requires Retains(u.expected, u.next) && u.encoded < MAX_JOURNAL_BYTES && 6 < steps <= UPDATE_STEPS
    ensures var after := UpdateDisk(d, u, steps);
            && InSync(Live(after), after.files, u.next)
            && AllOf(Live(after), after.files)
               == Some(Inventory(Live(d), d.files)[u.next.journalId := u.next])
  {
    ArchiveNameFresh(Live(d), d.files, u);
    FinishedState(d, u, steps);
    FinishedRecords(Live(d), d.files, u);
  }

  lemma FinishedState(d: Disk, u: Update, steps: nat)
    requires UpdateReady(Live(d), d.files, u) && u.Archive() !in Live(d) && 6 < steps <= UPDATE_STEPS
    ensures Live(UpdateDisk(d, u, steps)) == ArchivedNames(Live(d), u)
    ensures UpdateDisk(d, u, steps).files == WithStaged(d.files, u)
  {
    UpdateLive(d, u, steps);
    UpdateFiles(d, u, steps);
  }

  lemma FinishedRecords(names: Names, files: map<Inode, File>, u: Update)
    requires Quiescent(names, files) && UpdateReady(names, files, u)
    requires Retains(u.expected, u.next) && u.encoded < MAX_JOURNAL_BYTES
    ensures InSync(ArchivedNames(names, u), WithStaged(files, u), u.next)
    ensures AllOf(ArchivedNames(names, u), WithStaged(files, u))
            == Some(Inventory(names, files)[u.next.journalId := u.next])
  {
    ArchivedQuiescent(names, files, u);
    HeldArchived(names, files, u);
  }

  lemma AheadBy(names: Names, files: map<Inode, File>, j: Journal, t: Transition)
    requires Apply(j, t).Ok? && Apply(j, t).value.journalId == j.journalId
    requires InSync(names, files, Apply(j, t).value)
    ensures OneAhead(names, files, j)
  {
  }

  lemma FinishedInSync(d: Disk, j: Journal, t: Transition, w: WriteContext, steps: nat)
    requires InSync(Live(d), d.files, j) && Apply(j, t).Ok? && 6 < steps <= UPDATE_STEPS
    requires UpdateReady(Live(d), d.files, SessionUpdate(j, t, w)) && w.encoded < MAX_JOURNAL_BYTES
    ensures var after := UpdateDisk(d, SessionUpdate(j, t, w), steps);
            && InSync(Live(after), after.files, Apply(j, t).value)
            && OneAhead(Live(after), after.files, j)
            && AllOf(Live(after), after.files)
               == Some(Inventory(Live(d), d.files)[j.journalId := Apply(j, t).value])
  {
    var u := SessionUpdate(j, t, w);
    var after := UpdateDisk(d, u, steps);
    ApplyRetains(j, t);
    FinishedUpdate(d, u, steps);
    AheadBy(Live(after), after.files, j, t);
  }

  /** Every disk an operation leaves behind is consistent. */
  lemma StaysConsistent(d: Disk, u: Update, steps: nat)
    requires Consistent(d) && steps <= UPDATE_STEPS
    requires steps > 0 ==> u.temp.Staging? && u.temp !in Live(d) && u.Final() in Live(d)
    requires steps > 6 ==> u.Archive() !in Live(d)
    ensures Consistent(UpdateDisk(d, u, steps))
  {
    if steps > 0 {
      UpdateLive(d, u, steps);
      UpdateFiles(d, u, steps);
    }
  }

  lemma StaysConsistentNew(d: Disk, u: Update, steps: nat)
    requires Consistent(d) && steps <= CREATE_STEPS
    requires steps > 0 ==> u.temp.Staging? && u.temp !in Live(d)
    requires steps > 4 ==> u.Final() !in Live(d)
    ensures Consistent(CreateDisk(d, u, steps))
  {
    if steps > 4 {
      CreateLive(d, u, steps);
      UpdateFiles(d, u, steps);
    } else if steps > 0 {
      StagedLive(d, u, steps);
      UpdateFiles(d, u, steps);
    }
  }

  // ----- the steps a session takes on the disk -----

  /** `persist_*`: nothing is written unless the record is in sync, no other record blocks
      the plan and the transition applies; then some number of update steps is taken. */
  ghost predicate WriteStep(d: Disk, j: Journal, t: Transition, w: WriteContext, steps: nat, after: Disk) {
    && steps <= UPDATE_STEPS
    && (steps == 0 ==> after == d)
    && (steps > 0 ==>
          && InSync(Live(d), d.files, j)
          && ClearBeside(Inventory(Live(d), d.files), j.journalId, j.planId)
          && Apply(j, t).Ok? && UpdateReady(Live(d), d.files, SessionUpdate(j, t, w))
          && (steps > 6 ==> w.encoded < MAX_JOURNAL_BYTES)
          && after == UpdateDisk(d, SessionUpdate(j, t, w), steps))
  }

  /** `revalidate`: as above, but the inventory is not consulted. */
  ghost predicate RevalidateStep(d: Disk, j: Journal, digest: Digest, w: WriteContext, steps: nat, after: Disk) {
    && steps <= UPDATE_STEPS
    && (steps == 0 ==> after == d)
    && (steps > 0 ==>
          && Apply(j, RevalidateIdentity(digest)).Ok?
          && var u := SessionUpdate(j, RevalidateIdentity(digest), w);
             && UpdateReady(Live(d), d.files, u)
             && (steps > 6 ==> u.Archive() !in Live(d) && w.encoded < MAX_JOURNAL_BYTES)
             && after == UpdateDisk(d, u, steps))
  }

  /** What a session checks before it writes. */
  ghost predicate MayWrite(d: Disk, j: Journal, t: Transition) {
    && InSync(Live(d), d.files, j)
    && ClearBeside(Inventory(Live(d), d.files), j.journalId, j.planId)
    && Apply(j, t).Ok?
  }

  /** What the writes of a session need: the record in sync, no other record in the way, a
      transition that applies, and room for what it writes. */
  ghost predicate CanWrite(d: Disk, j: Journal, t: Transition, w: WriteContext) {
    && MayWrite(d, j, t) && UpdateReady(Live(d), d.files, SessionUpdate(j, t, w))
    && w.encoded < MAX_JOURNAL_BYTES
  }

  /** What `revalidate` needs: less, for it does not read the inventory. */
  ghost predicate CanRevalidate(d: Disk, j: Journal, digest: Digest, w: WriteContext) {
    && w.encoded < MAX_JOURNAL_BYTES && Apply(j, RevalidateIdentity(digest)).Ok?
    && UpdateReady(Live(d), d.files, SessionUpdate(j, RevalidateIdentity(digest), w))
    && SessionUpdate(j, RevalidateIdentity(digest), w).Archive() !in Live(d)
  }

  class LockedSession {
    const handoff: Handoff
    const store: DurableStore?
    var journal: Journal
    var revalidationAttempted: bool

    /** Memory agrees with the disk up to one transition; without a store the journal never
        gets past the identity check. */
    ghost predicate Sound()
      reads this, store
    {
      if store == null then
        journal.phase.HostLockHeld? || (journal.phase.IdentityRevalidated? && revalidationAttempted)
      else
        Consistent(store.disk) && Standing(store.disk, journal)
    }

    /** `begin` without a store. */
    constructor Begin(handoff: Handoff)
      ensures store == null && Sound() && !revalidationAttempted
      ensures Apply(handoff.Proposed(), HostLockAcquired) == Ok(journal)
    {
      this.handoff := handoff;
      store := null;
      journal := Apply(handoff.Proposed(), HostLockAcquired).value;
      revalidationAttempted := false;
    }

    constructor Attach(handoff: Handoff, store: DurableStore, journal: Journal)
      requires Consistent(store.disk) && InSync(Live(store.disk), store.disk.files, journal)
      ensures this.handoff == handoff && this.store == store && this.journal == journal
      ensures !revalidationAttempted && Sound()
    {
      this.handoff := handoff;
      this.store := store;
      this.journal := journal;
      revalidationAttempted := false;
    }

    /** `require_current_durable_journal`. */
    method RequireCurrent(foreignEvidence: bool) returns (r: Result<(), SessionError>)
      requires Sound()
      ensures r.Ok? ==> store != null && InSync(Live(store.disk), store.disk.files, journal)
                        && ClearBeside(Inventory(Live(store.disk), store.disk.files),
                                       journal.journalId, journal.planId)
      ensures r.Ok? ==> !foreignEvidence
      ensures store == null ==> r == Err(DurableJournalRequired)
      ensures store != null && !store.faulty && !foreignEvidence ==>
                InSync(Live(store.disk), store.disk.files, journal) ==>
                ClearBeside(Inventory(Live(store.disk), store.disk.files), journal.journalId, journal.planId) ==>
                r.Ok?
    {
      if store == null { return Err(DurableJournalRequired); }
      var all := store.All();
      if all.Err? { return Err(Durable(all.error)); }
      var id := journal.journalId;
      if id !in all.value || all.value[id] != journal { return Err(DurableJournalMismatch); }
      if !ClearBeside(all.value, id, journal.planId) { return Err(UnfinishedMutation); }
      if foreignEvidence { return Err(UnclassifiedRuntimeJournal); }
      return Ok(());
    }

    /** The body shared by the eight `persist_*` methods: check, apply, write ahead, and
        only then advance the journal in memory. */
    method Persist(t: Transition, w: WriteContext) returns (r: Result<(), SessionError>, ghost steps: nat)
      requires Sound() && w.temp.Staging?
      modifies this`journal, store
      ensures Sound()
      ensures store == null ==> r == Err(DurableJournalRequired) && journal == old(journal)
      ensures r.Err? ==> journal == old(journal)
      ensures store != null ==> WriteStep(old(store.disk), old(journal), t, w, steps, store.disk)
      ensures r.Ok? ==> store != null && steps == UPDATE_STEPS && Apply(old(journal), t) == Ok(journal)
                        && InSync(Live(store.disk), store.disk.files, journal)
      ensures store != null && !store.faulty ==>
                (r.Ok? <==> !w.foreignEvidence && CanWrite(old(store.disk), old(journal), t, w))
      // a reliable store that is asked to write stops only where the record does not fit
      ensures store != null && !store.faulty ==>
                steps == if !w.foreignEvidence && MayWrite(old(store.disk), old(journal), t)
                         then UpdateStop(Live(old(store.disk)), old(store.disk.files),
                                         SessionUpdate(old(journal), t, w))
                         else 0
      // once memory and disk differ, nothing is ever written again
      ensures store != null && !InSync(Live(old(store.disk)), old(store.disk.files), old(journal)) ==>
                r.Err? && store.disk == old(store.disk)
    {
      steps := 0;
      var current := RequireCurrent(w.foreignEvidence);
      if current.Err? { return Err(current.error), steps; }
      var next := Apply(journal, t);
      if next.Err? { return Err(Refused(next.error)), steps; }
      r, steps := WriteAhead(t, w);
    }

    /** `persist_if_matches` on the session's store, then the assignment to `journal`. */
    method WriteAhead(t: Transition, w: WriteContext) returns (r: Result<(), SessionError>, ghost steps: nat)
      requires store != null && Consistent(store.disk) && w.temp.Staging?
      requires InSync(Live(store.disk), store.disk.files, journal) && Apply(journal, t).Ok?
      modifies this`journal, store
      ensures Sound()
      ensures r.Err? ==> journal == old(journal)
      ensures steps > 0 ==>
                UpdateReady(Live(old(store.disk)), old(store.disk.files), SessionUpdate(old(journal), t, w))
      ensures steps <= UPDATE_STEPS && (steps > 6 ==> w.encoded < MAX_JOURNAL_BYTES)
      ensures store.disk == UpdateDisk(old(store.disk), SessionUpdate(old(journal), t, w), steps)
      ensures r.Ok? ==> steps == UPDATE_STEPS && Apply(old(journal), t) == Ok(journal)
                        && InSync(Live(store.disk), store.disk.files, journal)
      ensures !store.faulty ==>
                (r.Ok? <==> UpdateReady(Live(old(store.disk)), old(store.disk.files),
                                        SessionUpdate(old(journal), t, w))
                            && w.encoded < MAX_JOURNAL_BYTES)
      ensures !store.faulty ==>
                steps == UpdateStop(Live(old(store.disk)), old(store.disk.files), SessionUpdate(old(journal), t, w))
    {
      ghost var before := store.disk;
      var next := Apply(journal, t).value;
      ghost var u;
      var written;
      written, u, steps := store.PersistIfMatches(journal, next, w.encoded, w.temp, w.inode);
      if steps > 0 { ArchiveNameFresh(Live(before), before.files, u); }
      StandingAlong(before, journal, t, w, steps);
      StaysConsistent(before, u, steps);
      if UpdateReady(Live(before), before.files, u) { ArchiveNameFresh(Live(before), before.files, u); }
      if written.Err? { return Err(Durable(written.error)), steps; }
      journal := next;
      return Ok(()), steps;
    }

    /** `revalidate`: tried at most once per session; a matching identity advances the
        journal, through the store when there is one. The write does not look at the
        inventory first: success means the primary name holds the new record, and in a
        directory without a staging name that it is in sync. */
    method Revalidate(identityMatches: bool, capabilitiesMatch: bool, freshDigest: Digest, w: WriteContext)
      returns (r: Result<bool, SessionError>, ghost steps: nat)
      requires Sound() && w.temp.Staging?
      modifies this, store
      ensures Sound() && revalidationAttempted
      ensures store != null ==>
                RevalidateStep(old(store.disk), old(journal), freshDigest, w, steps, store.disk)
      ensures store != null && r == Ok(true) ==> steps == UPDATE_STEPS
      ensures old(revalidationAttempted) ==>
                r == Err(RevalidationAlreadyAttempted) && journal == old(journal)
                && (store != null ==> store.disk == old(store.disk))
      ensures r == Ok(true) ==>
                && identityMatches && capabilitiesMatch && freshDigest == journal.baselineManifestDigest
                && Apply(old(journal), RevalidateIdentity(freshDigest)) == Ok(journal)
                && journal.phase.IdentityRevalidated?
                && (store != null ==>
                      Load(Live(store.disk), store.disk.files, Primary(journal.journalId), journal.journalId)
                      == Some(journal))
                && (store != null && !Blocked(Live(old(store.disk))) ==>
                      InSync(Live(store.disk), store.disk.files, journal))
      ensures r != Ok(true) ==> journal == old(journal)
      ensures store != null && !store.faulty ==>
                (r == Ok(true) <==>
                   && !old(revalidationAttempted) && identityMatches && capabilitiesMatch
                   && CanRevalidate(old(store.disk), old(journal), freshDigest, w))
      ensures store == null ==>
                (r == Ok(true) <==>
                   && !old(revalidationAttempted) && identityMatches && capabilitiesMatch
                   && Apply(old(journal), RevalidateIdentity(freshDigest)).Ok?)
      ensures r == Ok(false) ==> !(identityMatches && capabilitiesMatch)
    {
      steps := 0;
      if revalidationAttempted { return Err(RevalidationAlreadyAttempted), steps; }
      revalidationAttempted := true;
      if !identityMatches || !capabilitiesMatch { return Ok(false), steps; }
      var t := RevalidateIdentity(freshDigest);
      var next := Apply(journal, t);
      if next.Err? { return Err(Refused(next.error)), steps; }
      if store != null {
        ghost var before := store.disk;
        ghost var u;
        var written;
        written, u, steps := store.PersistIfMatches(journal, next.value, w.encoded, w.temp, w.inode);
        if steps > 0 {
          RevalidationStanding(before, journal, t, w, steps);
          PrimaryAlong(before, u, steps);
        }
        StaysConsistent(before, u, steps);
        if written.Err? { return Err(Durable(written.error)), steps; }
      }
      journal := next.value;
      return Ok(true), steps;
    }
  }

  /** A record one transition ahead is not the one in memory, so the store refuses. */
  lemma AheadIsNotExpected(d: Disk, j: Journal)
    requires OneAhead(Live(d), d.files, j)
    ensures Load(Live(d), d.files, Primary(j.journalId), j.journalId) != Some(j)
  {
    var t :| Apply(j, t).Ok?
             && Load(Live(d), d.files, Primary(j.journalId), j.journalId) == Some(Apply(j, t).value);
    ApplyAppends(j, t);
  }

  /** What the unguarded write of `revalidate` can leave behind: the record stands as in any
      other write, even in a directory that was blocked before and stays so. */
  lemma RevalidationStanding(d: Disk, j: Journal, t: Transition, w: WriteContext, steps: nat)
    requires Standing(d, j) && Apply(j, t).Ok? && 0 < steps <= UPDATE_STEPS
    requires var u := SessionUpdate(j, t, w);
             && UpdateReady(Live(d), d.files, u)
             && (steps > 6 ==> u.Archive() !in Live(d) && w.encoded < MAX_JOURNAL_BYTES)
    ensures var after := UpdateDisk(d, SessionUpdate(j, t, w), steps);
            && Standing(after, j)
            && Held(Live(after), after.files, j.journalId) == Some(RecordAt(SessionUpdate(j, t, w), steps))
            && (steps > 6 ==> Standing(after, Apply(j, t).value))
            && (if Blocked(Live(d)) then Blocked(Live(after))
                else InSync(Live(d), d.files, j)
                     && (steps > 6 ==> InSync(Live(after), after.files, Apply(j, t).value)))
  {
    var u := SessionUpdate(j, t, w);
    NearAt(j, t, w, steps);
    PrimaryAlong(d, u, steps);
    if Blocked(Live(d)) {
      BlockedStays(d, u, steps);
    } else {
      StandingOpen(d, j);
      if OneAhead(Live(d), d.files, j) { AheadIsNotExpected(d, j); }
      StandingAlong(d, j, t, w, steps);
      if steps > 6 { InSyncStands(UpdateDisk(d, u, steps), Apply(j, t).value); }
    }
  }

  // ----- beginning a durable session -----

  /** The first record of a session: a new journal under an attempt ID, lock held. */
  function FirstRecord(handoff: Handoff, id: Digest): Journal {
    Push(handoff.Proposed().(journalId := id), HostLockHeld, CodeHostLock, Standard)
  }

  function FirstUpdate(handoff: Handoff, id: Digest, w: WriteContext): Update {
    Update(w.temp, w.inode, FirstRecord(handoff, id), FirstRecord(handoff, id), w.encoded)
  }

  /** What must hold of the inventory before a session may write its first record. */
  ghost predicate MayBegin(history: map<Digest, Journal>, handoff: Handoff, id: Digest) {
    && !handoff.blocked && Clear(history, handoff.planId)
    && exists k :: 0 <= k < MAX_ATTEMPTS && GapFree(history, handoff.Proposed(), k)
                   && id == Candidate(handoff.Proposed(), k)
  }

  /** `begin`: nothing is written unless the inventory is clear and gap-free; then some
      number of creation steps of the first record is taken. */
  ghost predicate BeginStep(d: Disk, handoff: Handoff, id: Digest, w: WriteContext, steps: nat, after: Disk) {
    && steps <= CREATE_STEPS
    && after == CreateDisk(d, FirstUpdate(handoff, id, w), steps)
    && (steps > 0 ==>
          && Quiescent(Live(d), d.files)
          && MayBegin(Inventory(Live(d), d.files), handoff, id)
          && CreateReady(Live(d), d.files, FirstUpdate(handoff, id, w))
          && Primary(id) !in Live(d))
  }

  /** When a session may begin: some attempt ID is next, and its first record can be written. */
  ghost predicate CanBegin(d: Disk, handoff: Handoff, w: WriteContext) {
    && Quiescent(Live(d), d.files) && w.encoded < MAX_JOURNAL_BYTES
    && exists id :: MayBegin(Inventory(Live(d), d.files), handoff, id)
                    && CreateReady(Live(d), d.files, FirstUpdate(handoff, id, w))
  }

  /** The next attempt ID is determined by the inventory, and no record has it. */
  lemma BeginsOnce(history: map<Digest, Journal>, handoff: Handoff, a: Digest, b: Digest)
    requires MayBegin(history, handoff, a) && MayBegin(history, handoff, b)
    ensures a == b && a !in history
  {
    var i :| 0 <= i < MAX_ATTEMPTS && GapFree(history, handoff.Proposed(), i)
             && a == Candidate(handoff.Proposed(), i);
    var k :| 0 <= k < MAX_ATTEMPTS && GapFree(history, handoff.Proposed(), k)
             && b == Candidate(handoff.Proposed(), k);
    GapFreeUnique(history, handoff.Proposed(), i, k);
  }

  /** The first half of `begin_with_lock`: read the inventory and find the next attempt. It
      writes nothing. */
  method ChooseAttempt(handoff: Handoff, store: DurableStore, foreignEvidence: bool)
    returns (r: Result<(Digest, map<Digest, Journal>), SessionError>)
    ensures r.Ok? ==>
              && !foreignEvidence && Quiescent(Live(store.disk), store.disk.files)
              && r.value.1 == Inventory(Live(store.disk), store.disk.files)
              && MayBegin(r.value.1, handoff, r.value.0)
    ensures !store.faulty && r.Err? ==>
              foreignEvidence || !Quiescent(Live(store.disk), store.disk.files)
              || forall id :: !MayBegin(Inventory(Live(store.disk), store.disk.files), handoff, id)
  {
    if handoff.blocked { return Err(HandoffBlocked); }
    if foreignEvidence { return Err(UnclassifiedRuntimeJournal); }
    var history := store.All();
    if history.Err? { return Err(Durable(history.error)); }
    if !Clear(history.value, handoff.planId) { return Err(UnfinishedMutation); }
    var attempt := NextAttemptId(history.value, handoff.Proposed());
    if attempt.Err? { return Err(Attempts(attempt.error)); }
    var again := store.All();
    if again.Err? { return Err(Durable(again.error)); }
    if again.value != history.value { return Err(Durable(ChangedDuringInspection)); }
    return Ok((attempt.value, history.value));
  }

  /** What a published first record leaves. */
  lemma FirstPublished(d: Disk, u: Update)
    requires Quiescent(Live(d), d.files) && CreateReady(Live(d), d.files, u) && u.Final() !in Live(d)
    requires u.encoded < MAX_JOURNAL_BYTES
    ensures var after := CreateDisk(d, u, CREATE_STEPS);
            && InSync(Live(after), after.files, u.next)
            && AllOf(Live(after), after.files)
               == Some(Inventory(Live(d), d.files)[u.next.journalId := u.next])
  {
    CreateLive(d, u, CREATE_STEPS);
    UpdateFiles(d, u, CREATE_STEPS);
    PublishedQuiescent(Live(d), d.files, u);
    LoadPublished(Live(d), d.files, u);
  }

  /** The second half: write the first record and read it back. */
  method WriteFirst(handoff: Handoff, id: Digest, history: map<Digest, Journal>, store: DurableStore,
                    w: WriteContext)
    returns (r: Result<(), SessionError>, ghost steps: nat)
    requires Consistent(store.disk) && w.temp.Staging?
    requires Quiescent(Live(store.disk), store.disk.files) && Primary(id) !in Live(store.disk)
    requires history == Inventory(Live(store.disk), store.disk.files)
    modifies store
    ensures steps <= CREATE_STEPS && Consistent(store.disk)
    ensures store.disk == CreateDisk(old(store.disk), FirstUpdate(handoff, id, w), steps)
    ensures steps > 0 ==> CreateReady(Live(old(store.disk)), old(store.disk).files, FirstUpdate(handoff, id, w))
    ensures r.Ok? ==>
              && steps == CREATE_STEPS && w.encoded < MAX_JOURNAL_BYTES
              && InSync(Live(store.disk), store.disk.files, FirstRecord(handoff, id))
              && AllOf(Live(store.disk), store.disk.files)
                 == Some(Inventory(Live(old(store.disk)), old(store.disk).files)[id := FirstRecord(handoff, id)])
    ensures !store.faulty ==>
              (r.Ok? <==> w.encoded < MAX_JOURNAL_BYTES
                          && CreateReady(Live(old(store.disk)), old(store.disk).files, FirstUpdate(handoff, id, w)))
  {
    ghost var before := store.disk;
    steps := 0;
    var journal := FirstRecord(handoff, id);
    ghost var u;
    var written;
    written, u, steps := store.PersistNew(journal, w.encoded, w.temp, w.inode);
    StaysConsistentNew(before, u, steps);
    if written.Err? { return Err(Durable(written.error)), steps; }
    FirstPublished(before, u);
    var after := store.All();
    if after.Err? { return Err(Durable(after.error)), steps; }
    if after.value != history[journal.journalId := journal] {
      return Err(Durable(ChangedDuringInspection)), steps;
    }
    return Ok(()), steps;
  }

  /** `begin_with_lock` on a durable store. Whatever the outcome, the disk is the old one
      advanced by some creation steps of the first record, and it is the old one unless
      the inventory was clear; success means exactly that record was added. */
  method BeginDurable(handoff: Handoff, store: DurableStore, w: WriteContext)
    returns (r: Result<LockedSession, SessionError>, ghost id: Digest, ghost steps: nat)
    requires Consistent(store.disk) && w.temp.Staging?
    modifies store
    ensures BeginStep(old(store.disk), handoff, id, w, steps, store.disk) && Consistent(store.disk)
    ensures r.Ok? ==>
              && steps == CREATE_STEPS && w.encoded < MAX_JOURNAL_BYTES
              && fresh(r.value) && r.value.store == store && r.value.Sound()
              && r.value.journal == FirstRecord(handoff, id)
              && AllOf(Live(store.disk), store.disk.files)
                 == Some(Inventory(Live(old(store.disk)), old(store.disk).files)[id := FirstRecord(handoff, id)])
    ensures !store.faulty ==> (r.Ok? <==> !w.foreignEvidence && CanBegin(old(store.disk), handoff, w))
  {
    id := handoff.guardId;
    steps := 0;
    var attempt := ChooseAttempt(handoff, store, w.foreignEvidence);
    if attempt.Err? { return Err(attempt.error), id, steps; }
    var next, history := attempt.value.0, attempt.value.1;
    id := next;
    forall other | MayBegin(history, handoff, other) ensures other == next && next !in history {
      BeginsOnce(history, handoff, other, next);
    }
    assert Primary(next) !in Live(store.disk);
    var written;
    written, steps := WriteFirst(handoff, next, history, store, w);
    if written.Err? { return Err(written.error), id, steps; }
    var session := new LockedSession.Attach(handoff, store, FirstRecord(handoff, next));
    return Ok(session), id, steps;
  }
}
