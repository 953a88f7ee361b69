/** What can be found after a crash at any step of an update
    (crates/executor/src/journal_store.rs, `persist_if_matches_with_hooks`). */
module CrashSafety {
  import opened Wrappers
  import opened Journals
  import opened JournalUpdates
  import opened EntryNames
  import opened Disks
  import opened StoreStates

  /** Files while an update runs: the staged file, whole or torn, beside the old ones. */
  function WithStaged(files: map<Inode, File>, u: Update): map<Inode, File> {
    files[u.inode := File(u.Written(), true)]
  }

  // ----- reading after the last step -----

  lemma LoadUnaffected(names: Names, files: map<Inode, File>, u: Update, name: Name, id: Digest)
    requires UpdateReady(names, files, u) && u.Archive() !in names
    requires name in names && name != u.Final()
    ensures var after := ArchivedNames(names, u);
            name in after && Load(after, WithStaged(files, u), name, id) == Load(names, files, name, id)
  {
    var after := ArchivedNames(names, u);
    assert SingleLink(names, u.Final());
    assert names[name] != names[u.Final()];
    assert SingleLink(after, name) <==> SingleLink(names, name) by {
      if SingleLink(names, name) {
        forall other | other in after && after[other] == after[name] ensures other == name {
        }
      }
      if SingleLink(after, name) {
        forall other | other in names && names[other] == names[name] ensures other == name {
          if other != u.Final() {
            assert after[other] == after[name];
          }
        }
      }
    }
  }

  lemma LoadFinal(names: Names, files: map<Inode, File>, u: Update)
    requires UpdateReady(names, files, u) && u.Archive() !in names
    ensures var after := ArchivedNames(names, u);
            && Load(after, WithStaged(files, u), u.Final(), u.next.journalId)
               == (if u.encoded < MAX_JOURNAL_BYTES then Some(u.next) else None)
            && Load(after, WithStaged(files, u), u.Archive(), u.next.journalId) == Some(u.expected)
  {
    var after := ArchivedNames(names, u);
    assert SingleLink(names, u.Final());
    assert SingleLink(after, u.Final());
    assert SingleLink(after, u.Archive()) by {
      forall other | other in after && after[other] == after[u.Archive()] ensures other == u.Archive() {
      }
    }
  }

  /** The archived records of the same ID still match after an update that keeps bindings. */
  lemma ArchivesStillMatch(names: Names, files: map<Inode, File>, u: Update)
    requires Quiescent(names, files) && UpdateReady(names, files, u) && u.Archive() !in names
    requires Retains(u.expected, u.next) && u.encoded < MAX_JOURNAL_BYTES
    ensures Quiescent(ArchivedNames(names, u), WithStaged(files, u))
  {
    var after, files' := ArchivedNames(names, u), WithStaged(files, u);
    LoadFinal(names, files, u);
    forall name | name in after
      ensures EntryReadable(after, files', name)
      ensures name.History? ==> ArchiveMatches(after, files', name)
    {
      if name == u.Archive() {
      } else if name == u.Final() {
      } else {
        assert name in names && EntryReadable(names, files, name);
        LoadUnaffected(names, files, u, name, name.id);
        if name.History? {
          assert ArchiveMatches(names, files, name);
          if name.id == u.next.journalId {
            HistoryMatchesStep(Load(names, files, name, name.id).value, u.expected, u.next);
          } else {
            LoadUnaffected(names, files, u, Primary(name.id), name.id);
          }
        }
      }
    }
  }

  lemma InventoryAfter(names: Names, files: map<Inode, File>, u: Update)
    requires Quiescent(names, files) && UpdateReady(names, files, u) && u.Archive() !in names
    requires Retains(u.expected, u.next) && u.encoded < MAX_JOURNAL_BYTES
    requires Quiescent(ArchivedNames(names, u), WithStaged(files, u))
    ensures AllOf(ArchivedNames(names, u), WithStaged(files, u))
            == Some(Inventory(names, files)[u.next.journalId := u.next])
  {
    LoadFinal(names, files, u);
    var all := Inventory(names, files);
    forall id | id in all && id != u.next.journalId
      ensures Load(ArchivedNames(names, u), WithStaged(files, u), Primary(id), id) == Some(all[id])
    {
      LoadUnaffected(names, files, u, Primary(id), id);
    }
    InventoryDetermined(ArchivedNames(names, u), WithStaged(files, u), all[u.next.journalId := u.next]);
  }

  lemma NotQuiescentAfter(names: Names, files: map<Inode, File>, u: Update)
    requires Quiescent(names, files) && UpdateReady(names, files, u) && u.Archive() !in names
    requires !Retains(u.expected, u.next) || u.encoded == MAX_JOURNAL_BYTES
    ensures !Quiescent(ArchivedNames(names, u), WithStaged(files, u))
  {
    LoadFinal(names, files, u);
    assert u.Archive() in ArchivedNames(names, u);
    assert !ArchiveMatches(ArchivedNames(names, u), WithStaged(files, u), u.Archive());
  }

  /** With its names archived the directory is quiescent if and only if the update kept the
      bindings already present and the record leaves room for its final newline. */
  lemma ArchivedQuiescent(names: Names, files: map<Inode, File>, u: Update)
    requires Quiescent(names, files) && UpdateReady(names, files, u)
    ensures u.Archive() !in names
    ensures Quiescent(ArchivedNames(names, u), WithStaged(files, u)) <==>
            Retains(u.expected, u.next) && u.encoded < MAX_JOURNAL_BYTES
    ensures Retains(u.expected, u.next) && u.encoded < MAX_JOURNAL_BYTES ==>
              AllOf(ArchivedNames(names, u), WithStaged(files, u))
              == Some(Inventory(names, files)[u.next.journalId := u.next])
  {
    ArchiveNameFresh(names, files, u);
    if Retains(u.expected, u.next) && u.encoded < MAX_JOURNAL_BYTES {
      ArchivesStillMatch(names, files, u);
      InventoryAfter(names, files, u);
    } else {
      NotQuiescentAfter(names, files, u);
    }
  }

  // ----- what survives -----

  /** The files while staging and ever after. */
  function FilesAt(files: map<Inode, File>, u: Update, step: nat): map<Inode, File> {
    if step == 0 then files
    else if step == 1 then files[u.inode := File(Torn, false)]
    else if step == 2 then files[u.inode := File(u.Written(), false)]
    else WithStaged(files, u)
  }

  lemma StagedFiles(d: Disk, u: Update, step: nat)
    ensures StagedDisk(d, u, step).files == FilesAt(d.files, u, step)
  {
    assert d.files[u.inode := File(Torn, false)][u.inode := File(u.Written(), false)]
           == d.files[u.inode := File(u.Written(), false)];
    assert d.files[u.inode := File(Torn, false)][u.inode := File(u.Written(), true)]
           == WithStaged(d.files, u);
  }

  lemma UpdateFiles(d: Disk, u: Update, step: nat)
    ensures UpdateDisk(d, u, step).files == FilesAt(d.files, u, step)
    ensures CreateDisk(d, u, step).files == FilesAt(d.files, u, step)
  {
    StagedFiles(d, u, step);
    StagedFiles(d, u, 4);
  }

  /** No step of an update alters a file that was there before it. */
  lemma UpdateKeepsFiles(d: Disk, u: Update, step: nat)
    requires u.inode !in d.files
    ensures KeepsFiles(d, UpdateDisk(d, u, step)) && KeepsFiles(d, CreateDisk(d, u, step))
  {
    UpdateFiles(d, u, step);
  }

  /** While the staging name is not yet synced, it is in a view or it is not. */
  lemma StagingViews(d: Disk, u: Update, step: nat, view: Names)
    requires 1 <= step <= 3 && ViewOf(StagedDisk(d, u, step), view)
    ensures ViewOf(d, view) || exists w :: ViewOf(d, w) && view == StagedNames(w, u)
  {
    ViewAppend(d.durable, d.pending, Link(u.temp, u.inode), view);
    if !ViewOf(d, view) {
      var w :| IsView(d.durable, d.pending, w) && view == Change(w, Link(u.temp, u.inode));
      assert ViewOf(d, w) && view == StagedNames(w, u);
    }
  }

  /** With one change pending, a power loss finds the names before it or after it. */
  lemma OnePendingViews(settled: Disk, change: NameChange, view: Names)
    requires settled.pending == [] && ViewOf(Issue(settled, change), view)
    ensures view == settled.durable || view == Change(settled.durable, change)
  {
    assert settled.pending + [change] == [] + [change];
    ViewAppend(settled.durable, [], change, view);
  }

  /** After a sync there is one view only. */
  lemma SyncedViews(d: Disk, u: Update, step: nat, view: Names)
    requires u.temp.Staging? && u.temp !in Live(d) && u.Final() in Live(d)
    requires step == 4 || step == 6 || step == 8
    requires step > 6 ==> u.Archive() !in Live(d)
    requires ViewOf(UpdateDisk(d, u, step), view)
    ensures view == NamesAt(Live(d), u, step)
  {
    UpdateLive(d, u, step);
    ViewSettled(UpdateDisk(d, u, step), view);
  }

  /** Between two syncs there are two: before the change and after it. */
  lemma ExchangeViews(d: Disk, u: Update, view: Names)
    requires u.temp.Staging? && u.temp !in Live(d) && u.Final() in Live(d)
    requires ViewOf(UpdateDisk(d, u, 5), view)
    ensures view == StagedNames(Live(d), u) || view == ExchangedNames(Live(d), u)
  {
    StagedLive(d, u, 4);
    ExchangeThenArchive(Live(d), u);
    OnePendingViews(StagedDisk(d, u, 4), Exchange(u.temp, u.Final()), view);
  }

  lemma ArchiveViews(d: Disk, u: Update, view: Names)
    requires u.temp.Staging? && u.temp !in Live(d) && u.Final() in Live(d) && u.Archive() !in Live(d)
    requires ViewOf(UpdateDisk(d, u, 7), view)
    ensures view == ExchangedNames(Live(d), u) || view == ArchivedNames(Live(d), u)
  {
    UpdateLive(d, u, 6);
    ExchangeThenArchive(Live(d), u);
    OnePendingViews(UpdateDisk(d, u, 6), Move(u.temp, u.Archive()), view);
  }

  /** Names that may be found after a power loss, step by step. */
  lemma UpdateViews(d: Disk, u: Update, step: nat, view: Names)
    requires u.temp.Staging? && u.temp !in Live(d) && u.Final() in Live(d) && step <= UPDATE_STEPS
    requires step > 6 ==> u.Archive() !in Live(d)
    requires ViewOf(UpdateDisk(d, u, step), view)
    ensures step == 0 ==> ViewOf(d, view)
    ensures 1 <= step <= 3 ==>
              ViewOf(d, view) || exists w :: ViewOf(d, w) && view == StagedNames(w, u)
    ensures step == 4 ==> view == StagedNames(Live(d), u)
    ensures step == 5 ==> view == StagedNames(Live(d), u) || view == ExchangedNames(Live(d), u)
    ensures step == 6 ==> view == ExchangedNames(Live(d), u)
    ensures step == 7 ==> view == ExchangedNames(Live(d), u) || view == ArchivedNames(Live(d), u)
    ensures step == 8 ==> view == ArchivedNames(Live(d), u)
  {
    if 1 <= step <= 3 {
      StagingViews(d, u, step, view);
    } else if step == 5 {
      ExchangeViews(d, u, view);
    } else if step == 7 {
      ArchiveViews(d, u, view);
    } else if step >= 4 {
      SyncedViews(d, u, step, view);
    }
  }

  /** Starting from synced names, at most one namespace change is ever pending. */
  lemma AtMostOnePending(d: Disk, u: Update, step: nat)
    requires d.pending == [] && step <= UPDATE_STEPS
    ensures |UpdateDisk(d, u, step).pending| <= 1
  {
  }

  /** A file holding this record is reachable by some name. */
  predicate Present(names: Names, files: map<Inode, File>, j: Journal) {
    exists name :: name in names && Holds(names, files, name, j)
  }

  predicate Holds(names: Names, files: map<Inode, File>, name: Name, j: Journal)
    requires name in names
  {
    names[name] in files && files[names[name]].content.Record? && files[names[name]].content.journal == j
  }

  /** A power loss leaves what was flushed. */
  lemma LossKeepsFlushed(before: Disk, after: Disk, files: map<Inode, File>)
    requires PowerLoss(before, after)
    requires forall i :: i in files && files[i].flushed ==> i in before.files && before.files[i] == files[i]
    ensures forall i :: i in files && files[i].flushed ==> i in after.files && after.files[i] == files[i]
  {
  }

  /** A name that leads to a flushed file still finds its record. */
  lemma HoldsAfter(names: Names, files: map<Inode, File>, files': map<Inode, File>, name: Name, j: Journal)
    requires name in names && names[name] in files && files[names[name]].flushed
    requires files[names[name]].content.Record? && files[names[name]].content.journal == j
    requires names[name] in files' && files'[names[name]] == files[names[name]]
    ensures Present(names, files', j)
  {
    assert Holds(names, files', name, j);
  }

  /** Before staging is durable: the old answer or a blocked directory. */
  lemma CrashWhileStaging(d: Disk, u: Update, step: nat, after: Disk)
    requires Settled(d) && Quiescent(d.durable, d.files) && UpdateReady(d.durable, d.files, u)
    requires step <= 3 && PowerLoss(UpdateDisk(d, u, step), after)
    ensures (AllOf(after.durable, after.files) == Some(Inventory(d.durable, d.files)) && Settled(after))
            || (step > 0 && Blocked(after.durable))
    ensures Present(after.durable, after.files, u.expected)
  {
    UpdateFiles(d, u, step);
    LossKeepsFlushed(UpdateDisk(d, u, step), after, d.files);
    var view := after.durable;
    if step == 0 {
      ViewSettled(d, view);
    } else {
      StagedViews(d, u, step, view);
    }
    HoldsAfter(view, d.files, after.files, u.Final(), u.expected);
    if view == d.durable {
      FilesAgree(view, d.files, after.files);
    } else {
      assert u.temp in view;
    }
  }

  /** Between durable staging and the archive name: always blocked, both records there. */
  lemma CrashInside(d: Disk, u: Update, step: nat, after: Disk)
    requires Settled(d) && Quiescent(d.durable, d.files) && UpdateReady(d.durable, d.files, u)
    requires u.Archive() !in d.durable
    requires 4 <= step <= UPDATE_STEPS && PowerLoss(UpdateDisk(d, u, step), after)
    requires after.durable in {StagedNames(d.durable, u), ExchangedNames(d.durable, u)}
    ensures Blocked(after.durable)
    ensures Present(after.durable, after.files, u.expected)
    ensures Present(after.durable, after.files, u.next)
  {
    UpdateFiles(d, u, step);
    LossKeepsFlushed(UpdateDisk(d, u, step), after, WithStaged(d.files, u));
    var view := after.durable;
    assert u.temp in view;
    var oldName := if view == StagedNames(d.durable, u) then u.Final() else u.temp;
    var newName := if view == StagedNames(d.durable, u) then u.temp else u.Final();
    HoldsAfter(view, WithStaged(d.files, u), after.files, oldName, u.expected);
    HoldsAfter(view, WithStaged(d.files, u), after.files, newName, u.next);
  }

  lemma ArchivedFlushed(names: Names, files: map<Inode, File>, u: Update)
    requires NamedFlushed(names, files) && u.Final() in names && u.inode !in files
    ensures NamedFlushed(ArchivedNames(names, u), WithStaged(files, u))
    ensures NamedFlushed(ExchangedNames(names, u), WithStaged(files, u))
    ensures NamedFlushed(StagedNames(names, u), WithStaged(files, u))
  {
  }

  /** Once the archive name is there: the new answer if the update kept the bindings and left
      room for the newline, and an error if not. */
  lemma CrashFinished(d: Disk, u: Update, step: nat, after: Disk)
    requires Settled(d) && Quiescent(d.durable, d.files) && UpdateReady(d.durable, d.files, u)
    requires 7 <= step <= UPDATE_STEPS && PowerLoss(UpdateDisk(d, u, step), after)
    requires u.Archive() !in d.durable && after.durable == ArchivedNames(d.durable, u)
    ensures AllOf(after.durable, after.files)
            == if Retains(u.expected, u.next) && u.encoded < MAX_JOURNAL_BYTES
               then Some(Inventory(d.durable, d.files)[u.next.journalId := u.next]) else None
    ensures Settled(after)
    ensures Present(after.durable, after.files, u.expected)
    ensures Present(after.durable, after.files, u.next)
  {
    UpdateFiles(d, u, step);
    var files := WithStaged(d.files, u);
    LossKeepsFlushed(UpdateDisk(d, u, step), after, files);
    ArchivedFlushed(d.durable, d.files, u);
    var view := after.durable;
    FilesAgree(view, files, after.files);
    HoldsAfter(view, files, after.files, u.Archive(), u.expected);
    HoldsAfter(view, files, after.files, u.Final(), u.next);
    ArchivedQuiescent(d.durable, d.files, u);
  }

  /** Crash atomicity. Lose power at any step of an update that starts from a settled,
      quiescent directory. The strict reader then returns exactly the old records, or
      exactly the new ones, or an error; the old record is present in every case and the
      new one from the end of staging on. The old answer is possible only before staging
      is durable, the new one only once the exchange is durable. After the last step the
      answer is the new one, if the update kept the bindings that were there and left room
      for its newline; for any other update it is an error from the archive rename on. */
  lemma CrashAtomicity(d: Disk, u: Update, step: nat, after: Disk)
    requires Settled(d) && Quiescent(d.durable, d.files) && UpdateReady(d.durable, d.files, u)
    requires step <= UPDATE_STEPS && PowerLoss(UpdateDisk(d, u, step), after)
    ensures var all := Inventory(d.durable, d.files);
            var found := AllOf(after.durable, after.files);
            var readable := Retains(u.expected, u.next) && u.encoded < MAX_JOURNAL_BYTES;
            && (found == Some(all) || found == Some(all[u.next.journalId := u.next]) || found == None)
            && (found == Some(all) ==> step <= 3)
            && (found == Some(all[u.next.journalId := u.next]) ==> step >= 7 && readable)
            && (step == 0 ==> found == Some(all))
            && (step == 8 ==> found == if readable then Some(all[u.next.journalId := u.next]) else None)
    ensures Present(after.durable, after.files, u.expected)
    ensures step >= 4 ==> Present(after.durable, after.files, u.next)
    ensures Settled(after) || Blocked(after.durable)
  {
    InventoryChanges(d.durable, d.files, u);
    if step <= 3 {
      CrashWhileStaging(d, u, step, after);
    } else {
      CrashAfterStaging(d, u, step, after);
    }
    if Blocked(after.durable) {
      BlockedNotQuiescent(after.durable, after.files);
    }
  }

  /** From the end of staging on: blocked with both records, or finished. */
  lemma CrashAfterStaging(d: Disk, u: Update, step: nat, after: Disk)
    requires Settled(d) && Quiescent(d.durable, d.files) && UpdateReady(d.durable, d.files, u)
    requires 4 <= step <= UPDATE_STEPS && PowerLoss(UpdateDisk(d, u, step), after)
    ensures Present(after.durable, after.files, u.expected) && Present(after.durable, after.files, u.next)
    ensures (Blocked(after.durable) && step < 8)
            || (step >= 7 && Settled(after)
                && AllOf(after.durable, after.files)
                   == if Retains(u.expected, u.next) && u.encoded < MAX_JOURNAL_BYTES
                      then Some(Inventory(d.durable, d.files)[u.next.journalId := u.next]) else None)
  {
    ArchiveNameFresh(d.durable, d.files, u);
    ViewSettled(d, d.durable);
    UpdateViews(d, u, step, after.durable);
    if after.durable == ArchivedNames(d.durable, u) && step >= 7 {
      CrashFinished(d, u, step, after);
    } else {
      CrashInside(d, u, step, after);
    }
  }

  lemma StagedViews(d: Disk, u: Update, step: nat, view: Names)
    requires d.pending == [] && 1 <= step <= 3 && ViewOf(UpdateDisk(d, u, step), view)
    ensures view == d.durable || view == StagedNames(d.durable, u)
  {
    ViewAppend(d.durable, d.pending, Link(u.temp, u.inode), view);
  }

  /** An update changes what the reader returns. */
  lemma InventoryChanges(names: Names, files: map<Inode, File>, u: Update)
    requires Quiescent(names, files) && UpdateReady(names, files, u)
    ensures u.next.journalId in Inventory(names, files)
    ensures Inventory(names, files)[u.next.journalId := u.next] != Inventory(names, files)
  {
    var all := Inventory(names, files);
    assert u.Final() in names;
    assert all[u.next.journalId] == u.expected;
    assert all[u.next.journalId := u.next][u.next.journalId] == u.next;
  }

  /** The reader depends only on the files the names lead to. */
  lemma FilesAgree(names: Names, files: map<Inode, File>, files': map<Inode, File>)
    requires forall name :: name in names ==>
               names[name] in files && names[name] in files' && files'[names[name]] == files[names[name]]
    ensures Quiescent(names, files') <==> Quiescent(names, files)
    ensures AllOf(names, files') == AllOf(names, files)
    ensures NamedFlushed(names, files) <==> NamedFlushed(names, files')
  {
    forall name: Name, id: Digest ensures Load(names, files', name, id) == Load(names, files, name, id) {
    }
    forall name | name in names
      ensures EntryReadable(names, files', name) == EntryReadable(names, files, name)
      ensures name.History? ==> ArchiveMatches(names, files', name) == ArchiveMatches(names, files, name)
    {
    }
    if Quiescent(names, files) {
      assert Inventory(names, files') == Inventory(names, files);
    }
  }

  // ----- where an update ends when no call fails -----

  /** A new record that its newline takes over the limit stops the update right after the
      exchange. Whatever is found then, by a running program or after a power loss, still
      has the staging name, so the reader refuses it. */
  lemma FullRecordBlocks(d: Disk, u: Update, view: Names)
    requires UpdateReady(Live(d), d.files, u) && ViewOf(UpdateDisk(d, u, 5), view)
    ensures Blocked(view) && AllOf(view, UpdateDisk(d, u, 5).files).None?
  {
    UpdateViews(d, u, 5, view);
    assert u.temp in view;
    BlockedNotQuiescent(view, UpdateDisk(d, u, 5).files);
  }

  /** The directory an update leaves when no call fails. It is quiescent if and only if the
      update kept the bindings already present and the record leaves room for its final
      newline; then exactly the one record has changed. This holds for the names the
      program sees and for all that a power loss could leave of them. */
  lemma FinishedQuiescent(d: Disk, u: Update, view: Names)
    requires Quiescent(Live(d), d.files) && UpdateReady(Live(d), d.files, u)
    requires ViewOf(UpdateDisk(d, u, UpdateStop(Live(d), d.files, u)), view)
    ensures AllOf(view, UpdateDisk(d, u, UpdateStop(Live(d), d.files, u)).files)
            == if Retains(u.expected, u.next) && u.encoded < MAX_JOURNAL_BYTES
               then Some(Inventory(Live(d), d.files)[u.next.journalId := u.next]) else None
  {
    ArchiveNameFresh(Live(d), d.files, u);
    if u.encoded == MAX_JOURNAL_BYTES {
      FullRecordBlocks(d, u, view);
    } else {
      SyncedViews(d, u, UPDATE_STEPS, view);
      UpdateFiles(d, u, UPDATE_STEPS);
      ArchivedQuiescent(Live(d), d.files, u);
    }
  }

  // ----- nothing is lost -----

  /** Every file that has a name on one side has one on the other. */
  predicate StillNamed(names: Names, names': Names) {
    forall name :: name in names ==> exists other :: other in names' && names'[other] == names[name]
  }

  lemma StillPresent(names: Names, files: map<Inode, File>, names': Names, files': map<Inode, File>, j: Journal)
    requires StillNamed(names, names') && Present(names, files, j)
    requires forall name :: name in names ==>
               names[name] in files ==> names[name] in files' && files'[names[name]] == files[names[name]]
    ensures Present(names', files', j)
  {
    var name :| name in names && Holds(names, files, name, j);
    var other :| other in names' && names'[other] == names[name];
    assert Holds(names', files', other, j);
  }

  lemma StillNamedAlong(names: Names, u: Update)
    requires u.temp !in names
    ensures StillNamed(names, StagedNames(names, u))
    ensures u.Final() in names ==> StillNamed(names, ExchangedNames(names, u))
    ensures u.Final() in names && u.Archive() !in names ==> StillNamed(names, ArchivedNames(names, u))
    ensures u.Final() !in names ==> StillNamed(names, PublishedNames(names, u))
  {
    if u.Final() in names {
      ExchangeKeepsNames(names, u);
    } else {
      assert forall name :: name in names ==> PublishedNames(names, u)[name] == names[name];
    }
    assert forall name :: name in names ==> StagedNames(names, u)[name] == names[name];
  }

  lemma ExchangeKeepsNames(names: Names, u: Update)
    requires u.temp !in names && u.Final() in names
    ensures StillNamed(names, ExchangedNames(names, u))
    ensures u.Archive() !in names ==> StillNamed(names, ArchivedNames(names, u))
  {
    var exchanged, archived := ExchangedNames(names, u), ArchivedNames(names, u);
    assert exchanged[u.temp] == names[u.Final()] == archived[u.Archive()];
    assert forall name :: name in names && name != u.Final() ==> exchanged[name] == names[name];
    assert u.Archive() !in names ==>
        forall name :: name in names && name != u.Final() ==> archived[name] == names[name];
  }

  /** Files that had names are as they were. */
  lemma EarlierFilesKept(d: Disk, u: Update, before: Disk, step: nat, after: Disk)
    requires Settled(d) && u.inode !in d.files && PowerLoss(before, after)
    requires before.files == FilesAt(d.files, u, step)
    ensures forall name :: name in d.durable ==>
              d.durable[name] in after.files && after.files[d.durable[name]] == d.files[d.durable[name]]
  {
    LossKeepsFlushed(before, after, d.files);
  }

  /** Power loss at any step of an update loses no record, current or archived. */
  lemma UpdateLosesNothing(d: Disk, u: Update, step: nat, after: Disk, j: Journal)
    requires Settled(d) && Quiescent(d.durable, d.files) && UpdateReady(d.durable, d.files, u)
    requires step <= UPDATE_STEPS && PowerLoss(UpdateDisk(d, u, step), after)
    requires Present(d.durable, d.files, j)
    ensures Present(after.durable, after.files, j)
  {
    ArchiveNameFresh(d.durable, d.files, u);
    UpdateFiles(d, u, step);
    EarlierFilesKept(d, u, UpdateDisk(d, u, step), step, after);
    StillNamedAlong(d.durable, u);
    FoundAlong(d, u, step, after.durable);
    StillPresent(d.durable, d.files, after.durable, after.files, j);
  }

  lemma FoundAlong(d: Disk, u: Update, step: nat, view: Names)
    requires d.pending == [] && u.temp.Staging? && u.temp !in d.durable && u.Final() in d.durable
    requires u.Archive() !in d.durable && step <= UPDATE_STEPS && ViewOf(UpdateDisk(d, u, step), view)
    ensures view in {d.durable, StagedNames(d.durable, u), ExchangedNames(d.durable, u), ArchivedNames(d.durable, u)}
  {
    ViewSettled(d, d.durable);
    if 1 <= step <= 3 {
      StagedViews(d, u, step, view);
    } else {
      UpdateViews(d, u, step, view);
    }
  }
}
