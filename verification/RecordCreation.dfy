/** What can be found after a crash while a new record is published
    (crates/executor/src/journal_store.rs, `persist_new`). */
module RecordCreation {
  import opened Wrappers
  import opened Journals
  import opened EntryNames
  import opened Disks
  import opened StoreStates
  import opened CrashSafety

  lemma LoadBeside(names: Names, files: map<Inode, File>, u: Update, name: Name, id: Digest)
    requires CreateReady(names, files, u) && u.Final() !in names && name in names
    ensures Load(PublishedNames(names, u), WithStaged(files, u), name, id) == Load(names, files, name, id)
  {
    var after := PublishedNames(names, u);
    assert names[name] != u.inode;
    assert SingleLink(after, name) <==> SingleLink(names, name) by {
      if SingleLink(after, name) {
        forall other | other in names && names[other] == names[name] ensures other == name {
          assert after[other] == after[name];
        }
      }
    }
  }

  lemma LoadPublished(names: Names, files: map<Inode, File>, u: Update)
    requires CreateReady(names, files, u) && u.Final() !in names
    ensures Load(PublishedNames(names, u), WithStaged(files, u), u.Final(), u.next.journalId)
            == if u.encoded < MAX_JOURNAL_BYTES then Some(u.next) else None
  {
    assert SingleLink(PublishedNames(names, u), u.Final());
  }

  lemma InventoryBeside(names: Names, files: map<Inode, File>, u: Update)
    requires Quiescent(names, files) && CreateReady(names, files, u) && u.Final() !in names
    requires u.encoded < MAX_JOURNAL_BYTES && Quiescent(PublishedNames(names, u), WithStaged(files, u))
    ensures AllOf(PublishedNames(names, u), WithStaged(files, u))
            == Some(Inventory(names, files)[u.next.journalId := u.next])
  {
    LoadPublished(names, files, u);
    var all := Inventory(names, files);
    forall id | id in all && id != u.next.journalId
      ensures Load(PublishedNames(names, u), WithStaged(files, u), Primary(id), id) == Some(all[id])
    {
      LoadBeside(names, files, u, Primary(id), id);
    }
    InventoryDetermined(PublishedNames(names, u), WithStaged(files, u), all[u.next.journalId := u.next]);
  }

  /** A published record leaves the directory quiescent if and only if it leaves room for
      its final newline. */
  lemma PublishedQuiescent(names: Names, files: map<Inode, File>, u: Update)
    requires Quiescent(names, files) && CreateReady(names, files, u) && u.Final() !in names
    ensures Quiescent(PublishedNames(names, u), WithStaged(files, u)) <==> u.encoded < MAX_JOURNAL_BYTES
    ensures u.encoded < MAX_JOURNAL_BYTES ==>
              AllOf(PublishedNames(names, u), WithStaged(files, u))
              == Some(Inventory(names, files)[u.next.journalId := u.next])
  {
    LoadPublished(names, files, u);
    var after, files' := PublishedNames(names, u), WithStaged(files, u);
    assert u.Final() in after;
    if u.encoded < MAX_JOURNAL_BYTES {
      forall name | name in after
        ensures EntryReadable(after, files', name)
        ensures name.History? ==> ArchiveMatches(after, files', name)
      {
        if name != u.Final() {
          assert EntryReadable(names, files, name);
          LoadBeside(names, files, u, name, name.id);
          if name.History? {
            assert ArchiveMatches(names, files, name);
            LoadBeside(names, files, u, Primary(name.id), name.id);
          }
        }
      }
      InventoryBeside(names, files, u);
    } else {
      assert !EntryReadable(after, files', u.Final());
    }
  }

  /** Names that may be found after a power loss while a record is created. */
  lemma CreateViews(d: Disk, u: Update, step: nat, view: Names)
    requires u.temp.Staging? && u.temp !in Live(d) && step <= CREATE_STEPS
    requires step > 4 ==> u.Final() !in Live(d)
    requires ViewOf(CreateDisk(d, u, step), view)
    ensures step == 0 ==> ViewOf(d, view)
    ensures 1 <= step <= 3 ==>
              ViewOf(d, view) || exists w :: ViewOf(d, w) && view == StagedNames(w, u)
    ensures step == 4 ==> view == StagedNames(Live(d), u)
    ensures step == 5 ==> view == StagedNames(Live(d), u) || view == PublishedNames(Live(d), u)
    ensures step == 6 ==> view == PublishedNames(Live(d), u)
  {
    if 1 <= step <= 3 {
      StagingViews(d, u, step, view);
    } else if step >= 4 {
      CreateLive(d, u, 4);
      CreateLive(d, u, step);
      var staged := CreateDisk(d, u, 4);
      assert step > 4 ==> Change(StagedNames(Live(d), u), Move(u.temp, u.Final())) == PublishedNames(Live(d), u);
      ViewAppend(staged.durable, [], Move(u.temp, u.Final()), view);
    }
  }

  // ----- power loss -----

  /** The names found after a power loss, from a settled directory. */
  lemma FoundNames(d: Disk, u: Update, step: nat, view: Names)
    requires d.pending == [] && u.temp.Staging? && u.temp !in d.durable && step <= CREATE_STEPS
    requires step > 4 ==> u.Final() !in d.durable
    requires ViewOf(CreateDisk(d, u, step), view)
    ensures view == d.durable ==> step <= 3
    ensures view == d.durable || view == StagedNames(d.durable, u)
            || (step > 4 && view == PublishedNames(d.durable, u))
    ensures step == 0 ==> view == d.durable
    ensures step == 6 ==> view == PublishedNames(d.durable, u)
  {
    ViewSettled(d, d.durable);
    if 1 <= step <= 3 {
      StagedViews(d, u, step, view);
    } else {
      CreateViews(d, u, step, view);
      assert u.temp in StagedNames(d.durable, u);
      assert step > 4 ==> u.Final() in PublishedNames(d.durable, u);
    }
  }

  /** Power loss at any step of a creation loses no earlier record, current or archived. */
  lemma CreationLosesNothing(d: Disk, u: Update, step: nat, after: Disk, j: Journal)
    requires Settled(d) && CreateReady(d.durable, d.files, u) && step <= CREATE_STEPS
    requires step > 4 ==> u.Final() !in d.durable
    requires PowerLoss(CreateDisk(d, u, step), after) && Present(d.durable, d.files, j)
    ensures Present(after.durable, after.files, j)
  {
    UpdateFiles(d, u, step);
    EarlierFilesKept(d, u, CreateDisk(d, u, step), step, after);
    StillNamedAlong(d.durable, u);
    FoundNames(d, u, step, after.durable);
    StillPresent(d.durable, d.files, after.durable, after.files, j);
  }

  /** The new record itself is found from the end of staging on. */
  lemma NewRecordPresent(d: Disk, u: Update, step: nat, after: Disk)
    requires Settled(d) && CreateReady(d.durable, d.files, u) && 4 <= step <= CREATE_STEPS
    requires step > 4 ==> u.Final() !in d.durable
    requires PowerLoss(CreateDisk(d, u, step), after)
    ensures Present(after.durable, after.files, u.next)
  {
    UpdateFiles(d, u, step);
    LossKeepsFlushed(CreateDisk(d, u, step), after, WithStaged(d.files, u));
    FoundNames(d, u, step, after.durable);
    var name := if after.durable == StagedNames(d.durable, u) then u.temp else u.Final();
    HoldsAfter(after.durable, WithStaged(d.files, u), after.files, name, u.next);
  }

  /** The old names with the old files: the old answer. */
  lemma OldAnswer(d: Disk, u: Update, before: Disk, step: nat, after: Disk)
    requires Settled(d) && Quiescent(d.durable, d.files) && u.inode !in d.files
    requires before.files == FilesAt(d.files, u, step) && PowerLoss(before, after)
    requires after.durable == d.durable
    ensures AllOf(after.durable, after.files) == Some(Inventory(d.durable, d.files)) && Settled(after)
  {
    EarlierFilesKept(d, u, before, step, after);
    FilesAgree(d.durable, d.files, after.files);
  }

  /** The published names with the flushed record: the new answer, if the record fits. */
  lemma NewAnswer(d: Disk, u: Update, before: Disk, after: Disk)
    requires Settled(d) && Quiescent(d.durable, d.files) && CreateReady(d.durable, d.files, u)
    requires u.Final() !in d.durable && before.files == WithStaged(d.files, u) && PowerLoss(before, after)
    requires after.durable == PublishedNames(d.durable, u)
    ensures Settled(after)
    ensures AllOf(after.durable, after.files)
            == if u.encoded < MAX_JOURNAL_BYTES
               then Some(Inventory(d.durable, d.files)[u.next.journalId := u.next]) else None
  {
    PublishedFlushed(d.durable, d.files, u);
    LossKeepsFlushed(before, after, WithStaged(d.files, u));
    FilesAgree(after.durable, WithStaged(d.files, u), after.files);
    PublishedQuiescent(d.durable, d.files, u);
  }

  lemma PublishedFlushed(names: Names, files: map<Inode, File>, u: Update)
    requires NamedFlushed(names, files) && u.inode !in files
    ensures NamedFlushed(PublishedNames(names, u), WithStaged(files, u))
  {
  }

  /** What the reader finds under each of these names. */
  lemma FoundAnswer(d: Disk, u: Update, step: nat, after: Disk)
    requires Settled(d) && Quiescent(d.durable, d.files) && CreateReady(d.durable, d.files, u)
    requires step <= CREATE_STEPS && (step > 4 ==> u.Final() !in d.durable)
    requires PowerLoss(CreateDisk(d, u, step), after)
    ensures after.durable == d.durable ==>
              AllOf(after.durable, after.files) == Some(Inventory(d.durable, d.files)) && Settled(after)
    ensures after.durable == StagedNames(d.durable, u) ==> Blocked(after.durable)
    ensures step > 4 && after.durable == PublishedNames(d.durable, u) ==>
              Settled(after)
              && AllOf(after.durable, after.files)
                 == if u.encoded < MAX_JOURNAL_BYTES
                    then Some(Inventory(d.durable, d.files)[u.next.journalId := u.next]) else None
  {
    UpdateFiles(d, u, step);
    if after.durable == d.durable {
      OldAnswer(d, u, CreateDisk(d, u, step), step, after);
    } else if after.durable == StagedNames(d.durable, u) {
      assert u.temp in after.durable;
    } else if step > 4 && after.durable == PublishedNames(d.durable, u) {
      NewAnswer(d, u, CreateDisk(d, u, step), after);
    }
  }

  /** Crash atomicity of a creation. Lose power at any step of it, from a settled, quiescent
      directory. The strict reader then returns exactly the old records, or these and exactly
      the new one, or an error. The old answer is possible only before staging is durable,
      the new one only once the record has its name; a record that its newline takes over
      the limit is never the answer. */
  lemma CreationAtomicity(d: Disk, u: Update, step: nat, after: Disk)
    requires Settled(d) && Quiescent(d.durable, d.files) && CreateReady(d.durable, d.files, u)
    requires step <= CREATE_STEPS && (step > 4 ==> u.Final() !in d.durable)
    requires PowerLoss(CreateDisk(d, u, step), after)
    ensures var all := Inventory(d.durable, d.files);
            var found := AllOf(after.durable, after.files);
            && ((found == Some(all) && step <= 3)
                || (found == Some(all[u.next.journalId := u.next]) && step >= 5 && u.encoded < MAX_JOURNAL_BYTES)
                || found == None)
            && (step == 0 ==> found == Some(all))
            && (step == 6 ==> found == if u.encoded < MAX_JOURNAL_BYTES
                                       then Some(all[u.next.journalId := u.next]) else None)
    ensures step >= 4 ==> Present(after.durable, after.files, u.next)
    ensures Settled(after) || Blocked(after.durable)
  {
    FoundNames(d, u, step, after.durable);
    FoundAnswer(d, u, step, after);
    if Blocked(after.durable) { BlockedNotQuiescent(after.durable, after.files); }
    if step >= 4 { NewRecordPresent(d, u, step, after); }
  }

  /** The directory a creation leaves when no call fails: quiescent, with exactly the record
      added, if that leaves room for its newline, and refused if not; as the program sees it
      and as any power loss could leave it. */
  lemma CreatedQuiescent(d: Disk, u: Update, view: Names)
    requires Quiescent(Live(d), d.files) && CreateReady(Live(d), d.files, u) && u.Final() !in Live(d)
    requires ViewOf(CreateDisk(d, u, CreateStop(Live(d), d.files, u)), view)
    ensures AllOf(view, CreateDisk(d, u, CreateStop(Live(d), d.files, u)).files)
            == if u.encoded < MAX_JOURNAL_BYTES
               then Some(Inventory(Live(d), d.files)[u.next.journalId := u.next]) else None
  {
    if u.encoded == MAX_JOURNAL_BYTES {
      FullCreationRefused(d, u, view);
    } else {
      CreateViews(d, u, CREATE_STEPS, view);
      UpdateFiles(d, u, CREATE_STEPS);
      PublishedQuiescent(Live(d), d.files, u);
    }
  }

  lemma FullCreationRefused(d: Disk, u: Update, view: Names)
    requires Quiescent(Live(d), d.files) && CreateReady(Live(d), d.files, u) && u.Final() !in Live(d)
    requires u.encoded == MAX_JOURNAL_BYTES && ViewOf(CreateDisk(d, u, 5), view)
    ensures AllOf(view, CreateDisk(d, u, 5).files).None?
  {
    CreateViews(d, u, 5, view);
    UpdateFiles(d, u, 5);
    PublishedQuiescent(Live(d), d.files, u);
    if view == StagedNames(Live(d), u) {
      assert u.temp in view;
      BlockedNotQuiescent(view, WithStaged(d.files, u));
    }
  }
}
