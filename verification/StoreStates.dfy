/** Directory states as the strict reader sees them, and the states an update or a new
    record passes through (crates/executor/src/journal_store.rs, `all_with_hook`,
    `persist_if_matches_with_hooks`, `persist_new`). */
module StoreStates {
  import opened Wrappers
  import opened Journals
  import opened JournalValidator
  import opened JournalUpdates
  import opened EntryNames
  import opened Disks

  const MAX_JOURNAL_BYTES: nat := 1024 * 1024

  // ----- reading -----

  /** One link only: no other name leads to the same file. */
  predicate SingleLink(names: Names, name: Name)
    requires name in names
  {
    forall other :: other in names && names[other] == names[name] ==> other == name
  }

  /** `load_pinned_journal`: a single-link file within the size limit that holds an
      accepted record with the expected ID. */
  function Load(names: Names, files: map<Inode, File>, name: Name, id: Digest): Option<Journal> {
    if IsHexDigest(id) && name in names && names[name] in files && SingleLink(names, name) then
      match files[names[name]].content
      case Torn => None
      case Record(j, length) =>
        if length <= MAX_JOURNAL_BYTES && Valid(j) && j.journalId == id then Some(j) else None
    else None
  }

  /** An entry the strict reader accepts on its own. */
  predicate EntryReadable(names: Names, files: map<Inode, File>, name: Name) {
    match name
    case Primary(id) => Load(names, files, name, id).Some?
    case History(id, sequence, digest) =>
      var j := Load(names, files, name, id);
      j.Some? && |j.value.events| == sequence && DigestOf(j.value) == digest
    case Staging(_, _, _) => false
    case Foreign(_) => false
  }

  /** An archived record matches the current record of the same ID. */
  predicate ArchiveMatches(names: Names, files: map<Inode, File>, name: Name)
    requires name.History?
  {
    var archived, current := Load(names, files, name, name.id), Load(names, files, Primary(name.id), name.id);
    archived.Some? && current.Some? && HistoryMatchesFinal(archived.value, current.value)
  }

  /** What the strict reader demands of a directory. */
  predicate Quiescent(names: Names, files: map<Inode, File>) {
    && (forall name :: name in names ==> EntryReadable(names, files, name))
    && (forall name :: name in names && name.History? ==> ArchiveMatches(names, files, name))
  }

  /** The current records by ID. */
  function Inventory(names: Names, files: map<Inode, File>): (all: map<Digest, Journal>)
    requires Quiescent(names, files)
    ensures forall id :: id in all <==> Primary(id) in names
    ensures forall id :: id in all ==> Load(names, files, Primary(id), id) == Some(all[id])
  {
    map name | name in names && name.Primary? :: name.id := Load(names, files, name, name.id).value
  }

  lemma InventoryDetermined(names: Names, files: map<Inode, File>, all: map<Digest, Journal>)
    requires Quiescent(names, files)
    requires forall id :: id in all <==> Primary(id) in names
    requires forall id :: id in all ==> Load(names, files, Primary(id), id) == Some(all[id])
    ensures Inventory(names, files) == all && AllOf(names, files) == Some(all)
  {
  }

  /** `all`: the inventory of a quiescent directory, an error for any other. */
  function AllOf(names: Names, files: map<Inode, File>): Option<map<Digest, Journal>> {
    if Quiescent(names, files) then Some(Inventory(names, files)) else None
  }

  /** The names are as the last sync left them and every named file is flushed. */
  predicate Settled(d: Disk) {
    d.pending == [] && NamedFlushed(d.durable, d.files)
  }

  predicate NamedFlushed(names: Names, files: map<Inode, File>) {
    forall name :: name in names ==> names[name] in files && files[names[name]].flushed
  }

  // ----- the states of one update -----

  /** One replacement of a record: where it is staged and what it writes. */
  datatype Update = Update(temp: Name, inode: Inode, expected: Journal, next: Journal, encoded: nat)
  {
    function Final(): Name {
      Primary(next.journalId)
    }

    function Archive(): Name {
      History(next.journalId, |expected.events|, DigestOf(expected))
    }

    function Written(): Content {
      Record(next, encoded + 1)
    }
  }

  const UPDATE_STEPS: nat := 8

  /** Steps 1 to 4, shared by an update and a new record: create the staging name, write,
      flush, sync the directory. */
  function StagedDisk(d: Disk, u: Update, step: nat): Disk {
    if step == 0 then d
    else
      var created := WithFile(Issue(d, Link(u.temp, u.inode)), u.inode, File(Torn, false));
      if step == 1 then created
      else if step == 2 then WithFile(created, u.inode, File(u.Written(), false))
      else
        var flushed := WithFile(created, u.inode, File(u.Written(), true));
        if step == 3 then flushed else Synced(flushed)
  }

  /** The disk after each step of an update: stage, exchange, sync, archive, sync. */
  function UpdateDisk(d: Disk, u: Update, step: nat): Disk {
    if step <= 4 then StagedDisk(d, u, step)
    else
      var exchanged := Issue(StagedDisk(d, u, 4), Exchange(u.temp, u.Final()));
      if step == 5 then exchanged
      else if step == 6 then Synced(exchanged)
      else
        var archived := Issue(Synced(exchanged), Move(u.temp, u.Archive()));
        if step == 7 then archived else Synced(archived)
  }

  const CREATE_STEPS: nat := 6

  /** The disk after each step of creating a record: stage, publish, sync. */
  function CreateDisk(d: Disk, u: Update, step: nat): Disk {
    if step <= 4 then StagedDisk(d, u, step)
    else
      var published := Issue(StagedDisk(d, u, 4), Move(u.temp, u.Final()));
      if step == 5 then published else Synced(published)
  }

  /** The checks an update makes before it touches the disk. */
  predicate UpdateGuards(names: Names, files: map<Inode, File>, u: Update) {
    && Valid(u.expected) && Valid(u.next) && ExtendsHistory(u.expected, u.next)
    && Load(names, files, u.Final(), u.next.journalId) == Some(u.expected)
    && u.encoded <= MAX_JOURNAL_BYTES
  }

  /** The staging name and inode are new, in a directory whose names lead to files. */
  predicate StagingFree(names: Names, files: map<Inode, File>, u: Update) {
    && u.temp.Staging? && u.temp !in names && u.inode !in files
    && (forall name :: name in names ==> names[name] in files)
  }

  predicate UpdateReady(names: Names, files: map<Inode, File>, u: Update) {
    UpdateGuards(names, files, u) && StagingFree(names, files, u)
  }

  predicate CreateReady(names: Names, files: map<Inode, File>, u: Update) {
    Valid(u.next) && u.encoded <= MAX_JOURNAL_BYTES && StagingFree(names, files, u)
  }

  /** How many steps of an update are taken when no call fails: none if it is refused; up to
      the exchange if the new record cannot be read back, for its newline takes it over the
      limit; up to the sync after it if the archive name is taken; all otherwise. */
  function UpdateStop(names: Names, files: map<Inode, File>, u: Update): nat {
    if !UpdateReady(names, files, u) then 0
    else if u.encoded == MAX_JOURNAL_BYTES then 5
    else if u.Archive() in names then 6
    else UPDATE_STEPS
  }

  /** The same for a new record, whose name may be taken. */
  function CreateStop(names: Names, files: map<Inode, File>, u: Update): nat {
    if !CreateReady(names, files, u) then 0
    else if u.Final() in names then 4
    else if u.encoded == MAX_JOURNAL_BYTES then 5
    else CREATE_STEPS
  }

  function StagedNames(names: Names, u: Update): Names {
    names[u.temp := u.inode]
  }

  function ExchangedNames(names: Names, u: Update): Names
    requires u.Final() in names
  {
    names[u.temp := names[u.Final()]][u.Final() := u.inode]
  }

  function ArchivedNames(names: Names, u: Update): Names
    requires u.Final() in names
  {
    names[u.Final() := u.inode][u.Archive() := names[u.Final()]]
  }

  function PublishedNames(names: Names, u: Update): Names {
    names[u.Final() := u.inode]
  }

  /** From a quiescent directory the archive name is always free. */
  lemma ArchiveNameFresh(names: Names, files: map<Inode, File>, u: Update)
    requires Quiescent(names, files) && UpdateReady(names, files, u)
    ensures u.Archive() !in names
  {
    var a := u.Archive();
    assert a in names ==> EntryReadable(names, files, a) && ArchiveMatches(names, files, a);
  }

  lemma StagedLive(d: Disk, u: Update, step: nat)
    requires step <= 4
    ensures Live(StagedDisk(d, u, step)) == if step == 0 then Live(d) else StagedNames(Live(d), u)
    ensures step == 4 ==> StagedDisk(d, u, step).pending == []
                          && StagedDisk(d, u, step).durable == StagedNames(Live(d), u)
  {
    var issued := Issue(d, Link(u.temp, u.inode));
    LiveAfter(d, Link(u.temp, u.inode), u.inode, File(Torn, false));
    LiveAfter(issued, Link(u.temp, u.inode), u.inode, File(Torn, false));
    var created := WithFile(issued, u.inode, File(Torn, false));
    LiveAfter(created, Link(u.temp, u.inode), u.inode, File(u.Written(), false));
    LiveAfter(created, Link(u.temp, u.inode), u.inode, File(u.Written(), true));
    var flushed := WithFile(created, u.inode, File(u.Written(), true));
    LiveAfter(flushed, Link(u.temp, u.inode), u.inode, File(u.Written(), true));
  }

  function NamesAt(names: Names, u: Update, step: nat): Names
    requires u.Final() in names
  {
    if step == 0 then names
    else if step <= 4 then StagedNames(names, u)
    else if step <= 6 then ExchangedNames(names, u)
    else ArchivedNames(names, u)
  }

  lemma ExchangeThenArchive(names: Names, u: Update)
    requires u.temp.Staging? && u.temp !in names && u.Final() in names
    ensures Change(StagedNames(names, u), Exchange(u.temp, u.Final())) == ExchangedNames(names, u)
    ensures u.Archive() !in names ==>
              Change(ExchangedNames(names, u), Move(u.temp, u.Archive())) == ArchivedNames(names, u)
  {
  }

  /** The live names at every step of an update. */
  lemma UpdateLive(d: Disk, u: Update, step: nat)
    requires u.temp.Staging? && u.temp !in Live(d) && u.Final() in Live(d) && step <= UPDATE_STEPS
    requires step > 6 ==> u.Archive() !in Live(d)
    ensures Live(UpdateDisk(d, u, step)) == NamesAt(Live(d), u, step)
    ensures step >= 4 && step % 2 == 0 ==>
              UpdateDisk(d, u, step).pending == [] && UpdateDisk(d, u, step).durable == NamesAt(Live(d), u, step)
  {
    ExchangeThenArchive(Live(d), u);
    if step <= 4 {
      StagedLive(d, u, step);
    } else {
      StagedLive(d, u, 4);
      var exchange, move := Exchange(u.temp, u.Final()), Move(u.temp, u.Archive());
      LiveAfter(StagedDisk(d, u, 4), exchange, u.inode, File(Torn, false));
      var exchanged := Issue(StagedDisk(d, u, 4), exchange);
      LiveAfter(exchanged, exchange, u.inode, File(Torn, false));
      LiveAfter(Synced(exchanged), move, u.inode, File(Torn, false));
      LiveAfter(Issue(Synced(exchanged), move), move, u.inode, File(Torn, false));
    }
  }

  /** A staging name that was there before an update is there at every step of it. */
  lemma BlockedStays(d: Disk, u: Update, step: nat)
    requires Blocked(Live(d)) && step <= UPDATE_STEPS
    requires step > 0 ==> u.temp.Staging? && u.temp !in Live(d) && u.Final() in Live(d)
    requires step > 6 ==> u.Archive() !in Live(d)
    ensures Blocked(Live(UpdateDisk(d, u, step)))
  {
    var name :| name in Live(d) && name.Staging?;
    if step > 0 {
      UpdateLive(d, u, step);
      assert name in Live(UpdateDisk(d, u, step));
    }
  }

  lemma CreateLive(d: Disk, u: Update, step: nat)
    requires u.temp.Staging? && u.temp !in Live(d) && step <= CREATE_STEPS
    requires step > 4 ==> u.Final() !in Live(d)
    ensures Live(CreateDisk(d, u, step)) ==
            if step == 0 then Live(d)
            else if step <= 4 then StagedNames(Live(d), u)
            else PublishedNames(Live(d), u)
    ensures step == 4 || step == 6 ==>
              CreateDisk(d, u, step).pending == [] && CreateDisk(d, u, step).durable == Live(CreateDisk(d, u, step))
  {
    if step <= 4 {
      StagedLive(d, u, step);
    } else {
      StagedLive(d, u, 4);
      var move := Move(u.temp, u.Final());
      LiveAfter(StagedDisk(d, u, 4), move, u.inode, File(Torn, false));
      LiveAfter(Issue(StagedDisk(d, u, 4), move), move, u.inode, File(Torn, false));
      assert Change(StagedNames(Live(d), u), move) == PublishedNames(Live(d), u);
    }
  }

  /** A directory holding a staging name is never quiescent. */
  predicate Blocked(names: Names) {
    exists name :: name in names && name.Staging?
  }

  lemma BlockedNotQuiescent(names: Names, files: map<Inode, File>)
    requires Blocked(names)
    ensures !Quiescent(names, files) && AllOf(names, files).None?
  {
    var name :| name in names && name.Staging?;
    assert !EntryReadable(names, files, name);
  }
}
