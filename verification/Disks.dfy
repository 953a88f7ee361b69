/** The file system under the journal directory, as far as crashes can see it: names that
    are durable, namespace changes not yet made durable by a directory sync, and files
    whose contents may or may not have been flushed. */
module Disks {
  import opened Journals
  import opened EntryNames

  type Inode = nat
  type Name = EntryName<Digest>
  type Names = map<Name, Inode>

  /** What a file decodes to. `length` counts the bytes in the file. */
  datatype Content = Torn | Record(journal: Journal, length: nat)

  datatype File = File(content: Content, flushed: bool)

  datatype NameChange =
    | Link(name: Name, inode: Inode)
    | Exchange(first: Name, second: Name)
    | Move(from: Name, to: Name)

  datatype Disk = Disk(durable: Names, pending: seq<NameChange>, files: map<Inode, File>)

  /** Effect of one namespace change; a change whose names are not there has none. */
  function Change(names: Names, change: NameChange): Names {
    match change
    case Link(name, inode) => names[name := inode]
    case Exchange(first, second) =>
      if first in names && second in names then
        names[first := names[second]][second := names[first]]
      else names
    case Move(from, to) =>
      if from in names && to !in names then (names - {from})[to := names[from]] else names
  }

  function Replay(names: Names, changes: seq<NameChange>): Names {
    if changes == [] then names
    else Change(Replay(names, changes[..|changes| - 1]), changes[|changes| - 1])
  }

  /** The names a running program sees. */
  function Live(d: Disk): Names {
    Replay(d.durable, d.pending)
  }

  /** Names that can be found after a power loss: any subset of the unsynced changes may
      have reached the disk. */
  ghost predicate IsView(names: Names, changes: seq<NameChange>, view: Names) {
    if changes == [] then view == names
    else
      var earlier := changes[..|changes| - 1];
      IsView(names, earlier, view)
      || exists u :: IsView(names, earlier, u) && view == Change(u, changes[|changes| - 1])
  }

  ghost predicate ViewOf(d: Disk, view: Names) {
    IsView(d.durable, d.pending, view)
  }

  /** Files after a power loss: flushed ones whole, the others whole or torn. */
  predicate Survived(files: map<Inode, File>, files': map<Inode, File>) {
    && files'.Keys == files.Keys
    && forall i :: i in files ==>
         && (files[i].flushed ==> files'[i] == files[i])
         && (files'[i].content == files[i].content || files'[i].content.Torn?)
  }

  /** Power loss: some view of the names and the files that survived. */
  ghost predicate PowerLoss(before: Disk, after: Disk) {
    && after.pending == [] && ViewOf(before, after.durable)
    && Survived(before.files, after.files)
    && forall i :: i in after.files ==> after.files[i].flushed
  }

  lemma {:induction false} LiveIsView(names: Names, changes: seq<NameChange>)
    ensures IsView(names, changes, Replay(names, changes))
  {
    if changes != [] {
      var earlier := changes[..|changes| - 1];
      LiveIsView(names, earlier);
      assert IsView(names, earlier, Replay(names, earlier));
    }
  }

  /** One more change adds its images to the views. */
  lemma ViewAppend(names: Names, changes: seq<NameChange>, change: NameChange, view: Names)
    ensures IsView(names, changes + [change], view) <==>
            IsView(names, changes, view)
            || exists u :: IsView(names, changes, u) && view == Change(u, change)
    ensures Replay(names, changes + [change]) == Change(Replay(names, changes), change)
  {
    var longer := changes + [change];
    assert longer[..|longer| - 1] == changes;
  }

  lemma ViewSettled(d: Disk, view: Names)
    requires d.pending == []
    ensures ViewOf(d, view) <==> view == d.durable
    ensures Live(d) == d.durable
  {
  }

  /** `sync`: every pending change becomes durable. */
  function Synced(d: Disk): Disk {
    d.(durable := Live(d), pending := [])
  }

  function Issue(d: Disk, change: NameChange): Disk {
    d.(pending := d.pending + [change])
  }

  function WithFile(d: Disk, inode: Inode, file: File): Disk {
    d.(files := d.files[inode := file])
  }

  lemma LiveAfter(d: Disk, change: NameChange, inode: Inode, file: File)
    ensures Live(Issue(d, change)) == Change(Live(d), change)
    ensures Live(WithFile(d, inode, file)) == Live(d)
    ensures Live(Synced(d)) == Live(d) && Synced(d).durable == Live(d)
  {
    ViewAppend(d.durable, d.pending, change, d.durable);
  }

  /** Nothing that was flushed is lost or altered. */
  predicate KeepsFiles(before: Disk, after: Disk) {
    forall i :: i in before.files && before.files[i].flushed ==>
      i in after.files && after.files[i] == before.files[i]
  }
}
