/** Records and updates that fail the properties which hold only under a condition
    (crates/executor/src/journal_store.rs). Each lemma names one input; the lemmas with the
    exact conditions are in the modules of the properties. */
module Counterexamples {
  import opened Wrappers
  import opened Journals
  import opened JournalValidator
  import opened JournalUpdates
  import opened EntryNames
  import opened Disks
  import opened StoreStates
  import opened CrashSafety
  import opened RecordCreation
  import opened SampleRecords

  // ----- the failing records -----

  function BoundaryOf(execution: ExecutionBinding): BoundaryBinding {
    var draft := BoundaryBinding(1, Literal(""), execution.executionId, 1, 2, ID, None, None);
    draft.(boundaryId := draft.ExpectedId())
  }

  lemma BoundaryPasses(j: Journal)
    requires j.execution.Some? && IsHexDigest(j.execution.value.executionId)
    requires j.execution.value.mutationStepIds == [1, 2]
    requires j.verifiedBoundary == Some(BoundaryOf(j.execution.value))
    requires HasCode(j.events, CodeContinue) && Unclaimed(j, CodeComplete) && j.phase.Executing?
    ensures BoundaryDefect(j).None?
  {
    assert PairAt([1, 2], 0, 1, 2);
  }

  /** A record whose first event claims a verified continuation can be accepted while the
      Approved state rebuilt from it is not. */
  lemma TruncationFails() returns (j: Journal)
    ensures Valid(j) && j.execution.Some? && |j.events| > 4 && !Valid(ApprovedState(j, 4))
  {
    var prepared, approved, started := Execute(CodeContinue);
    j := started.(verifiedBoundary := Some(BoundaryOf(started.execution.value)));
    ApprovalPasses(j, prepared, ID);
    ExecutionPasses(j, approved);
    assert HasCode(j.events, CodeContinue);
    BoundaryPasses(j);
    assert j.events[..4][0].code == CodeContinue;
    ApprovedStateAcceptable(j);
  }

  /** A verifying record whose first event claims completion can be accepted, and a verified
      continuation of it apply, without the result being accepted. */
  lemma ContinuationFails() returns (j: Journal)
    ensures Valid(j)
    ensures Apply(j, PassedContinue(1, 2, ID)).Ok? && !Valid(Apply(j, PassedContinue(1, 2, ID)).value)
  {
    j := Verify(CodeComplete);
    ContinuationApplies(j, PassedContinue(1, 2, ID));
    assert HasCode(j.events, CodeComplete);
    ContinuationRefused(j, PassedContinue(1, 2, ID));
  }

  lemma ContinuationApplies(j: Journal, t: Transition)
    requires j.phase.Verifying? && j.execution.Some? && j.execution.value.mutationStepIds == [1, 2]
    requires t == PassedContinue(1, 2, ID)
    ensures Apply(j, t).Ok?
  {
    assert PairAt(j.execution.value.mutationStepIds, 0, 1, 2);
  }

  lemma ContinuationRefused(j: Journal, t: Transition)
    requires Valid(j) && t.PassedContinue? && Apply(j, t).Ok? && HasCode(j.events, CodeComplete)
    ensures !Valid(Apply(j, t).value)
  {
    ApplyKeepsValid(j, t);
  }

  lemma Verify(first: Code) returns (j: Journal)
    requires CodeAccepted(first) && !first.CodeContinue?
    ensures Valid(j) && j.phase.Verifying? && |j.events| == 6 && j.events[0].code == first
    ensures j.execution.Some? && j.execution.value.mutationStepIds == [1, 2]
  {
    var prepared, approved, started := Execute(first);
    j := Step(started, Verifying, CodeVerifying);
    StepSound(started, Verifying, CodeVerifying, 5);
    assert j.events[..4] == started.events[..4] && j.events[..3] == started.events[..3];
    assert j.events[3] == started.events[3] && j.events[4] == started.events[4];
    assert j.events[0] == started.events[0];
    ApprovalPasses(j, prepared, ID);
    ExecutionPasses(j, approved);
    assert Unclaimed(j, CodeContinue);
  }

  // ----- the failing updates -----

  /** A directory that holds one record. */
  function OneName(id: Digest): Names {
    map[Primary(id) := 0]
  }

  function OneFile(j: Journal): map<Inode, File> {
    map[0 := File(Record(j, 1), true)]
  }

  lemma OneRecord(j: Journal)
    requires Valid(j)
    ensures Quiescent(OneName(j.journalId), OneFile(j))
    ensures Load(OneName(j.journalId), OneFile(j), Primary(j.journalId), j.journalId) == Some(j)
  {
    assert SingleLink(OneName(j.journalId), Primary(j.journalId));
  }

  function UpdateOf(j: Journal, next: Journal, encoded: nat): Update {
    Update(Staging(j.journalId, 1, 0), 1, j, next, encoded)
  }

  lemma OneReady(j: Journal, next: Journal, encoded: nat)
    requires Valid(j) && Valid(next) && ExtendsHistory(j, next) && encoded <= MAX_JOURNAL_BYTES
    ensures UpdateReady(OneName(j.journalId), OneFile(j), UpdateOf(j, next, encoded))
  {
    OneRecord(j);
  }

  lemma NewValid()
    ensures Valid(New(ID))
  {
  }

  function OneDisk(j: Journal): Disk {
    Disk(OneName(j.journalId), [], OneFile(j))
  }

  /** The length of an encoded record, before its newline. */
  type Encoding = Journal -> nat

  function Letters(n: nat): (text: string)
    ensures |text| == n && PlainText("/" + text)
  {
    seq(n, i => 'a')
  }

  predicate OneByteMore(encode: Encoding, of: string -> Journal, n: nat) {
    encode(of(Letters(n + 1))) == encode(of(Letters(n))) + 1
  }

  /** Each letter of the free text takes one byte in the record. */
  ghost predicate LettersCount(encode: Encoding, of: string -> Journal) {
    forall n: nat :: OneByteMore(encode, of, n)
  }

  lemma {:induction false} LengthWith(encode: Encoding, of: string -> Journal, n: nat)
    requires LettersCount(encode, of)
    ensures encode(of(Letters(n))) == encode(of(Letters(0))) + n
  {
    if n > 0 {
      LengthWith(encode, of, n - 1);
      assert OneByteMore(encode, of, n - 1);
    }
  }

  /** A text that makes the record exactly as long as the limit. */
  lemma FullText(encode: Encoding, of: string -> Journal) returns (text: string)
    requires LettersCount(encode, of) && encode(of(Letters(0))) <= MAX_JOURNAL_BYTES
    ensures PlainText("/" + text) && encode(of(text)) == MAX_JOURNAL_BYTES
    ensures encode(of(text)) == encode(of(Letters(0))) + |text|
  {
    text := Letters(MAX_JOURNAL_BYTES - encode(of(Letters(0))));
    LengthWith(encode, of, |text|);
  }

  function Locked(): Journal {
    Push(New(ID), HostLockHeld, CodeHostLock, Standard)
  }

  /** A session interrupted before approval, with the reason the caller gave. */
  function InterruptedFor(reason: string): Journal {
    Push(Locked(), Aborted, CodeInterruptedBefore, Remark(reason))
  }

  lemma InterruptedValid(reason: string)
    ensures Apply(Locked(), Interrupted(reason)) == Ok(InterruptedFor(reason))
    ensures Valid(Locked()) && Valid(InterruptedFor(reason))
    ensures ExtendsHistory(Locked(), InterruptedFor(reason)) && Retains(Locked(), InterruptedFor(reason))
  {
    NewValid();
    ApplyKeepsValid(New(ID), HostLockAcquired);
    ApplyKeepsValid(Locked(), Interrupted(reason));
    ApplyAppends(Locked(), Interrupted(reason));
    ApplyRetains(Locked(), Interrupted(reason));
  }

  /** However records are encoded, if letters take one byte each: some reason makes the record
      of an interruption exactly 1 MiB long. Its update passes every check, a store on which
      no call fails stops right after the exchange, and whatever is found then is refused. */
  lemma FullRecordJams(encode: Encoding) returns (reason: string)
    requires LettersCount(encode, InterruptedFor) && encode(InterruptedFor(Letters(0))) <= MAX_JOURNAL_BYTES
    ensures var d, next := OneDisk(Locked()), InterruptedFor(reason);
            var u := UpdateOf(Locked(), next, encode(next));
            && encode(next) == MAX_JOURNAL_BYTES == encode(InterruptedFor(Letters(0))) + |reason|
            && Apply(Locked(), Interrupted(reason)) == Ok(next) && Retains(Locked(), next)
            && Quiescent(Live(d), d.files) && UpdateReady(Live(d), d.files, u)
            && UpdateStop(Live(d), d.files, u) == 5
            && forall view :: ViewOf(UpdateDisk(d, u, 5), view) ==>
                 Blocked(view) && AllOf(view, UpdateDisk(d, u, 5).files).None?
  {
    reason := FullText(encode, InterruptedFor);
    InterruptedValid(reason);
    FullUpdateJams(Locked(), InterruptedFor(reason));
  }

  lemma FullUpdateJams(j: Journal, next: Journal)
    requires Valid(j) && Valid(next) && ExtendsHistory(j, next)
    ensures var d, u := OneDisk(j), UpdateOf(j, next, MAX_JOURNAL_BYTES);
            && Quiescent(Live(d), d.files) && UpdateReady(Live(d), d.files, u)
            && UpdateStop(Live(d), d.files, u) == 5
            && forall view :: ViewOf(UpdateDisk(d, u, 5), view) ==>
                 Blocked(view) && AllOf(view, UpdateDisk(d, u, 5).files).None?
  {
    var d, u := OneDisk(j), UpdateOf(j, next, MAX_JOURNAL_BYTES);
    OneRecord(j);
    OneReady(j, next, MAX_JOURNAL_BYTES);
    forall view | ViewOf(UpdateDisk(d, u, 5), view)
      ensures Blocked(view) && AllOf(view, UpdateDisk(d, u, 5).files).None?
    {
      FullRecordBlocks(d, u, view);
    }
  }

  /** A new record for this target. */
  function NewFor(text: string): Journal {
    NewJournal(ID, ID, "/" + text, ID)
  }

  lemma NewForValid(text: string)
    requires PlainText("/" + text)
    ensures Valid(NewFor(text))
  {
  }

  const EMPTY: Disk := Disk(map[], [], map[])

  /** The same for a new record in an empty directory, with a long target: the creation stops
      right after the record got its name. */
  lemma FullNewRecordJams(encode: Encoding) returns (text: string)
    requires LettersCount(encode, NewFor) && encode(NewFor(Letters(0))) <= MAX_JOURNAL_BYTES
    ensures var j := NewFor(text);
            var u := UpdateOf(j, j, encode(j));
            && encode(j) == MAX_JOURNAL_BYTES == encode(NewFor(Letters(0))) + |text|
            && Quiescent(Live(EMPTY), EMPTY.files) && CreateReady(Live(EMPTY), EMPTY.files, u)
            && CreateStop(Live(EMPTY), EMPTY.files, u) == 5
            && forall view :: ViewOf(CreateDisk(EMPTY, u, 5), view) ==>
                 AllOf(view, CreateDisk(EMPTY, u, 5).files).None?
  {
    text := FullText(encode, NewFor);
    NewForValid(text);
    FullCreationJams(NewFor(text));
  }

  lemma FullCreationJams(j: Journal)
    requires Valid(j)
    ensures var u := UpdateOf(j, j, MAX_JOURNAL_BYTES);
            && Quiescent(Live(EMPTY), EMPTY.files) && CreateReady(Live(EMPTY), EMPTY.files, u)
            && CreateStop(Live(EMPTY), EMPTY.files, u) == 5
            && forall view :: ViewOf(CreateDisk(EMPTY, u, 5), view) ==>
                 AllOf(view, CreateDisk(EMPTY, u, 5).files).None?
  {
    var u := UpdateOf(j, j, MAX_JOURNAL_BYTES);
    forall view | ViewOf(CreateDisk(EMPTY, u, 5), view) ensures AllOf(view, CreateDisk(EMPTY, u, 5).files).None? {
      CreatedQuiescent(EMPTY, u, view);
    }
  }

  /** An update from one approved record to an aborted one with another approval passes
      every check, whatever its length, and every directory it can leave is refused. */
  lemma ChangedApprovalJams(encoded: nat) returns (j: Journal, next: Journal)
    requires encoded < MAX_JOURNAL_BYTES
    ensures var d, u := OneDisk(j), UpdateOf(j, next, encoded);
            && Quiescent(Live(d), d.files) && UpdateReady(Live(d), d.files, u)
            && !Retains(j, next) && UpdateStop(Live(d), d.files, u) == UPDATE_STEPS
            && forall view :: ViewOf(UpdateDisk(d, u, UPDATE_STEPS), view) ==>
                 AllOf(view, UpdateDisk(d, u, UPDATE_STEPS).files).None?
  {
    var prepared := Prepare(ID, CodeHostLock);
    ApproveSound(prepared, ID);
    ApproveSound(prepared, OTHER);
    j := Approve(prepared, ID);
    var other := Approve(prepared, OTHER);
    ApprovedValid(j, prepared, ID);
    next := Step(other, Aborted, CodeAborted);
    AbortedValid(other, prepared, OTHER);
    assert j.events == other.events && j.events < next.events;
    UnretainedJams(j, next, encoded);
  }

  lemma UnretainedJams(j: Journal, next: Journal, encoded: nat)
    requires Valid(j) && Valid(next) && ExtendsHistory(j, next) && !Retains(j, next) && encoded < MAX_JOURNAL_BYTES
    ensures var d, u := OneDisk(j), UpdateOf(j, next, encoded);
            && Quiescent(Live(d), d.files) && UpdateReady(Live(d), d.files, u)
            && UpdateStop(Live(d), d.files, u) == UPDATE_STEPS
            && forall view :: ViewOf(UpdateDisk(d, u, UPDATE_STEPS), view) ==>
                 AllOf(view, UpdateDisk(d, u, UPDATE_STEPS).files).None?
  {
    var d, u := OneDisk(j), UpdateOf(j, next, encoded);
    OneRecord(j);
    OneReady(j, next, encoded);
    ArchiveNameFresh(Live(d), d.files, u);
    forall view | ViewOf(UpdateDisk(d, u, UPDATE_STEPS), view)
      ensures AllOf(view, UpdateDisk(d, u, UPDATE_STEPS).files).None?
    {
      FinishedQuiescent(d, u, view);
    }
  }

  lemma AbortedValid(approved: Journal, prepared: Journal, bundle: Digest)
    requires Sound(approved, 4) && approved.phase.Approved? && ApprovedOn(approved, prepared, bundle)
    requires approved.execution.None? && approved.verifiedBoundary.None? && Unclaimed(approved, CodeContinue)
    ensures Valid(Step(approved, Aborted, CodeAborted))
  {
    var j := Step(approved, Aborted, CodeAborted);
    StepSound(approved, Aborted, CodeAborted, 4);
    assert j.events[..3] == approved.events[..3] && j.events[3] == approved.events[3];
    ApprovalPasses(j, prepared, bundle);
    TransitionIndices(j.events);
    assert Unclaimed(j, CodeContinue);
  }
}
