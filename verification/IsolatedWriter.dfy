/** The isolated staging writer (crates/executor/src/journal_fd.rs,
    `write_staged_file_inner` and `isolated_writer`).

    The parent creates the file and sends its identity over a socket; a forked child
    opens that very file, writes, flushes and reports. Both run as interleaved steps over
    a shared cancellation flag and the socket, and may fail at every system call. */
module IsolatedWriter {
  import opened Wrappers

  type Inode = nat
  type Byte = x: int | 0 <= x < 256

  // ----- the write loop -----

  datatype WriteOutcome = Interrupted | Failed | Wrote(count: nat)

  /** The open file, and how often the next writes will be interrupted. */
  class OutputFile {
    var data: seq<Byte>
    var interruptsLeft: nat

    constructor (interrupts: nat)
      ensures data == [] && interruptsLeft == interrupts
    {
      data := [];
      interruptsLeft := interrupts;
    }

    /** `write`: any prefix, including nothing, or an interruption, or an error. */
    method Write(chunk: seq<Byte>) returns (outcome: WriteOutcome)
      modifies this
      ensures outcome.Wrote? ==> outcome.count <= |chunk| && data == old(data) + chunk[..outcome.count]
      ensures !outcome.Wrote? ==> data == old(data)
      ensures outcome.Interrupted? ==> interruptsLeft < old(interruptsLeft)
      ensures !outcome.Interrupted? ==> interruptsLeft == old(interruptsLeft)
    {
      var kind: int := *;
      if interruptsLeft > 0 && kind == 0 {
        interruptsLeft := interruptsLeft - 1;
        return Interrupted;
      }
      if kind == 1 { return Failed; }
      var count := if 0 <= kind <= |chunk| then kind else |chunk|;
      data := data + chunk[..count];
      return Wrote(count);
    }

    /** The short-write loop: without an error every byte has been written, in order. */
    method WriteAll(bytes: seq<Byte>) returns (error: bool)
      modifies this
      ensures !error ==> data == old(data) + bytes
      ensures error ==> exists k :: 0 <= k < |bytes| && data == old(data) + bytes[..k]
    {
      var offset := 0;
      error := false;
      while !error && offset < |bytes|
        invariant 0 <= offset <= |bytes|
        invariant data == old(data) + bytes[..offset]
        invariant error ==> offset < |bytes|
        decreases |bytes| - offset, interruptsLeft, if error then 0 else 1
      {
        var outcome := Write(bytes[offset..]);
        match outcome
        case Interrupted =>
        case Failed => error := true;
        case Wrote(count) =>
          if count == 0 {
            assert bytes[offset..][..0] == [];
            error := true;
          } else {
            assert bytes[..offset] + bytes[offset..][..count] == bytes[..offset + count];
            offset := offset + count;
          }
      }
      assert !error ==> bytes[..offset] == bytes;
    }
  }

  // ----- the handshake -----

  /** What the parent sends. A failed send can leave an incomplete message. */
  datatype Request = Request(inode: Inode, error: bool) | Incomplete

  datatype Report = Report(inode: Inode, error: bool)

  datatype Parent = Creating | Sending | Cancelling | Hanging | Waiting | Collecting | Returned(ok: bool)

  datatype Child =
    | Starting
    | Checking
    | Polling
    | Receiving
    | Received(request: Request)
    | Opening(inode: Inode)
    | Writing(inode: Inode, offset: nat)
    | Flushing(inode: Inode)
    | Inspecting(inode: Inode)
    | Closing(report: Report)
    | Reporting(report: Report)
    | Exited(code: nat)
    | Killed

  datatype State = State(
    parent: Parent,
    child: Child,
    localError: bool,          // the parent failed before sending
    sendFailed: bool,
    pinned: Option<Inode>,     // the file the parent created
    live: Option<Inode>,       // what the staging name leads to
    cancelled: bool,           // the shared flag
    inbox: Option<Request>,
    hangup: bool,              // the parent's end is shut down for writing
    outbox: Option<Report>,
    data: seq<Byte>,           // contents of the created file
    flushed: bool)

  const START := State(Creating, Starting, false, false, None, None, false, None, false, None, [], false)

  predicate ChildDone(c: Child) {
    c.Exited? || c.Killed?
  }

  /** poll sees input when a message or an end of stream is there. */
  predicate Readable(s: State) {
    s.inbox.Some? || s.hangup
  }

  // ----- steps -----

  /** One system call of the child: it succeeds, fails, is interrupted or finds nothing,
      writes part of the rest, or the child is killed before it. */
  datatype ChildAction = Go | Fail | Retry | WriteSome(count: nat) | Kill

  predicate ChildEnabled(bytes: seq<Byte>, s: State, a: ChildAction) {
    && !ChildDone(s.child)
    && match a
       case Go => s.child.Writing? ==> s.child.offset >= |bytes|
       case Fail => !s.child.Checking? && !s.child.Receiving? && !s.child.Received?
       case Retry => s.child.Polling? || s.child.Receiving? || s.child.Writing?
       case WriteSome(count) => s.child.Writing? && 0 < count && s.child.offset + count <= |bytes|
       case Kill => true
  }

  const FAILED := Report(0, true)

  function ChildAct(bytes: seq<Byte>, s: State, a: ChildAction): State
    requires ChildEnabled(bytes, s, a)
  {
    match a
    case Kill => s.(child := Killed)
    case Retry => if s.child.Writing? then s else s.(child := Checking)
    case WriteSome(count) =>
      s.(child := Writing(s.child.inode, s.child.offset + count),
         data := s.data + bytes[s.child.offset..s.child.offset + count])
    case Fail =>
      (match s.child
       case Starting => s.(child := Exited(75))
       case Polling => s.(child := Exited(78))
       case Opening(_) => s.(child := Reporting(FAILED))
       case Closing(report) => s.(child := Reporting(report.(error := true)))
       case Reporting(_) => s.(child := Exited(1))
       case _ => s.(child := Closing(FAILED)))
    case Go =>
      match s.child
      case Starting => s.(child := Checking)
      case Checking => s.(child := if s.cancelled then Exited(77) else Polling)
      case Polling => s.(child := if Readable(s) then Receiving else Checking) // a timeout after one second
      case Receiving =>
        s.(child := Received(if s.inbox.Some? then s.inbox.value else Incomplete), inbox := None)
      case Received(request) =>
        s.(child := if s.cancelled || request.Incomplete? || request.error then Exited(76)
                    else Opening(request.inode))
      case Opening(inode) => // the name must lead to the announced file at this moment
        s.(child := if s.live == Some(inode) then Writing(inode, 0) else Reporting(FAILED))
      case Writing(inode, _) => s.(child := Flushing(inode))
      case Flushing(inode) => s.(child := Inspecting(inode), flushed := true)
      case Inspecting(inode) => s.(child := Closing(Report(inode, false)))
      case Closing(report) => s.(child := Reporting(report))
      case Reporting(report) => s.(child := Exited(if report.error then 2 else 0), outbox := Some(report))
      case _ => s
  }

  /** One system call of the parent: it works, or fails; `Broken` is a failed send that
      left an incomplete message. */
  datatype ParentAction = Works(inode: Inode) | Fails | Broken

  predicate ParentEnabled(s: State, a: ParentAction) {
    match s.parent
    case Waiting => a.Fails? || (a.Works? && ChildDone(s.child)) // waitpid fails or finds the child gone
    case Sending => true
    case Returned(_) => false
    case _ => !a.Broken?
  }

  function ParentAct(s: State, a: ParentAction): State
    requires ParentEnabled(s, a)
  {
    match s.parent
    case Creating =>
      if a.Works? then s.(parent := Sending, pinned := Some(a.inode), live := Some(a.inode))
      else s.(parent := Sending, localError := true)
    case Sending =>
      if a.Works? then
        s.(parent := Waiting, inbox := Some(Request(if s.pinned.Some? then s.pinned.value else 0, s.localError)))
      else
        s.(parent := Cancelling, sendFailed := true, inbox := if a.Broken? then Some(Incomplete) else None)
    case Cancelling => s.(parent := Hanging, cancelled := true)
    case Hanging => s.(parent := Waiting, hangup := a.Works?) // the shutdown may be denied
    case Waiting => if a.Works? then s.(parent := Collecting) else s.(parent := Returned(false))
    case Collecting => s.(parent := Returned(a.Works? && Accepts(s)))
    case Returned(_) => s
  }

  /** The parent's checks after the child is gone. */
  predicate Accepts(s: State) {
    && !s.localError && !s.sendFailed
    && s.child == Exited(0)
    && s.outbox.Some? && !s.outbox.value.error
    && s.pinned == Some(s.outbox.value.inode) && s.live == s.pinned
  }

  /** A step of the whole: another program may also redirect the staging name at any time. */
  datatype Step = OfParent(p: ParentAction) | OfChild(c: ChildAction) | Redirect(target: Option<Inode>)

  predicate Enabled(bytes: seq<Byte>, s: State, step: Step) {
    match step
    case OfParent(a) => ParentEnabled(s, a)
    case OfChild(a) => ChildEnabled(bytes, s, a)
    case Redirect(_) => true
  }

  function After(bytes: seq<Byte>, s: State, step: Step): State
    requires Enabled(bytes, s, step)
  {
    match step
    case OfParent(a) => ParentAct(s, a)
    case OfChild(a) => ChildAct(bytes, s, a)
    case Redirect(target) => s.(live := target)
  }

  predicate Undecided(c: Child) {
    c.Starting? || c.Checking? || c.Polling? || c.Receiving?
  }

  /** The handshake: before the parent has sent, nothing is announced; once it waits, an
      undecided child has a message or the flag to act on. */
  predicate Handshake(s: State) {
    && (s.parent.Creating? ==> s.pinned.None?)
    && (s.parent.Creating? || s.parent.Sending? ==>
          s.inbox.None? && !s.cancelled && !s.hangup && (Undecided(s.child) || ChildDone(s.child)))
    && (s.parent.Sending? ==> s.localError || s.pinned.Some?)
    && (s.inbox.Some? && s.inbox.value.Request? && !s.inbox.value.error ==>
          s.pinned == Some(s.inbox.value.inode))
    && (s.parent.Waiting? || s.parent.Collecting? ==>
          Undecided(s.child) ==> s.inbox.Some? || s.cancelled)
    && (s.hangup || s.parent.Hanging? ==> s.cancelled)
    && (s.hangup ==> s.parent.Waiting? || s.parent.Collecting? || s.parent.Returned?)
    && (s.child.Receiving? ==> Readable(s))
    && (s.outbox.Some? ==> s.child.Exited?)
  }

  /** How far the file is, by the child's position. */
  predicate ChildProgress(bytes: seq<Byte>, s: State) {
    match s.child
    case Received(request) =>
      s.data == [] && (request.Request? && !request.error ==> s.pinned == Some(request.inode))
    case Opening(inode) => s.data == [] && s.pinned == Some(inode)
    case Writing(inode, offset) => offset <= |bytes| && s.data == bytes[..offset] && s.pinned == Some(inode)
    case Flushing(inode) => s.data == bytes && s.pinned == Some(inode)
    case Inspecting(inode) => s.data == bytes && s.flushed && s.pinned == Some(inode)
    case Closing(report) => !report.error ==> Written(bytes, s, report)
    case Reporting(report) => !report.error ==> Written(bytes, s, report)
    case Exited(code) =>
      && (s.outbox.Some? && !s.outbox.value.error ==> Written(bytes, s, s.outbox.value))
      && (code == 0 ==> s.outbox.Some? && !s.outbox.value.error)
    case Killed => true
    case _ => s.data == []
  }

  predicate Written(bytes: seq<Byte>, s: State, report: Report) {
    s.data == bytes && s.flushed && s.pinned == Some(report.inode)
  }

  /** What holds in every reachable state. */
  predicate Invariant(bytes: seq<Byte>, s: State) {
    Handshake(s) && ChildProgress(bytes, s)
  }

  /** The parent touches neither the child nor the file, and pins the file before the
      child can have opened anything. */
  lemma ParentKeepsProgress(bytes: seq<Byte>, s: State, s': State)
    requires ChildProgress(bytes, s)
    requires s'.child == s.child && s'.data == s.data && s'.flushed == s.flushed && s'.outbox == s.outbox
    requires s'.pinned == s.pinned || (s.pinned.None? && (Undecided(s.child) || ChildDone(s.child)))
    ensures ChildProgress(bytes, s')
  {
  }

  lemma SenderKeepsHandshake(s: State, a: ParentAction)
    requires Handshake(s) && ParentEnabled(s, a) && (s.parent.Creating? || s.parent.Sending?)
    ensures Handshake(ParentAct(s, a))
  {
  }

  lemma WaiterKeepsHandshake(s: State, a: ParentAction)
    requires Handshake(s) && ParentEnabled(s, a) && !s.parent.Creating? && !s.parent.Sending?
    ensures Handshake(ParentAct(s, a))
  {
  }

  lemma ParentKeeps(bytes: seq<Byte>, s: State, a: ParentAction)
    requires Invariant(bytes, s) && ParentEnabled(s, a)
    ensures Invariant(bytes, ParentAct(s, a))
  {
    if s.parent.Creating? || s.parent.Sending? { SenderKeepsHandshake(s, a); } else { WaiterKeepsHandshake(s, a); }
    ParentKeepsProgress(bytes, s, ParentAct(s, a));
  }

  /** Steps left for the child once the parent waits. */
  function Rank(bytes: seq<Byte>, s: State): nat {
    match s.child
    case Starting => |bytes| + 100
    case Checking => if s.cancelled then |bytes| + 50 else |bytes| + 90
    case Polling => |bytes| + 80
    case Receiving => |bytes| + 70
    case Received(_) => |bytes| + 60
    case Opening(_) => |bytes| + 40
    case Writing(_, offset) => if offset <= |bytes| then |bytes| - offset + 10 else 10
    case Flushing(_) => 5
    case Inspecting(_) => 4
    case Closing(_) => 3
    case Reporting(_) => 2
    case Exited(_) => 0
    case Killed => 0
  }

  predicate Keeps(bytes: seq<Byte>, s: State, s': State) {
    && Invariant(bytes, s') && s'.parent == s.parent
  }

  lemma GoUndecided(bytes: seq<Byte>, s: State)
    requires Invariant(bytes, s) && Undecided(s.child)
    ensures Keeps(bytes, s, ChildAct(bytes, s, Go))
    ensures s.parent.Waiting? ==> Rank(bytes, ChildAct(bytes, s, Go)) < Rank(bytes, s)
  {
    match s.child
    case Starting =>
    case Checking =>
    case Polling =>
    case Receiving =>
  }

  lemma GoReceived(bytes: seq<Byte>, s: State)
    requires Invariant(bytes, s) && s.child.Received?
    ensures Keeps(bytes, s, ChildAct(bytes, s, Go))
    ensures Rank(bytes, ChildAct(bytes, s, Go)) < Rank(bytes, s)
  {
  }

  predicate AtWork(c: Child) {
    !Undecided(c) && !c.Received? && !ChildDone(c)
  }

  /** A child at work changes nothing the handshake depends on. */
  lemma WorkFrame(s: State, s': State)
    requires Handshake(s) && AtWork(s.child) && !Undecided(s'.child)
    requires s' == s.(child := s'.child, data := s'.data, flushed := s'.flushed, outbox := s'.outbox)
    requires s'.outbox.Some? ==> s'.child.Exited?
    ensures Handshake(s')
  {
  }

  lemma GoProgress(bytes: seq<Byte>, s: State)
    requires Handshake(s) && ChildProgress(bytes, s) && AtWork(s.child) && ChildEnabled(bytes, s, Go)
    ensures ChildProgress(bytes, ChildAct(bytes, s, Go))
    ensures Rank(bytes, ChildAct(bytes, s, Go)) < Rank(bytes, s)
  {
    match s.child
    case Writing(_, _) => assert bytes[..|bytes|] == bytes;
    case _ =>
  }

  lemma GoWorking(bytes: seq<Byte>, s: State)
    requires Invariant(bytes, s) && ChildEnabled(bytes, s, Go) && AtWork(s.child)
    ensures Keeps(bytes, s, ChildAct(bytes, s, Go))
    ensures Rank(bytes, ChildAct(bytes, s, Go)) < Rank(bytes, s)
  {
    GoProgress(bytes, s);
    WorkFrame(s, ChildAct(bytes, s, Go));
  }

  lemma WriteKeeps(bytes: seq<Byte>, s: State, count: nat)
    requires Invariant(bytes, s) && ChildEnabled(bytes, s, WriteSome(count))
    ensures Keeps(bytes, s, ChildAct(bytes, s, WriteSome(count)))
    ensures Rank(bytes, ChildAct(bytes, s, WriteSome(count))) < Rank(bytes, s)
  {
    var offset := s.child.offset;
    assert bytes[..offset] + bytes[offset..offset + count] == bytes[..offset + count];
  }

  lemma FailProgress(bytes: seq<Byte>, s: State)
    requires Handshake(s) && ChildProgress(bytes, s) && ChildEnabled(bytes, s, Fail)
    ensures ChildProgress(bytes, ChildAct(bytes, s, Fail))
    ensures Rank(bytes, ChildAct(bytes, s, Fail)) < Rank(bytes, s)
  {
    if AtWork(s.child) { FailWorking(bytes, s); } else { FailEarly(bytes, s); }
  }

  lemma FailWorking(bytes: seq<Byte>, s: State)
    requires Handshake(s) && ChildProgress(bytes, s) && ChildEnabled(bytes, s, Fail) && AtWork(s.child)
    ensures ChildProgress(bytes, ChildAct(bytes, s, Fail))
    ensures Rank(bytes, ChildAct(bytes, s, Fail)) < Rank(bytes, s)
  {
  }

  lemma FailEarly(bytes: seq<Byte>, s: State)
    requires Handshake(s) && ChildProgress(bytes, s) && ChildEnabled(bytes, s, Fail) && !AtWork(s.child)
    ensures ChildProgress(bytes, ChildAct(bytes, s, Fail))
    ensures Rank(bytes, ChildAct(bytes, s, Fail)) < Rank(bytes, s)
  {
  }

  lemma FailKeeps(bytes: seq<Byte>, s: State)
    requires Invariant(bytes, s) && ChildEnabled(bytes, s, Fail)
    ensures Keeps(bytes, s, ChildAct(bytes, s, Fail))
    ensures Rank(bytes, ChildAct(bytes, s, Fail)) < Rank(bytes, s)
  {
    FailProgress(bytes, s);
    if AtWork(s.child) {
      WorkFrame(s, ChildAct(bytes, s, Fail));
    }
  }

  /** The child keeps the invariant; and while the parent waits, every child step that is
      not a retry brings it closer to its exit, even when neither the request nor the
      shutdown got through. */
  lemma ChildKeeps(bytes: seq<Byte>, s: State, a: ChildAction)
    requires Invariant(bytes, s) && ChildEnabled(bytes, s, a)
    ensures Keeps(bytes, s, ChildAct(bytes, s, a))
    ensures s.parent.Waiting? && !a.Retry? ==> Rank(bytes, ChildAct(bytes, s, a)) < Rank(bytes, s)
  {
    match a
    case Go =>
      if Undecided(s.child) { GoUndecided(bytes, s); }
      else if s.child.Received? { GoReceived(bytes, s); }
      else { GoWorking(bytes, s); }
    case WriteSome(count) => WriteKeeps(bytes, s, count);
    case Fail => FailKeeps(bytes, s);
    case Retry =>
    case Kill =>
  }

  /** Every step keeps the invariant. */
  lemma InvariantStep(bytes: seq<Byte>, s: State, step: Step)
    requires Invariant(bytes, s) && Enabled(bytes, s, step)
    ensures Invariant(bytes, After(bytes, s, step))
  {
    match step
    case OfParent(a) => ParentKeeps(bytes, s, a);
    case OfChild(a) => ChildKeeps(bytes, s, a);
    case Redirect(_) =>
  }

  /** The state after a schedule, if every step of it is enabled. */
  function Run(bytes: seq<Byte>, schedule: seq<Step>): Option<State> {
    if schedule == [] then Some(START)
    else
      match Run(bytes, schedule[..|schedule| - 1])
      case None => None
      case Some(s) =>
        var step := schedule[|schedule| - 1];
        if Enabled(bytes, s, step) then Some(After(bytes, s, step)) else None
  }

  lemma {:induction false} InvariantAlways(bytes: seq<Byte>, schedule: seq<Step>)
    requires Run(bytes, schedule).Some?
    ensures Invariant(bytes, Run(bytes, schedule).value)
  {
    if schedule != [] {
      var earlier, step := schedule[..|schedule| - 1], schedule[|schedule| - 1];
      InvariantAlways(bytes, earlier);
      InvariantStep(bytes, Run(bytes, earlier).value, step);
    }
  }

  /** Success is honest: when the parent's last step returns success, in any interleaving,
      the child wrote every byte, the flush succeeded, and the name still led to the
      created file. */
  lemma SuccessIsWhole(bytes: seq<Byte>, schedule: seq<Step>, a: ParentAction)
    requires Run(bytes, schedule).Some? && ParentEnabled(Run(bytes, schedule).value, a)
    requires ParentAct(Run(bytes, schedule).value, a).parent == Returned(true)
    ensures var s := Run(bytes, schedule).value;
            && s.data == bytes && s.flushed && s.child == Exited(0)
            && s.pinned.Some? && s.live == s.pinned
  {
    InvariantAlways(bytes, schedule);
  }

  // ----- no deadlock, and no way to run forever -----

  /** A step the child can always take by itself. */
  function Forward(bytes: seq<Byte>, s: State): ChildAction {
    if s.child.Writing? && s.child.offset < |bytes| then WriteSome(1) else Go
  }

  /** No reachable state leaves the parent waiting on a child that cannot move: in every
      reachable state the parent is back, or its next call can return even if it fails, or
      it waits for a child that has a step bringing it closer to its exit. A parent that
      waits is never let go by a failing waitpid alone. */
  lemma NoDeadlock(bytes: seq<Byte>, schedule: seq<Step>)
    requires Run(bytes, schedule).Some?
    ensures var s := Run(bytes, schedule).value;
            || s.parent.Returned?
            || (!s.parent.Waiting? && ParentEnabled(s, Fails))
            || (s.parent.Waiting? && ChildDone(s.child) && ParentEnabled(s, Works(0)))
            || (s.parent.Waiting? && ChildEnabled(bytes, s, Forward(bytes, s))
                && Rank(bytes, ChildAct(bytes, s, Forward(bytes, s))) < Rank(bytes, s))
  {
    InvariantAlways(bytes, schedule);
    var s := Run(bytes, schedule).value;
    if s.parent.Waiting? && !ChildDone(s.child) {
      ChildKeeps(bytes, s, Forward(bytes, s));
    }
  }

  /** The schedule in which only the child runs, for at most k uninterrupted steps. */
  function ChildRuns(bytes: seq<Byte>, s: State, k: nat): State
    decreases k
  {
    if k == 0 || !ChildEnabled(bytes, s, Forward(bytes, s)) then s
    else ChildRuns(bytes, ChildAct(bytes, s, Forward(bytes, s)), k - 1)
  }

  /** While the parent waits, a child whose calls are not interrupted is gone after at most
      Rank steps, so waitpid returns. */
  lemma {:induction false} ChildExits(bytes: seq<Byte>, s: State, k: nat)
    requires Invariant(bytes, s) && s.parent.Waiting? && k >= Rank(bytes, s)
    ensures ChildDone(ChildRuns(bytes, s, k).child)
    decreases k
  {
    if !ChildDone(s.child) {
      ChildKeeps(bytes, s, Forward(bytes, s));
      ChildExits(bytes, ChildAct(bytes, s, Forward(bytes, s)), k - 1);
    }
  }
}
