/** Whole sessions: every sequence of calls on one locked session
    (crates/executor/src/locked_session.rs). */
module SessionRuns {
  import opened Journals
  import opened EntryNames
  import opened Disks
  import opened StoreStates
  import opened LockedSessions

  datatype Session = Session(disk: Disk, journal: Journal)

  /** A call with what it was given and how far it came. */
  datatype Call =
    | Persist(t: Transition, w: WriteContext, steps: nat, ok: bool)
    | Revalidate(digest: Digest, w: WriteContext, steps: nat, ok: bool)

  /** What the contracts of the session's methods allow one call to do. */
  ghost predicate Called(s: Session, c: Call, s': Session) {
    && (c.ok ==> c.steps == UPDATE_STEPS)
    && match c
       case Persist(t, w, steps, ok) =>
         && WriteStep(s.disk, s.journal, t, w, steps, s'.disk)
         && s'.journal == if ok then Apply(s.journal, t).value else s.journal
       case Revalidate(digest, w, steps, ok) =>
         && RevalidateStep(s.disk, s.journal, digest, w, steps, s'.disk)
         && s'.journal == if ok then Apply(s.journal, RevalidateIdentity(digest)).value else s.journal
  }

  ghost predicate Current(s: Session) {
    InSync(Live(s.disk), s.disk.files, s.journal)
  }

  ghost predicate Stands(s: Session) {
    Standing(s.disk, s.journal)
  }

  lemma BlockedIsNotCurrent(s: Session)
    requires Blocked(Live(s.disk))
    ensures !Current(s)
  {
    BlockedNotQuiescent(Live(s.disk), s.disk.files);
  }

  lemma AheadIsNotCurrent(d: Disk, j: Journal)
    requires OneAhead(Live(d), d.files, j)
    ensures !Current(Session(d, j))
  {
    AheadIsNotExpected(d, j);
  }

  lemma PersistStands(s: Session, c: Call, s': Session)
    requires Stands(s) && Called(s, c, s') && c.Persist?
    ensures Stands(s')
    ensures c.steps > 0 ==> Current(s) && (c.ok <==> Current(s'))
    ensures c.steps == 0 ==> s' == s
  {
    if c.steps > 0 {
      StandingAlong(s.disk, s.journal, c.t, c.w, c.steps);
      if c.steps <= 6 {
        BlockedIsNotCurrent(s');
      } else {
        AheadIsNotCurrent(s'.disk, s.journal);
        InSyncStands(s'.disk, Apply(s.journal, c.t).value);
      }
    }
  }

  lemma RevalidateStands(s: Session, c: Call, s': Session)
    requires Stands(s) && Called(s, c, s') && c.Revalidate?
    ensures Stands(s')
    ensures c.steps == 0 ==> s' == s
    ensures !Current(s) ==> !Current(s')
  {
    if c.steps > 0 {
      RevalidationStanding(s.disk, s.journal, RevalidateIdentity(c.digest), c.w, c.steps);
      if Blocked(Live(s.disk)) { BlockedIsNotCurrent(s'); }
    }
  }

  /** One call, whatever its outcome. */
  lemma CallStands(s: Session, c: Call, s': Session)
    requires Called(s, c, s') && Stands(s)
    ensures Stands(s')
    ensures !Current(s) ==> !Current(s')
    ensures c.Persist? && !Current(s) ==> s' == s && !c.ok
    ensures c.Persist? && c.steps > 0 && !c.ok ==> !Current(s')
  {
    if c.Persist? {
      PersistStands(s, c, s');
    } else {
      RevalidateStands(s, c, s');
    }
  }

  // ----- runs -----

  datatype Trace = Trace(sessions: seq<Session>, calls: seq<Call>)
  {
    ghost predicate Linked(i: nat)
      requires |sessions| == |calls| + 1 && i < |calls|
    {
      Called(sessions[i], calls[i], sessions[i + 1])
    }

    /** Linked calls, from a record in sync as `begin` leaves it. */
    ghost predicate IsRun() {
      && |sessions| == |calls| + 1 && Current(sessions[0])
      && forall i :: 0 <= i < |calls| ==> Linked(i)
    }
  }

  /** A directory with one record, and a session that has done nothing yet. */
  function IdleSession(): Session {
    var id := Sha256(AttemptTuple(Literal(""), 0));
    var j := NewJournal(id, id, "/", id);
    Session(Disk(map[Primary(id) := 0], [], map[0 := File(Record(j, 1), true)]), j)
  }

  ghost function IdleTrace(): (t: Trace)
    ensures t.IsRun()
  {
    var s := IdleSession();
    var names := Live(s.disk);
    assert SingleLink(names, Primary(s.journal.journalId));
    Trace([s], [])
  }

  /** The run of one session: every sequence of calls with their outcomes. */
  type Run = t: Trace | t.IsRun() ghost witness IdleTrace()

  lemma CallAt(run: Run, i: nat)
    requires i < |run.calls| && Stands(run.sessions[i])
    ensures Stands(run.sessions[i + 1])
    ensures !Current(run.sessions[i]) ==> !Current(run.sessions[i + 1])
    ensures run.calls[i].Persist? && !Current(run.sessions[i]) ==>
              !run.calls[i].ok && run.sessions[i + 1] == run.sessions[i]
    ensures run.calls[i].Persist? && run.calls[i].steps > 0 && !run.calls[i].ok ==> !Current(run.sessions[i + 1])
  {
    ghost var linked := run.Linked(i);
    CallStands(run.sessions[i], run.calls[i], run.sessions[i + 1]);
  }

  /** The refinement over whole sessions: after every sequence of calls, whatever their
      outcomes, the durable record is the one in memory or one transition ahead, in a
      directory that is quiescent or blocked. */
  lemma {:induction false} StandsAlways(run: Run, n: nat, s: Session)
    requires n < |run.sessions| && s == run.sessions[n]
    ensures Stands(s)
    decreases n
  {
    if n == 0 {
      InSyncStands(s.disk, s.journal);
    } else {
      StandsAlways(run, n - 1, run.sessions[n - 1]);
      CallAt(run, n - 1);
    }
  }

  lemma CurrentBeforeCall(run: Run, i: nat, atFirst: bool, atLast: bool)
    requires i < |run.calls| && atFirst == Current(run.sessions[i]) && atLast == Current(run.sessions[i + 1])
    ensures atLast ==> atFirst
  {
    StandsAlways(run, i, run.sessions[i]);
    CallAt(run, i);
  }

  predicate Keeps(flags: seq<bool>, i: nat)
    requires i < |flags| - 1
  {
    flags[i + 1] ==> flags[i]
  }

  predicate NeverRises(flags: seq<bool>) {
    forall i :: 0 <= i < |flags| - 1 ==> Keeps(flags, i)
  }

  lemma {:induction false} Fallen(flags: seq<bool>, n: nat, m: nat)
    requires NeverRises(flags) && n <= m < |flags| && !flags[n]
    ensures !flags[m]
  {
    if n < m {
      Fallen(flags, n, m - 1);
      assert Keeps(flags, m - 1);
    }
  }

  /** Whether the session is in sync, at every moment of the run. */
  ghost function Flags(sessions: seq<Session>): (flags: seq<bool>)
    ensures |flags| == |sessions| && forall i :: 0 <= i < |flags| ==> flags[i] == Current(sessions[i])
  {
    seq(|sessions|, i requires 0 <= i < |sessions| => Current(sessions[i]))
  }

  lemma FlagsNeverRise(run: Run, flags: seq<bool>)
    requires flags == Flags(run.sessions)
    ensures NeverRises(flags)
  {
    forall i | 0 <= i < |flags| - 1 ensures Keeps(flags, i) {
      CurrentBeforeCall(run, i, flags[i], flags[i + 1]);
    }
  }

  /** A session that is out of sync at one moment is so at every later one. */
  lemma NeverCurrentAgain(run: Run, n: nat, m: nat)
    requires n <= m < |run.sessions| && !Current(run.sessions[n])
    ensures !Current(run.sessions[m])
  {
    FlagsNeverRise(run, Flags(run.sessions));
    Fallen(Flags(run.sessions), n, m);
  }

  /** Once the record is ahead of memory or the directory blocked, no later persist of the
      session succeeds or writes anything. */
  lemma StuckSession(run: Run, n: nat, m: nat)
    requires n <= m < |run.calls| && !Current(run.sessions[n]) && run.calls[m].Persist?
    ensures !run.calls[m].ok && run.sessions[m + 1] == run.sessions[m]
  {
    NeverCurrentAgain(run, n, m);
    StandsAlways(run, m, run.sessions[m]);
    CallAt(run, m);
  }

  /** So a persist that reports an error after it wrote anything is the session's last. */
  lemma FailedWriteIsLast(run: Run, n: nat, m: nat)
    requires n < m < |run.calls| && run.calls[m].Persist?
    requires run.calls[n].Persist? && run.calls[n].steps > 0 && !run.calls[n].ok
    ensures !run.calls[m].ok && run.sessions[m + 1] == run.sessions[m]
  {
    StandsAlways(run, n, run.sessions[n]);
    CallAt(run, n);
    StuckSession(run, n + 1, m);
  }
}
