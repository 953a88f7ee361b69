/** Attempt numbering (crates/executor/src/locked_session.rs, `next_attempt_id`). */
module AttemptIds {
  import opened Wrappers
  import opened Journals

  const MAX_ATTEMPTS: nat := 1024

  datatype AttemptError = Gap | AlreadyExists(id: Digest) | TooManyAttempts

  /** The journal ID of an attempt: the proposed one, then hashes of it with a counter. */
  function Candidate(proposed: Journal, attempt: nat): Digest {
    if attempt == 0 then proposed.journalId else Sha256(AttemptTuple(proposed.journalId, attempt))
  }

  /** A previous attempt at the same operation that was aborted before any mutation. */
  predicate SafelyAborted(previous: Journal, proposed: Journal) {
    && previous.phase.Aborted? && !previous.mutationMayHaveStarted
    && previous.planId == proposed.planId && previous.target == proposed.target
    && previous.baselineManifestDigest == proposed.baselineManifestDigest
  }

  /** IDs of all records of the same operation. */
  function Related(history: map<Digest, Journal>, proposed: Journal): set<Digest> {
    set id | id in history
             && history[id].planId == proposed.planId && history[id].target == proposed.target
             && history[id].baselineManifestDigest == proposed.baselineManifestDigest
  }

  function FirstCandidates(proposed: Journal, k: nat): set<Digest> {
    set i | 0 <= i < k :: Candidate(proposed, i)
  }

  predicate AbortedAt(history: map<Digest, Journal>, proposed: Journal, i: nat) {
    Candidate(proposed, i) in history && SafelyAborted(history[Candidate(proposed, i)], proposed)
  }

  /** The records of this operation are exactly attempts 0 to k-1, all safely aborted, and
      attempt k is unused. */
  predicate GapFree(history: map<Digest, Journal>, proposed: Journal, k: nat) {
    && (forall i :: 0 <= i < k ==> AbortedAt(history, proposed, i))
    && Related(history, proposed) == FirstCandidates(proposed, k)
    && Candidate(proposed, k) !in history
  }

  /** Different attempts have different IDs: a hash is never the ID it was made from. */
  lemma CandidatesDistinct(proposed: Journal, i: nat, k: nat)
    requires i != k
    ensures Candidate(proposed, i) != Candidate(proposed, k)
  {
  }

  /** At most one attempt number is free in this sense. */
  lemma GapFreeUnique(history: map<Digest, Journal>, proposed: Journal, i: nat, k: nat)
    requires GapFree(history, proposed, i) && GapFree(history, proposed, k)
    ensures i == k
  {
    assert i < k ==> AbortedAt(history, proposed, i);
    assert k < i ==> AbortedAt(history, proposed, k);
  }

  /** An ID is returned if and only if the history is gap-free up to some attempt below
      the limit, and then it is the ID of exactly that attempt. */
  method NextAttemptId(history: map<Digest, Journal>, proposed: Journal)
    returns (r: Result<Digest, AttemptError>)
    ensures r.Ok? <==> exists k :: 0 <= k < MAX_ATTEMPTS && GapFree(history, proposed, k)
    ensures forall k :: 0 <= k < MAX_ATTEMPTS && GapFree(history, proposed, k) ==>
              r == Ok(Candidate(proposed, k))
    ensures r.Ok? ==> r.value !in history
    ensures r == Err(TooManyAttempts) ==>
              forall i :: 0 <= i < MAX_ATTEMPTS ==> AbortedAt(history, proposed, i)
  {
    var related := Related(history, proposed);
    var attempt := 0;
    while attempt < MAX_ATTEMPTS
      invariant 0 <= attempt <= MAX_ATTEMPTS
      invariant forall i :: 0 <= i < attempt ==> AbortedAt(history, proposed, i)
      invariant related == Related(history, proposed) - FirstCandidates(proposed, attempt)
    {
      var candidate := Candidate(proposed, attempt);
      if candidate !in history {
        OnlyThisAttempt(history, proposed, attempt);
        if related == {} {
          return Ok(candidate);
        }
        return Err(Gap);
      }
      if !SafelyAborted(history[candidate], proposed) {
        NotThisAttempt(history, proposed, attempt);
        return Err(AlreadyExists(candidate));
      }
      related := related - {candidate};
      attempt := attempt + 1;
    }
    forall k | 0 <= k < MAX_ATTEMPTS ensures !GapFree(history, proposed, k) {
      assert AbortedAt(history, proposed, k);
    }
    return Err(TooManyAttempts);
  }

  lemma OnlyThisAttempt(history: map<Digest, Journal>, proposed: Journal, attempt: nat)
    requires forall i :: 0 <= i < attempt ==> AbortedAt(history, proposed, i)
    requires Candidate(proposed, attempt) !in history
    ensures forall k: nat :: GapFree(history, proposed, k) ==> k == attempt
    ensures FirstCandidates(proposed, attempt) <= Related(history, proposed)
    ensures GapFree(history, proposed, attempt) <==>
            Related(history, proposed) - FirstCandidates(proposed, attempt) == {}
  {
    forall k: nat | GapFree(history, proposed, k) ensures k == attempt {
      assert k < attempt ==> AbortedAt(history, proposed, k);
      assert attempt < k ==> AbortedAt(history, proposed, attempt);
    }
    forall id | id in FirstCandidates(proposed, attempt) ensures id in Related(history, proposed) {
      var i :| 0 <= i < attempt && id == Candidate(proposed, i);
      assert AbortedAt(history, proposed, i);
    }
    var related, first := Related(history, proposed), FirstCandidates(proposed, attempt);
    assert related - first == {} ==> related <= first by {
      assert forall id :: id in related && id !in first ==> id in related - first;
    }
  }

  lemma NotThisAttempt(history: map<Digest, Journal>, proposed: Journal, attempt: nat)
    requires forall i :: 0 <= i < attempt ==> AbortedAt(history, proposed, i)
    requires Candidate(proposed, attempt) in history && !AbortedAt(history, proposed, attempt)
    ensures forall k: nat :: !GapFree(history, proposed, k)
  {
    forall k: nat ensures !GapFree(history, proposed, k) {
      assert k < attempt ==> AbortedAt(history, proposed, k);
    }
  }
}
