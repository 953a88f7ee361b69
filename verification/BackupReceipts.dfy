/** Capturing backups and checking their receipts
    (crates/executor/src/backup_capture.rs). */
module BackupReceipts {
  import opened Wrappers
  import opened Decimals
  import opened Journals
  import opened TargetIdentity
  import opened BackupManifests

  const MAX_ARTIFACT_BYTES: nat := 16 * 1024 * 1024

  type Byte = bv8

  /** A file in the artifact directory. `trusted` stands for the checks on its type, owner,
      mode and link count. */
  datatype ArtifactFile = ArtifactFile(device: nat, inode: nat, bytes: seq<Byte>, trusted: bool)

  type Files = map<string, ArtifactFile>

  /** SHA-256 of file contents, an injective constructor. */
  datatype ContentDigest = ContentDigest(bytes: seq<Byte>)

  /** What `verify_artifact` reports. */
  datatype Seen = Seen(sizeBytes: nat, sha256: ContentDigest, device: nat, inode: nat)

  datatype ArtifactReceipt = ArtifactReceipt(
    ordinal: nat, kind: Kind, artifactPath: string, expected: ExpectedIdentity, seen: Seen)

  /** The fingerprint also covers the constant that mutation is not enabled. */
  datatype ReceiptId =
    | ReceiptId(
        manifestId: ManifestId, handoffId: Digest, planId: Digest, targetDigest: Digest,
        sessionId: Digest, journalId: Digest, artifacts: seq<ArtifactReceipt>)
    | OtherId(text: string)

  datatype Receipt = Receipt(
    schemaVersion: nat, receiptId: ReceiptId, manifestId: ManifestId, handoffId: Digest, planId: Digest,
    targetDigest: Digest, sessionId: Digest, journalId: Digest, mutationEnabled: bool,
    artifacts: seq<ArtifactReceipt>)

  datatype CaptureError =
    | MutationEnabled
    | SessionNotRevalidated
    | ManifestBindingMismatch
    | ArtifactDirectoryMismatch
    | UnsupportedCaptureCommand
    | UnsafeDirectory
    | UnsafeArtifact
    | ArtifactExists
    | EmptyArtifact
    | ArtifactTooLarge
    | CommandFailed
    | Io

  // ----- single files -----

  /** The text after the last separator. */
  function LastComponent(path: string): string {
    if path == "" || path[|path| - 1] == '/' then ""
    else LastComponent(path[..|path| - 1]) + [path[|path| - 1]]
  }

  predicate EndsInDot(path: string) {
    |path| >= 2 && path[|path| - 2] == '/' && path[|path| - 1] == '.'
  }

  /** `Path::file_name`: trailing separators and `.` components are skipped; the root, `.`
      and `..` have no name. */
  function FileName(path: string): Option<string> {
    if path == "" then None
    else if path[|path| - 1] == '/' || EndsInDot(path) then FileName(path[..|path| - 1])
    else
      var name := LastComponent(path);
      if name == "." || name == ".." then None else Some(name)
  }

  lemma {:induction false} LastComponentOf(directory: string, name: string)
    requires '/' !in name
    ensures LastComponent(directory + "/" + name) == name
  {
    var path := directory + "/" + name;
    if name != "" {
      var n := |name| - 1;
      assert path[..|path| - 1] == directory + "/" + name[..n];
      assert '/' !in name[..n];
      LastComponentOf(directory, name[..n]);
      assert path[|path| - 1] == name[n] && name[n] in name;
    }
  }

  lemma {:induction false} LastComponentPlain(path: string)
    ensures '/' !in LastComponent(path)
    ensures path != "" && path[|path| - 1] != '/' ==> LastComponent(path) != ""
  {
    if path != "" && path[|path| - 1] != '/' {
      LastComponentPlain(path[..|path| - 1]);
    }
  }

  /** Whatever the path, joining its name to a directory stays in that directory. */
  lemma {:induction false} NameStaysInside(path: string)
    requires FileName(path).Some?
    ensures var name := FileName(path).value; '/' !in name && name != "" && name != "." && name != ".."
  {
    if path[|path| - 1] == '/' || EndsInDot(path) {
      NameStaysInside(path[..|path| - 1]);
    } else {
      LastComponentPlain(path);
    }
  }

  lemma FileNameOf(directory: string, name: string)
    requires '/' !in name && |name| > 2
    ensures FileName(directory + "/" + name) == Some(name)
  {
    var path := directory + "/" + name;
    LastComponentOf(directory, name);
    assert path[|path| - 1] == name[|name| - 1] && path[|path| - 2] == name[|name| - 2];
    assert name[|name| - 1] in name && name[|name| - 2] in name;
  }

  lemma DigitsAreNoSlash(text: string)
    requires AllDigits(text)
    ensures '/' !in text
  {
  }

  /** Artifacts of requirements are found under the names that were made for them. */
  lemma NameOfArtifact(directory: string, ordinal: nat, kind: Kind)
    ensures FileName(ArtifactPath(directory, ordinal, Suffix(kind))) == Some(ArtifactName(ordinal, Suffix(kind)))
  {
    TwoDigitsValue(ordinal);
    DigitsAreNoSlash(TwoDigits(ordinal));
    assert '/' !in Suffix(kind) && |Suffix(kind)| > 2;
    FileNameOf(directory, ArtifactName(ordinal, Suffix(kind)));
  }

  /** `verify_artifact`. */
  function VerifyArtifact(files: Files, name: string): Result<Seen, CaptureError> {
    if name !in files then Err(Io)
    else
      var file := files[name];
      if !file.trusted then Err(UnsafeArtifact)
      else if |file.bytes| == 0 then Err(EmptyArtifact)
      else if |file.bytes| > MAX_ARTIFACT_BYTES then Err(ArtifactTooLarge)
      else Ok(Seen(|file.bytes|, ContentDigest(file.bytes), file.device, file.inode))
  }

  function Examine(files: Files, path: string): Result<Seen, CaptureError> {
    match FileName(path)
    case None => Err(UnsafeArtifact)
    case Some(name) => VerifyArtifact(files, name)
  }

  // ----- capturing -----

  /** What a backup tool does: it fails, perhaps leaving a file, or writes one. */
  datatype ToolOutcome = Failed(left: Option<ArtifactFile>) | Wrote(file: ArtifactFile)

  function ReceiptFor(r: Requirement, seen: Seen): ArtifactReceipt {
    ArtifactReceipt(r.ordinal, r.kind, r.artifactPath, r.expected, seen)
  }

  /** Each receipt entry describes its requirement and the file as it is. */
  predicate Captured(requirements: seq<Requirement>, artifacts: seq<ArtifactReceipt>, files: Files) {
    && |artifacts| == |requirements|
    && forall i :: 0 <= i < |requirements| ==> EntryCaptured(requirements[i], artifacts[i], files)
  }

  predicate EntryCaptured(r: Requirement, a: ArtifactReceipt, files: Files) {
    && ValidRequirement(r)
    && Examine(files, r.artifactPath).Ok?
    && a == ReceiptFor(r, Examine(files, r.artifactPath).value)
  }

  /** Files that were there stay as they were. */
  predicate Extends(before: Files, after: Files) {
    forall name :: name in before ==> name in after && after[name] == before[name]
  }

  lemma CapturedExtends(requirements: seq<Requirement>, artifacts: seq<ArtifactReceipt>, before: Files, after: Files)
    requires Captured(requirements, artifacts, before) && Extends(before, after)
    ensures Captured(requirements, artifacts, after)
  {
    forall i | 0 <= i < |requirements| ensures EntryCaptured(requirements[i], artifacts[i], after) {
      assert EntryCaptured(requirements[i], artifacts[i], before);
    }
  }

  predicate Acceptable(file: ArtifactFile) {
    file.trusted && 0 < |file.bytes| <= MAX_ARTIFACT_BYTES
  }

  /** The requirement has a command and a file name, and its tool writes an acceptable file
      whose name is free. */
  predicate Works(r: Requirement, outcome: ToolOutcome, files: Files) {
    && ValidRequirement(r) && FileName(r.artifactPath).Some?
    && outcome.Wrote? && Acceptable(outcome.file) && FileName(r.artifactPath).value !in files
  }

  /** No two requirements name the same file. */
  predicate NamesApart(requirements: seq<Requirement>, n: nat)
    requires n <= |requirements|
  {
    forall i, j :: 0 <= i < j < n ==>
      FileName(requirements[i].artifactPath) != FileName(requirements[j].artifactPath)
  }

  /** The first requirements can all be captured. */
  predicate Capturable(requirements: seq<Requirement>, outcomes: seq<ToolOutcome>, files: Files, n: nat)
    requires n <= |requirements| == |outcomes|
  {
    && (forall i :: 0 <= i < n ==> Works(requirements[i], outcomes[i], files))
    && NamesApart(requirements, n)
  }

  predicate Named(requirements: seq<Requirement>, n: nat, name: string)
    requires n <= |requirements|
  {
    exists k :: 0 <= k < n && FileName(requirements[k].artifactPath) == Some(name)
  }

  /** The names are the old ones and those of the first requirements. */
  ghost predicate NamesAre(files: Files, before: Files, requirements: seq<Requirement>, n: nat)
    requires n <= |requirements|
  {
    forall name :: name in files <==> name in before || Named(requirements, n, name)
  }

  lemma NamesNext(files: Files, before: Files, requirements: seq<Requirement>, n: nat, name: string, file: ArtifactFile)
    requires n < |requirements| && NamesAre(files, before, requirements, n)
    requires FileName(requirements[n].artifactPath) == Some(name)
    ensures NamesAre(files[name := file], before, requirements, n + 1)
  {
    forall other ensures Named(requirements, n + 1, other) <==> Named(requirements, n, other) || other == name {
      if other == name { assert FileName(requirements[n].artifactPath) == Some(other); }
    }
  }

  lemma CapturableNext(requirements: seq<Requirement>, outcomes: seq<ToolOutcome>, before: Files, files: Files, n: nat)
    requires n < |requirements| == |outcomes|
    requires Capturable(requirements, outcomes, before, n) && NamesAre(files, before, requirements, n)
    ensures Capturable(requirements, outcomes, before, n + 1) <==> Works(requirements[n], outcomes[n], files)
  {
    var r := requirements[n];
    if Works(r, outcomes[n], files) {
      assert !Named(requirements, n, FileName(r.artifactPath).value);
    }
  }

  lemma StaysUncapturable(requirements: seq<Requirement>, outcomes: seq<ToolOutcome>, before: Files, n: nat)
    requires n <= |requirements| == |outcomes| && !Capturable(requirements, outcomes, before, n)
    ensures !Capturable(requirements, outcomes, before, |requirements|)
  {
  }

  class ArtifactDirectory {
    var files: Files

    constructor ()
      ensures files == map[]
    {
      files := map[];
    }

    /** One tool run: the artifact must not exist before. */
    method RunTool(name: string, outcome: ToolOutcome) returns (r: Result<(), CaptureError>)
      modifies this
      ensures Extends(old(files), files)
      ensures r.Ok? <==> name !in old(files) && outcome.Wrote?
      ensures r.Ok? ==> files == old(files)[name := outcome.file]
      ensures r.Err? ==> files == old(files)
                         || (name !in old(files) && outcome.Failed? && outcome.left.Some?
                             && files == old(files)[name := outcome.left.value])
    {
      if name in files { return Err(ArtifactExists); }
      match outcome
      case Failed(left) =>
        if left.Some? { files := files[name := left.value]; }
        return Err(CommandFailed);
      case Wrote(file) =>
        files := files[name := file];
        return Ok(());
    }

    /** One turn of the loop of `capture_with_runner`. */
    method CaptureOne(requirement: Requirement, outcome: ToolOutcome) returns (r: Result<ArtifactReceipt, CaptureError>)
      modifies this
      ensures Extends(old(files), files)
      ensures r.Ok? <==> Works(requirement, outcome, old(files))
      ensures r.Ok? ==>
                && files == old(files)[FileName(requirement.artifactPath).value := outcome.file]
                && EntryCaptured(requirement, r.value, files)
    {
      if !ValidRequirement(requirement) { return Err(UnsupportedCaptureCommand); }
      var name := FileName(requirement.artifactPath);
      if name.None? { return Err(UnsafeArtifact); }
      var ran := RunTool(name.value, outcome);
      if ran.Err? { return Err(ran.error); }
      var seen := VerifyArtifact(files, name.value);
      if seen.Err? { return Err(seen.error); }
      return Ok(ReceiptFor(requirement, seen.value));
    }

    /** The loop of `capture_with_runner`. Nothing that was in the directory is touched. */
    method CaptureAll(requirements: seq<Requirement>, outcomes: seq<ToolOutcome>)
      returns (r: Result<seq<ArtifactReceipt>, CaptureError>)
      requires |outcomes| == |requirements|
      modifies this
      ensures Extends(old(files), files)
      ensures r.Ok? <==> Capturable(requirements, outcomes, old(files), |requirements|)
      ensures r.Ok? ==> Captured(requirements, r.value, files)
      ensures r.Ok? ==> NamesAre(files, old(files), requirements, |requirements|)
    {
      var receipts: seq<ArtifactReceipt> := [];
      ghost var start := files;
      var i := 0;
      while i < |requirements|
        invariant 0 <= i <= |requirements|
        invariant Extends(start, files) && NamesAre(files, start, requirements, i)
        invariant Captured(requirements[..i], receipts, files)
        invariant Capturable(requirements, outcomes, start, i)
      {
        ghost var before := files;
        CapturableNext(requirements, outcomes, start, before, i);
        var receipt := CaptureOne(requirements[i], outcomes[i]);
        if receipt.Err? {
          StaysUncapturable(requirements, outcomes, start, i + 1);
          return Err(receipt.error);
        }
        CapturedExtends(requirements[..i], receipts, before, files);
        NamesNext(before, start, requirements, i, FileName(requirements[i].artifactPath).value, outcomes[i].file);
        receipts := receipts + [receipt.value];
        CapturedNext(requirements, i, receipts, files);
        i := i + 1;
      }
      assert requirements[..i] == requirements;
      return Ok(receipts);
    }

    /** `capture_with_runner`: the session must be bound to the manifest; the receipt names
        it, the session and every artifact. `secure` and `synced` stand for the checks on
        the directory before and its sync afterwards. */
    method Capture(m: BackupManifest, s: CaptureSession, secure: bool, outcomes: seq<ToolOutcome>, synced: bool)
      returns (r: Result<Receipt, CaptureError>)
      requires |outcomes| == |m.requirements|
      modifies this
      ensures Extends(old(files), files)
      ensures r.Ok? <==>
              && s.Bound(m) && secure && synced
              && Capturable(m.requirements, outcomes, old(files), |m.requirements|)
      ensures r.Ok? ==> IsReceiptOf(r.value, m, s, files)
      ensures !s.Bound(m) || !secure ==> files == old(files)
    {
      if m.mutationEnabled { return Err(CaptureError.MutationEnabled); }
      if !s.revalidated { return Err(SessionNotRevalidated); }
      if m.handoffId != s.handoffId || m.planId != s.planId || m.targetDigest != s.targetDigest
         || !m.ownerAcceptanceRequired {
        return Err(ManifestBindingMismatch);
      }
      if !s.DirectoryFits(m) { return Err(ArtifactDirectoryMismatch); }
      if !secure { return Err(UnsafeDirectory); }
      var artifacts := CaptureAll(m.requirements, outcomes);
      if artifacts.Err? { return Err(artifacts.error); }
      if !synced { return Err(Io); }
      var id := ReceiptId(m.manifestId, m.handoffId, m.planId, m.targetDigest, s.sessionId, s.journalId,
                          artifacts.value);
      return Ok(Receipt(2, id, m.manifestId, m.handoffId, m.planId, m.targetDigest,
                        s.sessionId, s.journalId, false, artifacts.value));
    }

    /** `revalidate_receipt_at_root`. Blockers accumulate; the receipt matches if and only if
        there is none. */
    method Revalidate(m: BackupManifest, receipt: Receipt, layout: Layout, secure: bool)
      returns (blockers: set<Blocker>)
      ensures blockers == {} <==> Matches(m, receipt, layout, secure, files)
    {
      blockers := {};
      if m.mutationEnabled || receipt.mutationEnabled { blockers := blockers + {MutationForbidden}; }
      if receipt.schemaVersion != 2 { blockers := blockers + {SchemaUnsupported}; }
      if receipt.manifestId != m.manifestId || receipt.handoffId != m.handoffId
         || receipt.planId != m.planId || receipt.targetDigest != m.targetDigest {
        blockers := blockers + {Blocker.IdentityMismatch};
      }
      if !layout.Fits(m, receipt.journalId) { blockers := blockers + {DirectoryMismatch}; }
      if receipt.receiptId != ExpectedReceiptId(m, receipt) { blockers := blockers + {ReceiptIdMismatch}; }
      if |receipt.artifacts| != |m.requirements| { blockers := blockers + {CountMismatch}; }
      if !secure { blockers := blockers + {DirectoryUnsafe}; }
      var header := blockers;
      var i := 0;
      while i < |m.requirements|
        invariant 0 <= i <= |m.requirements|
        invariant blockers == {} <==> header == {} && ArtifactsMatch(m.requirements[..i], receipt, files)
      {
        var problems := ArtifactBlockers(m.requirements[i], receipt, files);
        MatchNext(m.requirements, i, receipt, files);
        blockers := blockers + problems;
        i := i + 1;
      }
      assert m.requirements[..i] == m.requirements;
    }
  }

  lemma FilesApart(directory: string, m: nat, a: Kind, n: nat, b: Kind)
    requires m != n
    ensures FileName(ArtifactPath(directory, m, Suffix(a))) != FileName(ArtifactPath(directory, n, Suffix(b)))
  {
    NameOfArtifact(directory, m, a);
    NameOfArtifact(directory, n, b);
    NamesInjective(m, Suffix(a), n, Suffix(b));
  }

  lemma NamesInjective(m: nat, s: string, n: nat, t: string)
    requires m != n
    ensures ArtifactName(m, s) != ArtifactName(n, t)
  {
    if ArtifactName(m, s) == ArtifactName(n, t) {
      PathsDistinct("", m, s, n, t);
    }
  }

  lemma NumberedFilesApart(r: Requirement, q: Requirement, directory: string, i: nat, j: nat)
    requires NumberedAt(r, directory, i) && NumberedAt(q, directory, j) && i != j
    ensures ValidRequirement(r) && FileName(r.artifactPath) != FileName(q.artifactPath)
  {
    FilesApart(directory, i, r.kind, j, q.kind);
  }

  /** The requirements of a built manifest name different files. */
  lemma NumberedApart(rs: seq<Requirement>, directory: string)
    requires forall i :: 0 <= i < |rs| ==> NumberedAt(rs[i], directory, i + 1)
    ensures forall i, j :: 0 <= i < j < |rs| ==> FileName(rs[i].artifactPath) != FileName(rs[j].artifactPath)
  {
    forall i, j | 0 <= i < j < |rs| ensures FileName(rs[i].artifactPath) != FileName(rs[j].artifactPath) {
      var r, q := rs[i], rs[j];
      NumberedFilesApart(r, q, directory, i + 1, j + 1);
    }
  }

  ghost predicate ToolsWork(requirements: seq<Requirement>, outcomes: seq<ToolOutcome>, files: Files)
    requires |outcomes| == |requirements|
  {
    forall i :: 0 <= i < |requirements| ==>
      outcomes[i].Wrote? && Acceptable(outcomes[i].file)
      && forall name :: FileName(requirements[i].artifactPath) == Some(name) ==> name !in files
  }

  /** For a built manifest only the tools and the names already taken decide whether its
      requirements can be captured. */
  lemma BuiltCapturable(m: BackupManifest, outcomes: seq<ToolOutcome>, files: Files)
    requires Numbered(m) && |outcomes| == |m.requirements|
    ensures Capturable(m.requirements, outcomes, files, |m.requirements|) <==>
            ToolsWork(m.requirements, outcomes, files)
  {
    NumberedApart(m.requirements, m.artifactDirectory);
    forall i | 0 <= i < |m.requirements|
      ensures ValidRequirement(m.requirements[i]) && FileName(m.requirements[i].artifactPath).Some?
    {
      assert NumberedAt(m.requirements[i], m.artifactDirectory, i + 1);
      NameOfArtifact(m.artifactDirectory, i + 1, m.requirements[i].kind);
    }
  }

  lemma CapturedNext(requirements: seq<Requirement>, i: nat, receipts: seq<ArtifactReceipt>, files: Files)
    requires i < |requirements| && |receipts| == i + 1
    requires Captured(requirements[..i], receipts[..i], files)
    requires EntryCaptured(requirements[i], receipts[i], files)
    ensures Captured(requirements[..i + 1], receipts, files)
  {
    forall k | 0 <= k < i + 1 ensures EntryCaptured(requirements[..i + 1][k], receipts[k], files) {
      if k < i { assert EntryCaptured(requirements[..i][k], receipts[..i][k], files); }
    }
  }

  /** The directories a manifest of a handoff may name: that of the handoff, and one below
      it for each journal ID. */
  datatype Layout = Layout(handoffRoot: string, attemptRoot: Digest -> string)
  {
    predicate Fits(m: BackupManifest, journalId: Digest) {
      m.artifactDirectory == handoffRoot || m.artifactDirectory == attemptRoot(journalId)
    }
  }

  /** What the capture reads from the locked session. */
  datatype CaptureSession = CaptureSession(
    revalidated: bool, handoffId: Digest, planId: Digest, targetDigest: Digest,
    sessionId: Digest, journalId: Digest, layout: Layout)
  {
    predicate DirectoryFits(m: BackupManifest) {
      layout.Fits(m, journalId)
    }

    predicate Bound(m: BackupManifest) {
      && revalidated && m.handoffId == handoffId && m.planId == planId && m.targetDigest == targetDigest
      && !m.mutationEnabled && m.ownerAcceptanceRequired && DirectoryFits(m)
    }
  }

  predicate IsReceiptOf(r: Receipt, m: BackupManifest, s: CaptureSession, files: Files) {
    && r.schemaVersion == 2 && r.receiptId == ExpectedReceiptId(m, r) && !r.mutationEnabled
    && r.manifestId == m.manifestId && r.handoffId == m.handoffId && r.planId == m.planId
    && r.targetDigest == m.targetDigest && r.sessionId == s.sessionId && r.journalId == s.journalId
    && Captured(m.requirements, r.artifacts, files)
  }

  // ----- revalidation -----

  datatype Blocker =
    | MutationForbidden
    | SchemaUnsupported
    | IdentityMismatch
    | DirectoryMismatch
    | ReceiptIdMismatch
    | CountMismatch
    | DirectoryUnsafe
    | RequirementInvalid(ordinal: nat)
    | ArtifactMissing(ordinal: nat)
    | ArtifactDuplicate(ordinal: nat)
    | RequirementMismatch(ordinal: nat)
    | UnsafePath(ordinal: nat)
    | VerificationFailed(ordinal: nat)
    | InodeChanged(ordinal: nat)
    | SizeChanged(ordinal: nat)
    | ContentChanged(ordinal: nat)

  function ExpectedReceiptId(m: BackupManifest, r: Receipt): ReceiptId {
    ReceiptId(m.manifestId, m.handoffId, m.planId, m.targetDigest, r.sessionId, r.journalId, r.artifacts)
  }

  function EntriesIn(artifacts: seq<ArtifactReceipt>, ordinal: nat): seq<ArtifactReceipt> {
    Filter(artifacts, (a: ArtifactReceipt) => a.ordinal == ordinal)
  }

  function EntriesOf(receipt: Receipt, ordinal: nat): seq<ArtifactReceipt> {
    EntriesIn(receipt.artifacts, ordinal)
  }

  function FileBlockers(a: ArtifactReceipt, found: Result<Seen, CaptureError>): set<Blocker> {
    match found
    case Err(_) => {VerificationFailed(a.ordinal)}
    case Ok(seen) =>
      (if seen.device != a.seen.device || seen.inode != a.seen.inode then {InodeChanged(a.ordinal)} else {})
      + (if seen.sizeBytes != a.seen.sizeBytes then {SizeChanged(a.ordinal)} else {})
      + (if seen.sha256 != a.seen.sha256 then {ContentChanged(a.ordinal)} else {})
  }

  /** One turn of the loop over requirements. */
  function ArtifactBlockers(r: Requirement, receipt: Receipt, files: Files): set<Blocker> {
    if !ValidRequirement(r) then {RequirementInvalid(r.ordinal)}
    else
      var entries := EntriesOf(receipt, r.ordinal);
      if |entries| == 0 then {ArtifactMissing(r.ordinal)}
      else if |entries| > 1 then {ArtifactDuplicate(r.ordinal)}
      else if entries[0].kind != r.kind || entries[0].artifactPath != r.artifactPath
              || entries[0].expected != r.expected then {RequirementMismatch(r.ordinal)}
      else if FileName(r.artifactPath).None? then {UnsafePath(r.ordinal)}
      else FileBlockers(entries[0], Examine(files, r.artifactPath))
  }

  /** Exactly one entry has the requirement's ordinal; it describes the requirement and the
      file as it is. */
  predicate ArtifactMatches(r: Requirement, receipt: Receipt, files: Files) {
    var entries := EntriesOf(receipt, r.ordinal);
    |entries| == 1 && EntryCaptured(r, entries[0], files)
  }

  predicate ArtifactsMatch(requirements: seq<Requirement>, receipt: Receipt, files: Files) {
    forall i :: 0 <= i < |requirements| ==> ArtifactMatches(requirements[i], receipt, files)
  }

  predicate Matches(m: BackupManifest, receipt: Receipt, layout: Layout, secure: bool, files: Files) {
    && !m.mutationEnabled && !receipt.mutationEnabled
    && receipt.schemaVersion == 2 && receipt.receiptId == ExpectedReceiptId(m, receipt)
    && receipt.manifestId == m.manifestId && receipt.handoffId == m.handoffId && receipt.planId == m.planId
    && receipt.targetDigest == m.targetDigest
    && layout.Fits(m, receipt.journalId) && secure
    && |receipt.artifacts| == |m.requirements|
    && ArtifactsMatch(m.requirements, receipt, files)
  }

  lemma BlockersExact(r: Requirement, receipt: Receipt, files: Files)
    ensures ArtifactBlockers(r, receipt, files) == {} <==> ArtifactMatches(r, receipt, files)
  {
    var entries := EntriesOf(receipt, r.ordinal);
    if ValidRequirement(r) && |entries| == 1 {
      assert entries[0] in entries;
      NoFileBlockers(entries[0], Examine(files, r.artifactPath));
    }
  }

  lemma NoFileBlockers(a: ArtifactReceipt, found: Result<Seen, CaptureError>)
    ensures FileBlockers(a, found) == {} <==> found == Ok(a.seen)
  {
    if found.Ok? {
      var all := FileBlockers(a, found);
      var seen := found.value;
      assert seen.device != a.seen.device || seen.inode != a.seen.inode ==> InodeChanged(a.ordinal) in all;
      assert seen.sizeBytes != a.seen.sizeBytes ==> SizeChanged(a.ordinal) in all;
      assert seen.sha256 != a.seen.sha256 ==> ContentChanged(a.ordinal) in all;
    } else {
      assert VerificationFailed(a.ordinal) in FileBlockers(a, found);
    }
  }

  lemma MatchNext(requirements: seq<Requirement>, i: nat, receipt: Receipt, files: Files)
    requires i < |requirements|
    ensures ArtifactsMatch(requirements[..i + 1], receipt, files) <==>
            ArtifactsMatch(requirements[..i], receipt, files)
            && ArtifactBlockers(requirements[i], receipt, files) == {}
  {
    BlockersExact(requirements[i], receipt, files);
    var longer := requirements[..i + 1];
    assert longer == requirements[..i] + [requirements[i]];
  }

  // ----- what a match means -----

  /** Entries that may carry an ordinal from 1 to n, one per number, are exactly one each. */
  predicate OnePerOrdinal(receipt: Receipt, n: nat) {
    forall o :: 1 <= o <= n ==> |EntriesOf(receipt, o)| == 1
  }

  function Ordinals(artifacts: seq<ArtifactReceipt>): multiset<nat> {
    if artifacts == [] then multiset{}
    else Ordinals(artifacts[..|artifacts| - 1]) + multiset{artifacts[|artifacts| - 1].ordinal}
  }

  lemma {:induction false} OrdinalCount(artifacts: seq<ArtifactReceipt>, o: nat)
    ensures Ordinals(artifacts)[o] == |EntriesIn(artifacts, o)|
    ensures |Ordinals(artifacts)| == |artifacts|
  {
    if artifacts != [] {
      OrdinalCount(artifacts[..|artifacts| - 1], o);
    }
  }

  /** The numbers 1 to n, each once. */
  function Upto(n: nat): (r: multiset<nat>)
    ensures |r| == n && forall o :: r[o] == if 1 <= o <= n then 1 else 0
  {
    if n == 0 then multiset{} else Upto(n - 1) + multiset{n}
  }

  /** Pigeonhole: n entries of which every number from 1 to n names exactly one are the
      numbers 1 to n, with none left over. */
  lemma Pigeonhole(receipt: Receipt, n: nat)
    requires |receipt.artifacts| == n && OnePerOrdinal(receipt, n)
    ensures Ordinals(receipt.artifacts) == Upto(n)
  {
    var ordinals, numbers := Ordinals(receipt.artifacts), Upto(n);
    OrdinalCount(receipt.artifacts, 0);
    forall o ensures 1 <= o <= n ==> ordinals[o] == 1 {
      if 1 <= o <= n {
        OrdinalCount(receipt.artifacts, o);
        assert |EntriesOf(receipt, o)| == 1;
      }
    }
    assert numbers <= ordinals;
    var extra := ordinals - numbers;
    assert ordinals == numbers + extra && |extra| == 0;
  }

  /** When the ordinals are 1 to n, every entry has one of these numbers for itself. */
  lemma EntryAlone(artifacts: seq<ArtifactReceipt>, n: nat, a: ArtifactReceipt)
    requires a in artifacts && Ordinals(artifacts) == Upto(n)
    ensures 1 <= a.ordinal <= n && EntriesIn(artifacts, a.ordinal) == [a]
  {
    var entries, numbers := EntriesIn(artifacts, a.ordinal), Upto(n);
    OrdinalCount(artifacts, a.ordinal);
    assert a in entries;
    assert |entries| == numbers[a.ordinal] <= 1;
  }

  lemma EntryKnown(r: Requirement, receipt: Receipt, files: Files, a: ArtifactReceipt)
    requires EntriesIn(receipt.artifacts, a.ordinal) == [a] && r.ordinal == a.ordinal
    requires ArtifactMatches(r, receipt, files)
    ensures EntryCaptured(r, a, files)
  {
  }

  /** A matching receipt is a bijection: its entries are the requirements, one each and none
      extra, and every entry describes the file that is there. */
  lemma MatchIsBijection(m: BackupManifest, receipt: Receipt, layout: Layout, secure: bool, files: Files)
    requires Numbered(m) && Matches(m, receipt, layout, secure, files)
    ensures Ordinals(receipt.artifacts) == Upto(|m.requirements|)
    ensures forall a :: a in receipt.artifacts ==>
              && 1 <= a.ordinal <= |m.requirements|
              && EntryCaptured(m.requirements[a.ordinal - 1], a, files)
  {
    var n := |m.requirements|;
    forall o | 1 <= o <= n ensures |EntriesOf(receipt, o)| == 1 {
      assert ArtifactMatches(m.requirements[o - 1], receipt, files);
    }
    Pigeonhole(receipt, n);
    forall a | a in receipt.artifacts
      ensures 1 <= a.ordinal <= n && EntryCaptured(m.requirements[a.ordinal - 1], a, files)
    {
      EntryAlone(receipt.artifacts, n, a);
      assert ArtifactMatches(m.requirements[a.ordinal - 1], receipt, files);
      EntryKnown(m.requirements[a.ordinal - 1], receipt, files, a);
    }
  }

  /** A receipt pins the files: two directories it matches agree on the device, inode and
      contents of every required artifact. */
  lemma MatchPinsFiles(m: BackupManifest, receipt: Receipt, layout: Layout, before: Files, after: Files, i: nat)
    requires Matches(m, receipt, layout, true, before) && Matches(m, receipt, layout, true, after)
    requires i < |m.requirements|
    ensures FileName(m.requirements[i].artifactPath).Some?
    ensures var name := FileName(m.requirements[i].artifactPath).value;
            && name in before && name in after
            && before[name].bytes == after[name].bytes && before[name].device == after[name].device
            && before[name].inode == after[name].inode
  {
    var r := m.requirements[i];
    assert ArtifactMatches(r, receipt, before) && ArtifactMatches(r, receipt, after);
    var a := EntriesOf(receipt, r.ordinal)[0];
    assert EntryCaptured(r, a, before) && EntryCaptured(r, a, after);
  }

  /** With the ordinals of a built manifest, looking an entry up by ordinal finds it alone. */
  lemma {:induction false} EntryFound(artifacts: seq<ArtifactReceipt>, o: nat)
    requires forall i :: 0 <= i < |artifacts| ==> artifacts[i].ordinal == i + 1
    ensures EntriesIn(artifacts, o) == if 1 <= o <= |artifacts| then [artifacts[o - 1]] else []
  {
    if artifacts != [] {
      EntryFound(artifacts[..|artifacts| - 1], o);
    }
  }

  /** The file of this requirement is what it was. */
  ghost predicate FileKept(r: Requirement, before: Files, after: Files) {
    forall name :: FileName(r.artifactPath) == Some(name) && name in before ==>
      name in after && after[name] == before[name]
  }

  lemma EntryStays(r: Requirement, a: ArtifactReceipt, before: Files, after: Files)
    requires EntryCaptured(r, a, before) && FileKept(r, before, after)
    ensures EntryCaptured(r, a, after) && a.ordinal == r.ordinal
  {
  }

  lemma FreshEntryMatches(r: Requirement, receipt: Receipt, captured: Files, files: Files, i: nat)
    requires i < |receipt.artifacts| && r.ordinal == i + 1
    requires EntryCaptured(r, receipt.artifacts[i], captured) && FileKept(r, captured, files)
    requires forall k :: 0 <= k < |receipt.artifacts| ==> receipt.artifacts[k].ordinal == k + 1
    ensures ArtifactMatches(r, receipt, files)
  {
    EntryFound(receipt.artifacts, i + 1);
    EntryStays(r, receipt.artifacts[i], captured, files);
  }

  lemma CapturedOrdinals(m: BackupManifest, artifacts: seq<ArtifactReceipt>, files: Files)
    requires Numbered(m) && Captured(m.requirements, artifacts, files)
    ensures forall k :: 0 <= k < |artifacts| ==> artifacts[k].ordinal == k + 1
  {
    forall k | 0 <= k < |artifacts| ensures artifacts[k].ordinal == k + 1 {
      assert EntryCaptured(m.requirements[k], artifacts[k], files);
    }
  }

  /** Right after a capture, as long as the captured files are what they were, the receipt
      always matches. */
  lemma FreshReceiptMatches(m: BackupManifest, receipt: Receipt, s: CaptureSession, captured: Files, files: Files)
    requires Numbered(m) && s.Bound(m) && IsReceiptOf(receipt, m, s, captured)
    requires forall i :: 0 <= i < |m.requirements| ==> FileKept(m.requirements[i], captured, files)
    ensures Matches(m, receipt, s.layout, true, files)
  {
    CapturedOrdinals(m, receipt.artifacts, captured);
    forall i | 0 <= i < |m.requirements| ensures ArtifactMatches(m.requirements[i], receipt, files) {
      assert EntryCaptured(m.requirements[i], receipt.artifacts[i], captured);
      FreshEntryMatches(m.requirements[i], receipt, captured, files, i);
    }
  }

  /** A receipt that matches one manifest matches no manifest with other requirements. */
  lemma OneManifest(a: BackupManifest, b: BackupManifest, receipt: Receipt, layout: Layout, files: Files)
    requires Fingerprinted(a) && Fingerprinted(b)
    requires Matches(a, receipt, layout, true, files) && Matches(b, receipt, layout, true, files)
    ensures a == b
  {
  }
}
