/** The manifest of metadata backups a plan requires
    (crates/executor/src/backup_manifest.rs). */
module BackupManifests {
  import opened Wrappers
  import opened Decimals
  import opened Operations
  import opened Journals
  import opened TargetIdentity

  datatype Kind = PartitionTable | LvmVolumeGroup

  datatype ExpectedIdentity =
    | TableIdentity(disk: string, tableLabel: string, tableId: Option<string>)
    | GroupIdentity(vgName: string, vgUuid: string)

  datatype Tool = Sfdisk | Vgcfgbackup | Vgcfgrestore

  datatype Argument = DumpFlag | FileFlag | Operand(text: string)

  datatype CommandSpec = CommandSpec(
    tool: Tool, args: seq<Argument>, stdinPath: Option<string>, stdoutPath: Option<string>, mutates: bool)

  datatype Requirement = Requirement(
    ordinal: nat, kind: Kind, artifactPath: string, expected: ExpectedIdentity,
    capture: CommandSpec, recovery: CommandSpec)

  /** Fingerprints are injective: an ID is the data it was computed from. */
  datatype ManifestId = ManifestId(
    handoffId: Digest, planId: Digest, targetDigest: Digest, directory: string,
    mutationEnabled: bool, ownerAcceptanceRequired: bool, requirements: seq<Requirement>)

  datatype BackupManifest = BackupManifest(
    manifestId: ManifestId, handoffId: Digest, planId: Digest, targetDigest: Digest,
    artifactDirectory: string, mutationEnabled: bool, ownerAcceptanceRequired: bool,
    requirements: seq<Requirement>)

  datatype BackupError =
    | HandoffBlocked
    | MutationEnabled
    | OwnerAcceptanceBypassed
    | InvalidIdentity
    | PartitionIdentityMissing
    | PartitionIdentityAmbiguous
    | VolumeGroupIdentityMissing
    | VolumeGroupIdentityAmbiguous

  // ----- artifact names -----

  /** `{ordinal:02}`. */
  function TwoDigits(n: nat): string {
    if n < 10 then "0" + Decimal(n) else Decimal(n)
  }

  function Suffix(kind: Kind): string {
    match kind
    case PartitionTable => "partition-table.sfdisk"
    case LvmVolumeGroup => "lvm-vg.conf"
  }

  function ArtifactName(ordinal: nat, suffix: string): string {
    TwoDigits(ordinal) + "-" + suffix
  }

  function ArtifactPath(directory: string, ordinal: nat, suffix: string): string {
    directory + "/" + ArtifactName(ordinal, suffix)
  }

  lemma TwoDigitsValue(n: nat)
    ensures AllDigits(TwoDigits(n)) && |TwoDigits(n)| > 0 && DecimalValue(TwoDigits(n)) == n
  {
    if n < 10 {
      var text := TwoDigits(n);
      assert text[..1] == "0" && "0"[..0] == "";
      assert DecimalValue("0") == 0;
    }
  }

  /** The digits before the first hyphen. */
  lemma SplitAtHyphen(a: string, s: string, b: string, t: string)
    requires AllDigits(a) && AllDigits(b) && a + "-" + s == b + "-" + t
    ensures a == b && s == t
  {
    var text := a + "-" + s;
    assert text[|a|] == '-' && text[|b|] == '-';
    assert forall i :: 0 <= i < |a| ==> text[i] == a[i];
    assert forall i :: 0 <= i < |b| ==> text[i] == b[i];
    assert |a| == |b|;
    assert a == text[..|a|] == b;
    assert s == text[|a| + 1..] == t;
  }

  /** Artifacts with different ordinals never share a path, whatever they hold. */
  lemma PathsDistinct(directory: string, m: nat, s: string, n: nat, t: string)
    requires ArtifactPath(directory, m, s) == ArtifactPath(directory, n, t)
    ensures m == n && s == t
  {
    TwoDigitsValue(m);
    TwoDigitsValue(n);
    var k := |directory| + 1;
    assert ArtifactPath(directory, m, s)[k..] == ArtifactName(m, s);
    assert ArtifactPath(directory, n, t)[k..] == ArtifactName(n, t);
    SplitAtHyphen(TwoDigits(m), s, TwoDigits(n), t);
  }

  // ----- requirements -----

  predicate PartitionMatches(p: Partition, op: Operation)
    requires op.BackupPartitionTable?
  {
    p.disk == Some(op.disk) && p.tableLabel == Some(op.tableLabel) && p.tableId == op.tableId
  }

  function TableRequirement(identity: Identity, op: Operation, directory: string, ordinal: nat)
    : Result<Requirement, BackupError>
    requires op.BackupPartitionTable?
  {
    if !PlainText(op.disk) || !PlainText(op.tableLabel) || (op.tableId.Some? && !PlainText(op.tableId.value)) then
      Err(InvalidIdentity)
    else
      var matches := Filter(identity.partitions, (p: Partition) => PartitionMatches(p, op));
      if |matches| == 0 then Err(PartitionIdentityMissing)
      else if |matches| > 1 then Err(PartitionIdentityAmbiguous)
      else
        var path := ArtifactPath(directory, ordinal, Suffix(PartitionTable));
        var frozenLabel := if matches[0].tableLabel.Some? then matches[0].tableLabel.value else "";
        Ok(Requirement(
             ordinal, PartitionTable, path, TableIdentity(op.disk, frozenLabel, matches[0].tableId),
             CommandSpec(Sfdisk, [DumpFlag, Operand(op.disk)], None, Some(path), false),
             CommandSpec(Sfdisk, [Operand(op.disk)], Some(path), None, true)))
  }

  function GroupRequirement(identity: Identity, vgUuid: string, directory: string, ordinal: nat)
    : Result<Requirement, BackupError>
  {
    if !PlainText(vgUuid) then Err(InvalidIdentity)
    else
      var matches := Filter(identity.lvm, (e: LvmEntry) => e.kind.VolumeGroup? && e.uuid == Some(vgUuid));
      if |matches| == 0 then Err(VolumeGroupIdentityMissing)
      else if |matches| > 1 then Err(VolumeGroupIdentityAmbiguous)
      else if !PlainText(matches[0].name) then Err(InvalidIdentity)
      else
        var path := ArtifactPath(directory, ordinal, Suffix(LvmVolumeGroup));
        var args := [FileFlag, Operand(path), Operand(matches[0].name)];
        Ok(Requirement(
             ordinal, LvmVolumeGroup, path, GroupIdentity(matches[0].name, vgUuid),
             CommandSpec(Vgcfgbackup, args, None, None, false),
             CommandSpec(Vgcfgrestore, args, None, None, true)))
  }

  predicate IsBackup(op: Operation) {
    op.BackupPartitionTable? || op.BackupLvmMetadata?
  }

  /** `requirement_for_operation` on an operation that asks for a backup. */
  function RequirementFor(identity: Identity, op: Operation, directory: string, ordinal: nat)
    : Result<Requirement, BackupError>
    requires IsBackup(op)
  {
    match op
    case BackupPartitionTable(_, _, _) => TableRequirement(identity, op, directory, ordinal)
    case BackupLvmMetadata(vgUuid) => GroupRequirement(identity, vgUuid, directory, ordinal)
  }

  /** `validate_requirement` of the capture side: exactly the read-only command that fits
      the kind, the identity and the path. */
  predicate ValidRequirement(r: Requirement) {
    && !r.capture.mutates && r.capture.stdinPath.None?
    && ((r.kind.PartitionTable? && r.expected.TableIdentity?
         && r.capture.tool.Sfdisk? && r.capture.args == [DumpFlag, Operand(r.expected.disk)]
         && r.capture.stdoutPath == Some(r.artifactPath))
        || (r.kind.LvmVolumeGroup? && r.expected.GroupIdentity?
            && r.capture.tool.Vgcfgbackup?
            && r.capture.args == [FileFlag, Operand(r.artifactPath), Operand(r.expected.vgName)]
            && r.capture.stdoutPath.None?))
  }

  /** What the builder produces is what the capture accepts, under the name of its ordinal. */
  lemma RequirementFacts(identity: Identity, op: Operation, directory: string, ordinal: nat)
    requires IsBackup(op) && RequirementFor(identity, op, directory, ordinal).Ok?
    ensures var r := RequirementFor(identity, op, directory, ordinal).value;
            && ValidRequirement(r) && r.ordinal == ordinal
            && r.artifactPath == ArtifactPath(directory, ordinal, Suffix(r.kind))
  {
  }

  /** The file a capture command writes. */
  function Output(c: CommandSpec): Option<string> {
    match c.tool
    case Sfdisk => c.stdoutPath
    case Vgcfgbackup => if |c.args| == 3 && c.args[1].Operand? then Some(c.args[1].text) else None
    case Vgcfgrestore => None
  }

  /** The file a recovery command reads. */
  function Input(c: CommandSpec): Option<string> {
    match c.tool
    case Sfdisk => c.stdinPath
    case Vgcfgbackup => None
    case Vgcfgrestore => if |c.args| == 3 && c.args[1].Operand? then Some(c.args[1].text) else None
  }

  /** The object a command is about: its last operand. */
  function Subject(c: CommandSpec): Option<string> {
    if |c.args| > 0 && c.args[|c.args| - 1].Operand? then Some(c.args[|c.args| - 1].text) else None
  }

  /** The recovery command of a requirement reads exactly the file its capture command wrote,
      for the same object, which is the frozen identity's; only the recovery changes storage
      metadata. */
  lemma RecoveryUndoesCapture(identity: Identity, op: Operation, directory: string, ordinal: nat)
    requires IsBackup(op) && RequirementFor(identity, op, directory, ordinal).Ok?
    ensures var r := RequirementFor(identity, op, directory, ordinal).value;
            && Output(r.capture) == Some(r.artifactPath) == Input(r.recovery)
            && Subject(r.capture) == Subject(r.recovery)
            && Subject(r.capture)
               == Some(if r.expected.TableIdentity? then r.expected.disk else r.expected.vgName)
            && !r.capture.mutates && r.recovery.mutates
    ensures var r := RequirementFor(identity, op, directory, ordinal).value;
            match op
            case BackupPartitionTable(disk, _, _) =>
              exists p :: p in identity.partitions && p.disk == Some(disk) && PartitionMatches(p, op)
                          && r.expected == TableIdentity(disk, op.tableLabel, p.tableId)
            case BackupLvmMetadata(vgUuid) =>
              exists e :: e in identity.lvm && e.kind.VolumeGroup? && e.uuid == Some(vgUuid)
                          && r.expected == GroupIdentity(e.name, vgUuid)
            case _ => false
  {
    match op
    case BackupPartitionTable(_, _, _) =>
      var matches := Filter(identity.partitions, (p: Partition) => PartitionMatches(p, op));
      assert matches[0] in matches;
    case BackupLvmMetadata(vgUuid) =>
      var matches := Filter(identity.lvm, (e: LvmEntry) => e.kind.VolumeGroup? && e.uuid == Some(vgUuid));
      assert matches[0] in matches;
  }

  // ----- the builder -----

  datatype Key = TableKey(disk: string) | GroupKey(vgUuid: string)

  function KeyOf(op: Operation): Option<Key> {
    match op
    case BackupPartitionTable(disk, _, _) => Some(TableKey(disk))
    case BackupLvmMetadata(vgUuid) => Some(GroupKey(vgUuid))
    case _ => None
  }

  /** Keys of the steps so far. */
  function KeysOf(steps: seq<PlanStep>): set<Key> {
    set s | s in steps && KeyOf(s.operation).Some? :: KeyOf(s.operation).value
  }

  /** The first step of every key, in plan order. */
  function FirstOfKey(steps: seq<PlanStep>): seq<PlanStep> {
    if steps == [] then []
    else
      var prefix, last := steps[..|steps| - 1], steps[|steps| - 1];
      var key := KeyOf(last.operation);
      FirstOfKey(prefix) + (if key.Some? && key.value !in KeysOf(prefix) then [last] else [])
  }

  /** One requirement per selected step, numbered from 1. */
  predicate RequiredFrom(requirements: seq<Requirement>, firsts: seq<PlanStep>, identity: Identity, directory: string) {
    && |requirements| == |firsts|
    && forall i :: 0 <= i < |firsts| ==>
         IsBackup(firsts[i].operation)
         && RequirementFor(identity, firsts[i].operation, directory, i + 1) == Ok(requirements[i])
  }

  predicate RequirementsExist(firsts: seq<PlanStep>, identity: Identity, directory: string) {
    forall i :: 0 <= i < |firsts| ==>
      IsBackup(firsts[i].operation) && RequirementFor(identity, firsts[i].operation, directory, i + 1).Ok?
  }

  lemma FirstNext(steps: seq<PlanStep>, i: nat)
    requires i < |steps|
    ensures var key := KeyOf(steps[i].operation);
            && KeysOf(steps[..i + 1]) == KeysOf(steps[..i]) + (if key.Some? then {key.value} else {})
            && FirstOfKey(steps[..i + 1])
               == FirstOfKey(steps[..i]) + (if key.Some? && key.value !in KeysOf(steps[..i]) then [steps[i]] else [])
  {
    var longer := steps[..i + 1];
    assert longer[..i] == steps[..i] && longer == steps[..i] + [steps[i]];
  }

  lemma {:induction false} FirstPrefix(steps: seq<PlanStep>, i: nat)
    requires i <= |steps|
    ensures FirstOfKey(steps[..i]) <= FirstOfKey(steps)
    decreases |steps| - i
  {
    if i < |steps| {
      FirstNext(steps, i);
      FirstPrefix(steps, i + 1);
    } else {
      assert steps[..i] == steps;
    }
  }

  lemma RequiredPush(requirements: seq<Requirement>, firsts: seq<PlanStep>, step: PlanStep, r: Requirement,
                     identity: Identity, directory: string)
    requires RequiredFrom(requirements, firsts, identity, directory) && IsBackup(step.operation)
    requires RequirementFor(identity, step.operation, directory, |requirements| + 1) == Ok(r)
    ensures RequiredFrom(requirements + [r], firsts + [step], identity, directory)
  {
  }

  lemma RequirementRefused(firsts: seq<PlanStep>, step: PlanStep, all: seq<PlanStep>, identity: Identity,
                           directory: string)
    requires firsts + [step] <= all && IsBackup(step.operation)
    requires RequirementFor(identity, step.operation, directory, |firsts| + 1).Err?
    ensures !RequirementsExist(all, identity, directory)
  {
    assert all[|firsts|] == (firsts + [step])[|firsts|];
  }

  /** The loop of the builder: the first step of every key becomes a requirement. */
  method BuildRequirements(steps: seq<PlanStep>, identity: Identity, directory: string)
    returns (r: Result<seq<Requirement>, BackupError>)
    ensures r.Ok? <==> RequirementsExist(FirstOfKey(steps), identity, directory)
    ensures r.Ok? ==> RequiredFrom(r.value, FirstOfKey(steps), identity, directory)
  {
    var requirements: seq<Requirement> := [];
    var seen: set<Key> := {};
    var i := 0;
    while i < |steps|
      invariant 0 <= i <= |steps|
      invariant seen == KeysOf(steps[..i])
      invariant RequiredFrom(requirements, FirstOfKey(steps[..i]), identity, directory)
    {
      FirstNext(steps, i);
      var op := steps[i].operation;
      var key := KeyOf(op);
      if key.Some? && key.value !in seen {
        ghost var firsts := FirstOfKey(steps[..i]);
        seen := seen + {key.value};
        var requirement := RequirementFor(identity, op, directory, |requirements| + 1);
        if requirement.Err? {
          FirstPrefix(steps, i + 1);
          RequirementRefused(firsts, steps[i], FirstOfKey(steps), identity, directory);
          return Err(requirement.error);
        }
        RequiredPush(requirements, firsts, steps[i], requirement.value, identity, directory);
        requirements := requirements + [requirement.value];
      }
      i := i + 1;
    }
    assert steps[..i] == steps;
    return Ok(requirements);
  }

  /** Identity of a frozen handoff, as far as a backup looks at it. */
  datatype BackupHandoff = BackupHandoff(
    blocked: bool, mutationEnabled: bool, ownerAcceptanceRequired: bool,
    handoffId: Digest, planId: Digest, steps: seq<PlanStep>, identity: Identity)
  {
    predicate Usable() {
      && !blocked && !mutationEnabled && ownerAcceptanceRequired
      && IsHexDigest(handoffId) && IsHexDigest(planId) && IsHexDigest(identity.manifestDigest)
    }
  }

  /** `build_metadata_backup_manifest_at`. */
  method BuildManifest(h: BackupHandoff, directory: string) returns (r: Result<BackupManifest, BackupError>)
    ensures r.Ok? <==> h.Usable() && RequirementsExist(FirstOfKey(h.steps), h.identity, directory)
    ensures r.Ok? ==> IsManifestOf(r.value, h, directory)
  {
    if h.blocked { return Err(HandoffBlocked); }
    if h.mutationEnabled { return Err(MutationEnabled); }
    if !h.ownerAcceptanceRequired { return Err(OwnerAcceptanceBypassed); }
    if !IsHexDigest(h.handoffId) || !IsHexDigest(h.planId) || !IsHexDigest(h.identity.manifestDigest) {
      return Err(InvalidIdentity);
    }
    var requirements := BuildRequirements(h.steps, h.identity, directory);
    if requirements.Err? { return Err(requirements.error); }
    var id := ManifestId(h.handoffId, h.planId, h.identity.manifestDigest, directory, false, true, requirements.value);
    return Ok(BackupManifest(id, h.handoffId, h.planId, h.identity.manifestDigest, directory, false, true,
                             requirements.value));
  }

  predicate IsManifestOf(m: BackupManifest, h: BackupHandoff, directory: string) {
    && Fingerprinted(m) && m.artifactDirectory == directory && !m.mutationEnabled && m.ownerAcceptanceRequired
    && m.handoffId == h.handoffId && m.planId == h.planId && m.targetDigest == h.identity.manifestDigest
    && RequiredFrom(m.requirements, FirstOfKey(h.steps), h.identity, directory)
  }

  /** The manifest carries the ID of its own contents. */
  predicate Fingerprinted(m: BackupManifest) {
    m.manifestId == ManifestId(m.handoffId, m.planId, m.targetDigest, m.artifactDirectory,
                               m.mutationEnabled, m.ownerAcceptanceRequired, m.requirements)
  }

  // ----- what a built manifest guarantees -----

  /** The requirement with this number: valid, and named by it. */
  predicate NumberedAt(r: Requirement, directory: string, ordinal: nat) {
    && r.ordinal == ordinal && ValidRequirement(r)
    && r.artifactPath == ArtifactPath(directory, ordinal, Suffix(r.kind))
  }

  /** Ordinals are exactly 1 to n. */
  predicate Numbered(m: BackupManifest) {
    forall i :: 0 <= i < |m.requirements| ==> NumberedAt(m.requirements[i], m.artifactDirectory, i + 1)
  }

  /** A built manifest is numbered, and no two of its artifacts share a path. */
  lemma BuiltIsNumbered(m: BackupManifest, h: BackupHandoff, directory: string)
    requires IsManifestOf(m, h, directory)
    ensures Numbered(m)
    ensures forall i, j :: 0 <= i < j < |m.requirements| ==>
              m.requirements[i].artifactPath != m.requirements[j].artifactPath
  {
    var firsts := FirstOfKey(h.steps);
    forall i | 0 <= i < |m.requirements| ensures NumberedAt(m.requirements[i], directory, i + 1) {
      RequirementFacts(h.identity, firsts[i].operation, directory, i + 1);
    }
    forall i, j | 0 <= i < j < |m.requirements|
      ensures m.requirements[i].artifactPath != m.requirements[j].artifactPath
    {
      NumberedPathsDiffer(m.requirements[i], m.requirements[j], directory, i + 1, j + 1);
    }
  }

  lemma NumberedPathsDiffer(r: Requirement, q: Requirement, directory: string, i: nat, j: nat)
    requires NumberedAt(r, directory, i) && NumberedAt(q, directory, j) && i != j
    ensures r.artifactPath != q.artifactPath
  {
    if r.artifactPath == q.artifactPath {
      PathsDistinct(directory, i, Suffix(r.kind), j, Suffix(q.kind));
    }
  }

  /** Every disk and volume group a plan wants backed up is selected, and only once. */
  lemma {:induction false} FirstOfKeyComplete(steps: seq<PlanStep>)
    ensures forall s :: s in FirstOfKey(steps) ==> s in steps && KeyOf(s.operation).Some?
    ensures KeysOf(FirstOfKey(steps)) == KeysOf(steps)
    ensures forall i, j :: 0 <= i < j < |FirstOfKey(steps)| ==>
              KeyOf(FirstOfKey(steps)[i].operation) != KeyOf(FirstOfKey(steps)[j].operation)
  {
    if steps != [] {
      var n := |steps| - 1;
      FirstOfKeyComplete(steps[..n]);
      FirstNext(steps, n);
      assert steps[..n + 1] == steps;
      var before, after := FirstOfKey(steps[..n]), FirstOfKey(steps);
      assert forall s :: s in after ==> s in before || s == steps[n];
      forall i, j | 0 <= i < j < |after| ensures KeyOf(after[i].operation) != KeyOf(after[j].operation) {
        if j == |before| {
          assert before[i] in before && KeyOf(before[i].operation).value in KeysOf(before);
        }
      }
      assert KeysOf(after) == KeysOf(steps) by {
        forall key
          ensures key in KeysOf(after) <==>
                  key in KeysOf(before) || (|after| > |before| && KeyOf(steps[n].operation) == Some(key))
        {
          if key in KeysOf(before) {
            var s :| s in before && KeyOf(s.operation) == Some(key);
            assert s in after;
          }
        }
      }
    }
  }
}
