/** Steps of a plan, as values (crates/executor/src/native_operation.rs lines 1-60,
    crates/executor/src/execution_intent.rs lines 20-100).

    The plan operation, the frozen action and the native operation are three enumerations
    with the same variants and fields, copied field by field; one datatype stands for all. */
module Operations {
  import opened Wrappers

  const U64_LIMIT: nat := 0x1_0000_0000_0000_0000

  /** The machine integers of sizes and sectors. */
  type U64 = n: nat | n < U64_LIMIT

  datatype Operation =
    | RevalidateSnapshot
    | BackupLvmMetadata(vgUuid: string)
    | BackupPartitionTable(disk: string, tableLabel: string, tableId: Option<string>)
    | ExtendPartition(
        partition: string, startSector: U64, oldSizeSectors: U64, newSizeSectors: U64, sectorSizeBytes: U64)
    | ResizePhysicalVolume(pvUuid: string, expectedPvSizeBytes: U64)
    | ExtendLogicalVolume(lvUuid: string, additionalExtents: U64, expectedLvSizeBytes: U64)
    | GrowFilesystem(fsType: string, mountpoint: Option<string>)
    | RediscoverAndVerify

  datatype Reversibility = NotApplicable | Reversible | Irreversible

  datatype PlanStep = PlanStep(
    id: nat, dependsOn: seq<nat>, operation: Operation, reversibility: Reversibility)

  datatype Role = PreExecutionEvidence | MutationCandidate | Verification

  datatype IntentStep = IntentStep(
    planStepId: nat, dependsOn: seq<nat>, reversibility: Reversibility, role: Role, operation: Operation)

  datatype Barrier = Barrier(
    afterPlanStepId: nat,
    beforeNextMutation: bool,
    requireFreshTargetIdentity: bool,
    requireFreshCapabilities: bool,
    requireExpectedStateCheck: bool,
    stopOnMismatch: bool)
}
