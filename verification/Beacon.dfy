/** What a beacon node tells of a validator (e2e/internal/beacon/types.go). */
module Beacon {
  import opened MachineInts

  /** In shor; negative for a penalty. */
  datatype AttestationReward = AttestationReward(head: int64, target: int64, source: int64)
}
