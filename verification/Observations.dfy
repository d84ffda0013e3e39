/** Observations: immutable facts reported by probes. */
module Observations {
  import opened Common
  import opened Rfc3339

  datatype Status = Ok | Degraded | Failed | Timeout | Stuck | Unsupported | NotApplicable {
    /** Evidence that the measured thing is broken. */
    predicate IsBad() {
      Failed? || Timeout? || Stuck?
    }

    /** Carries any signal about health at all. */
    predicate IsConclusive() {
      !Unsupported? && !NotApplicable?
    }
  }

  /** The text of an observation's UUID. */
  type ObservationId = string

  /** `size` is the length of the serialized observation. */
  datatype Observation = Observation(
    id: ObservationId,
    probe: string,
    target: EntityId,
    observer: Option<EntityId>,
    finishedAt: Timestamp,
    status: Status,
    size: nat
  )

  const PROBE_BOOT := "host.boot"
}
