/** The attested COS state message that the replay builds. Protobuf plumbing
    (pointers, accessors, nil versus empty slices) is not modelled: a string
    field is its byte sequence, with the empty sequence as the unset value. */
module Attest {
  import opened Results
  import opened Cel

  /** A protobuf `int32`; `RestartPolicy` enum values are stored as one, with
      zero as the default. */
  newtype int32 = x: int | -0x8000_0000 <= x < 0x8000_0000

  datatype ContainerState = ContainerState(
    imageReference: Bytes,
    imageDigest: Bytes,
    restartPolicy: int32,
    imageId: Bytes,
    args: seq<Bytes>,
    envVars: map<Bytes, Bytes>,
    overriddenArgs: seq<Bytes>,
    overriddenEnvVars: map<Bytes, Bytes>)

  /** `memoryEnabled` is an optional boolean: `None` until a memory monitoring
      event has been seen. */
  datatype HealthMonitoringState = HealthMonitoringState(memoryEnabled: Option<bool>)

  datatype AttestedCosState = AttestedCosState(
    container: ContainerState,
    healthMonitoring: HealthMonitoringState)

  /** The state the replay starts from: every field at its zero value. */
  const EmptyCosState := AttestedCosState(
    ContainerState([], [], 0, [], [], map[], [], map[]),
    HealthMonitoringState(None))
}
