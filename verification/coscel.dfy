/** The COS-specific view of a canonical event log record, and the external
    collaborators the replay calls. The collaborators (the TLV decoder, the
    digest verifier, the environment-variable parser, the restart-policy name
    table and the register constants) are not part of this model: they are
    the fields of a `Platform` value that every replay is given, so every
    property proved below holds whatever they do. */
module CosCel {
  import opened Results
  import opened Cel
  import opened Attest

  /** The COS event types. `UnknownType` stands for every code the replay
      does not understand. */
  datatype CosEventType =
    | ImageRefType
    | ImageDigestType
    | RestartPolicyType
    | ImageIdType
    | ArgType
    | EnvVarType
    | OverrideArgType
    | OverrideEnvType
    | LaunchSeparatorType
    | MemoryMonitorType
    | UnknownType(code: byte)

  /** A decoded COS event: its type and its type-specific payload. */
  datatype CosTlv = CosTlv(eventType: CosEventType, eventContent: Bytes)

  /** A `NAME=VALUE` pair split by the environment-variable parser. */
  datatype EnvPair = EnvPair(name: Bytes, value: Bytes)

  datatype Platform = Platform(
    /** The register family tags of a PCR and of a CC measurement register. */
    pcrType: byte,
    ccmrType: byte,
    /** The only PCR and the only CC measurement register the COS log may use. */
    eventPcrIndex: nat,
    cosCcelMrIndex: nat,
    /** Decodes a record's content; fails on malformed framing. */
    parseToCosTlv: Bytes -> Result<CosTlv, string>,
    /** Checks the claimed digests against the decoded event; `None` is success. */
    verifyDigests: (CosTlv, Digests) -> Option<string>,
    /** Splits `NAME=VALUE`; fails on malformed text. */
    parseEnvVar: Bytes -> Result<EnvPair, string>,
    /** Maps the name of each restart policy to its enum value. */
    restartPolicyValue: map<Bytes, int32>)
}
