# Confidential Space: replay of the COS canonical event log

A Dafny model of `VerifiedCOSState`. This function replays the Container-Optimized OS (COS)
canonical event log (TCG Canonical Event Log records) and rebuilds the attested
container state. The state covers:

- the image reference, digest and ID;
- the restart policy;
- the arguments and overridden arguments;
- the environment variables and overridden environment variables;
- the memory-monitoring flag.

The replay is one sequential pass that fails closed. Each record either updates the state or
ends the whole replay with an error and no state.

## Layout

- `results.dfy` (`Results`): `Option` and `Result`.
- `cel.dfy` (`Cel`): a canonical event log `Record` (register index, register family,
  content, digests). Bytes are `seq<byte>`. A Go `string` is modelled as its bytes, because
  `string(b)` in Go reinterprets `b` without changing it.
- `attest.dfy` (`Attest`): the attested state message, with fields at their zero values in
  `EmptyCosState`.
- `coscel.dfy` (`CosCel`): the COS event types, a decoded event (`CosTlv`), and `Platform`.
  `Platform` bundles the external collaborators that every replay receives:
  - the TLV decoder;
  - the digest verifier;
  - the `NAME=VALUE` parser;
  - the restart-policy name table;
  - the two register-family tags;
  - the two register indexes.

  Every theorem holds for every `Platform`.
- `cos_state.dfy` (`Extract`): the model itself.
  - `Admit` performs the register, decode and digest checks.
  - `Dispatch` is the event-type switch. `Apply` writes one payload into the field its event
    type targets.
  - `Step` handles one record.
  - `ReplayFrom` is the fold, and `VerifiedCosState` runs it on a whole log.
  - `ReplayEventLog` is the loop of `VerifiedCOSState`: one pass over the records with an early
    return on the first error, proved equal to the fold.
- `cos_state_properties.dfy` (`ExtractProperties`): reference definitions that read the log
  directly, without going through the fold:
  - `Accepted`: the logs the replay accepts;
  - `Payloads`: the payloads of one event type in log order;
  - `LastPayload`: the payload of the last event of one type;
  - `EnvNames` and `LastEnvValue`: the names and last values of the environment events.

  The file also holds the theorems that tie these definitions to the replay.

On these points a looser reading of `VerifiedCOSState` could differ; the model follows
`server/extract/cos_state.go`:

- A restart-policy event has no duplicate check, so a later one overwrites the earlier one.
- After a launch separator every record is rejected, a second separator included.
- The separator check runs only after decoding and digest verification succeed.
- The single-set guard tests whether the current value is non-empty. An empty first payload
  therefore does not block a second event for the same field.
- A memory-monitor payload that is not exactly the single byte 1 disables monitoring. It is
  never an error.

## Model

| member | source | states |
|---|---|---|
| Extract.Admit | server/extract/cos_state.go:23-53 | A record passes exactly when four checks hold: its register family is the requested one; its index is the COS PCR (for the PCR family) or the COS CC measurement register (for the CCMR family); its content decodes; and its digests verify against the decoded event. The passing value is the decoded event. Each failing check gives its own error. A family mismatch and an unknown family are told apart. A wrong PCR index gives `UnexpectedPcr` and a wrong CCELMR index gives `UnexpectedCcelmr`, both carrying the index; the PCR family is checked first. After the register check, the decoder's message comes through unchanged as `DecodeError`. After a successful decode, the digest verifier's message comes through unchanged as `DigestError`. |
| Extract.Dispatch | server/extract/cos_state.go:60-115 | An event is rejected exactly in four cases: its type is unknown; it is a restart policy whose name is not in the table; it is an environment event the parser rejects; or it is an image event whose field is already non-empty. On success only the field that the event type targets may change, and the separator flag is set exactly by a separator. Image events set their field. Argument events append one element. Environment events upsert one pair. The restart policy takes the table value. The memory flag becomes `Some(payload == [1])`. Each rejection has its own error. An unknown type gives `UnknownEventType` with its code. A restart-policy name not in the table gives `UnknownRestartPolicy` with that name. An environment pair the parser rejects gives `EnvVarError` with the parser's message. An image event whose field is already set gives `MoreThanOne` naming that field. |
| Extract.Step | server/extract/cos_state.go:22-115 | One record succeeds exactly when it passes every state-independent check, no separator has been seen, and no image field it would set is already set. A register, decode or digest error is returned before the separator check, and every record after a separator is rejected. |
| Extract.StepDispatches | server/extract/cos_state.go:44-115 | A record that passes the register, decode and digest checks before any separator yields exactly what the event-type switch yields for its decoded event. |
| Extract.ReplayFrom | server/extract/cos_state.go:22-117 | A successful fold implies that every record passed every state-independent check. Nothing is skipped. |
| Extract.VerifiedCosState | server/extract/cos_state.go:13-119 | A successful replay means every record had the requested register family, the COS index for that family, decodable content, matching digests, a known event type, a known restart-policy name and a parsable environment pair. Any other record makes the whole replay an error. |
| Extract.ReplayAppend | server/extract/cos_state.go:22-117 | Replaying `xs + ys` means replaying `xs` and then `ys` from where `xs` ended. An error in `xs` is the error of the whole replay, so replay is a single fail-fast pass. |
| Extract.ReplayEventLog | server/extract/cos_state.go:13-119 | The loop over records with an early return on the first error computes the same result as the fold. |
| ExtractProperties.VerifiedIffAccepted | server/extract/cos_state.go:21-117 | A log replays successfully if and only if three conditions hold. First, every record passes the register, decode, digest and event checks. Second, a separator can only be the last record. Third, an image event with a non-empty payload is never followed by another event for the same field. |
| ExtractProperties.EventAfterSeparatorFails | server/extract/cos_state.go:55-58 | Any record after a launch separator makes the replay fail, another separator included. |
| ExtractProperties.SeparatorEndsReplay | server/extract/cos_state.go:105-118 | A log that ends at its only separator succeeds with exactly the state built before the separator. |
| ExtractProperties.SecondImageEventFails | server/extract/cos_state.go:61-84 | If an image-reference, image-digest or image-ID event with a non-empty payload is followed by another event of the same type, the replay fails, whatever the second payload is. |
| ExtractProperties.ImageFieldsFromLastEvent | server/extract/cos_state.go:61-84 | On success each image field holds the payload of the last event for it, or is empty when there was none. |
| ExtractProperties.RestartPolicyFromLastEvent | server/extract/cos_state.go:73-78 | On success the restart policy is the table value of the last restart-policy event's name, which is in the table. It is 0 when there was no such event. |
| ExtractProperties.RepeatableEventAppends | server/extract/cos_state.go:73-112 | A successful log without a separator stays successful when any valid record is appended that is not an image event. Restart-policy, argument, environment and memory-monitor events may therefore repeat. |
| ExtractProperties.ArgsInLogOrder | server/extract/cos_state.go:93-97 | On success `args` equals the payloads of the argument events in log order, repeats kept. `overriddenArgs` equals the payloads of the override-argument events in the same way. |
| ExtractProperties.EnvVarNames | server/extract/cos_state.go:86-104 | On success an environment map has exactly the distinct names its events gave. |
| ExtractProperties.EnvVarCount | server/extract/cos_state.go:86-104 | On success an environment map's size is the number of distinct names its events gave, so a repeated name does not grow it. |
| ExtractProperties.EnvVarsLastWins | server/extract/cos_state.go:86-104 | On success each name in an environment map holds the value of the last event for that name. |
| ExtractProperties.EnvVarsAbsent | server/extract/cos_state.go:86-104 | On success a name is missing from an environment map only when no event for that map gave it a value. |
| ExtractProperties.MemoryMonitorFromLastEvent | server/extract/cos_state.go:107-112 | On success the memory flag is unset if there was no memory-monitor event. Otherwise it is true exactly when the last such payload is the single byte 1. |

Determinism needs no theorem: every member is a pure function of the platform, the register
family and the records.

## Left out

- The TLV framing inside the COS decoder: it is a `Platform` function from bytes to a decoded
  event or an error message.
- Digest recomputation: it is cryptographic and lives in a library. It is a `Platform`
  function of the decoded event and the digests.
- The internals of the `NAME=VALUE` parser: it is a `Platform` function.
- The concrete values of the PCR and CCMR family tags, the two register indexes, and the
  contents of the restart-policy name table. These are external constants and tables and are
  left abstract. The numeric codes of the COS event types are left out too. The model
  distinguishes the ten known types and gives every other code as `UnknownType`.
- Protobuf plumbing (pointers, accessors, nil versus empty slices) and the text of the error
  messages. Each error is a variant of `Error`. Messages from the collaborators are carried
  through unchanged as opaque strings.
- The record number and other record fields the replay does not read.
- How the log was obtained and extended into hardware registers: this is I/O.
- ExtractProperties.VerifiedIffAccepted: states whether a replay fails, not which error it
  returns. The error of a failing record is stated per record:
  - `Extract.Admit` for each register, decode and digest failure;
  - `Extract.Step` for a record after the separator;
  - `Extract.Dispatch` for each event-type failure.
