/** Replay of a COS canonical event log into the attested container state
    (server/extract/cos_state.go). One record is processed by `Step`; the log
    is a left fold of `Step` that stops at the first error, so a failed replay
    yields an error and no state. */
module Extract {
  import opened Results
  import opened Cel
  import opened Attest
  import opened CosCel

  /** The fields of the attested state that events write. */
  datatype Field =
    | ImageReference
    | ImageDigest
    | RestartPolicy
    | ImageId
    | Args
    | EnvVars
    | OverriddenArgs
    | OverriddenEnvVars
    | MemoryEnabled

  /** Fields that a second non-empty write makes an error. */
  type OnceField = f: Field | f.ImageReference? || f.ImageDigest? || f.ImageId? witness ImageReference

  /** Fields that every event appends to. */
  type ListField = f: Field | f.Args? || f.OverriddenArgs? witness Args

  /** Fields that every event upserts a `NAME=VALUE` pair into. */
  type MapField = f: Field | f.EnvVars? || f.OverriddenEnvVars? witness EnvVars

  datatype Error =
    | RegisterTypeMismatch(expected: byte, found: byte)
    | UnexpectedPcr(index: nat)
    | UnexpectedCcelmr(index: nat)
    | UnknownIndexType(indexType: byte)
    | DecodeError(message: string)
    | DigestError(message: string)
    | EventAfterSeparator(eventType: CosEventType)
    | MoreThanOne(field: OnceField)
    | UnknownRestartPolicy(name: Bytes)
    | EnvVarError(message: string)
    | UnknownEventType(code: byte)

  /** The replay accumulator: the state built so far and whether the launch
      separator has been seen. */
  datatype Replay = Replay(cos: AttestedCosState, seenSeparator: bool)

  const Start := Replay(EmptyCosState, false)

  /** The event type that writes each field. */
  function EventFor(f: Field): CosEventType {
    match f
    case ImageReference => ImageRefType
    case ImageDigest => ImageDigestType
    case RestartPolicy => RestartPolicyType
    case ImageId => ImageIdType
    case Args => ArgType
    case EnvVars => EnvVarType
    case OverriddenArgs => OverrideArgType
    case OverriddenEnvVars => OverrideEnvType
    case MemoryEnabled => MemoryMonitorType
  }

  /** The field an event of type `t` writes; none for the separator and for
      unknown types. This is the inverse of `EventFor`. */
  function Target(t: CosEventType): (r: Option<Field>)
    ensures forall f :: r == Some(f) <==> EventFor(f) == t
  {
    match t
    case ImageRefType => Some(ImageReference)
    case ImageDigestType => Some(ImageDigest)
    case RestartPolicyType => Some(RestartPolicy)
    case ImageIdType => Some(ImageId)
    case ArgType => Some(Args)
    case EnvVarType => Some(EnvVars)
    case OverrideArgType => Some(OverriddenArgs)
    case OverrideEnvType => Some(OverriddenEnvVars)
    case LaunchSeparatorType => None
    case MemoryMonitorType => Some(MemoryEnabled)
    case UnknownType(_) => None
  }

  /** `s` and `s'` hold the same value in field `f`. */
  predicate Agree(s: AttestedCosState, s': AttestedCosState, f: Field) {
    match f
    case ImageReference => s.container.imageReference == s'.container.imageReference
    case ImageDigest => s.container.imageDigest == s'.container.imageDigest
    case RestartPolicy => s.container.restartPolicy == s'.container.restartPolicy
    case ImageId => s.container.imageId == s'.container.imageId
    case Args => s.container.args == s'.container.args
    case EnvVars => s.container.envVars == s'.container.envVars
    case OverriddenArgs => s.container.overriddenArgs == s'.container.overriddenArgs
    case OverriddenEnvVars => s.container.overriddenEnvVars == s'.container.overriddenEnvVars
    case MemoryEnabled => s.healthMonitoring.memoryEnabled == s'.healthMonitoring.memoryEnabled
  }

  function OnceValue(s: AttestedCosState, f: OnceField): Bytes {
    if f.ImageReference? then s.container.imageReference
    else if f.ImageDigest? then s.container.imageDigest
    else s.container.imageId
  }

  function WithOnce(s: AttestedCosState, f: OnceField, v: Bytes): AttestedCosState {
    if f.ImageReference? then s.(container := s.container.(imageReference := v))
    else if f.ImageDigest? then s.(container := s.container.(imageDigest := v))
    else s.(container := s.container.(imageId := v))
  }

  function ListOf(s: AttestedCosState, f: ListField): seq<Bytes> {
    if f.Args? then s.container.args else s.container.overriddenArgs
  }

  function WithList(s: AttestedCosState, f: ListField, v: seq<Bytes>): AttestedCosState {
    if f.Args? then s.(container := s.container.(args := v))
    else s.(container := s.container.(overriddenArgs := v))
  }

  function MapOf(s: AttestedCosState, f: MapField): map<Bytes, Bytes> {
    if f.EnvVars? then s.container.envVars else s.container.overriddenEnvVars
  }

  function WithMap(s: AttestedCosState, f: MapField, m: map<Bytes, Bytes>): AttestedCosState {
    if f.EnvVars? then s.(container := s.container.(envVars := m))
    else s.(container := s.container.(overriddenEnvVars := m))
  }

  /** Record `r` decodes to an event of type `t`. */
  predicate IsEventOf(p: Platform, r: Record, t: CosEventType) {
    p.parseToCosTlv(r.content).Ok? && p.parseToCosTlv(r.content).value.eventType == t
  }

  /** The payload of a record that decodes. */
  function PayloadOf(p: Platform, r: Record): Bytes
    requires p.parseToCosTlv(r.content).Ok?
  {
    p.parseToCosTlv(r.content).value.eventContent
  }

  /** The record was measured into the register COS uses for the family
      being replayed. */
  predicate OnCosRegister(p: Platform, rt: byte, r: Record) {
    && r.indexType == rt
    && (if rt == p.pcrType then r.index == p.eventPcrIndex
        else rt == p.ccmrType && r.index == p.cosCcelMrIndex)
  }

  /** The checks a record must pass before its event is looked at: the
      register family is the one being replayed, the register is the one
      COS uses for that family, the content decodes, and the claimed digests
      match the decoded event. */
  predicate Admitted(p: Platform, rt: byte, r: Record) {
    && OnCosRegister(p, rt, r)
    && p.parseToCosTlv(r.content).Ok?
    && p.verifyDigests(p.parseToCosTlv(r.content).value, r.digests).None?
  }

  /** The event has a known type and a payload its type accepts, whatever
      state it is applied to. */
  predicate Interpretable(p: Platform, tlv: CosTlv) {
    && !tlv.eventType.UnknownType?
    && (tlv.eventType == RestartPolicyType ==> tlv.eventContent in p.restartPolicyValue)
    && (tlv.eventType == EnvVarType || tlv.eventType == OverrideEnvType ==>
          p.parseEnvVar(tlv.eventContent).Ok?)
  }

  /** Every check that does not depend on the replay state passes. */
  predicate RecordValid(p: Platform, rt: byte, r: Record) {
    Admitted(p, rt, r) && Interpretable(p, p.parseToCosTlv(r.content).value)
  }

  /** No set-once field that `r` would write is already set in `s`. */
  predicate OnceFree(p: Platform, s: AttestedCosState, r: Record) {
    forall f: OnceField :: IsEventOf(p, r, EventFor(f)) ==> OnceValue(s, f) == []
  }

  function DecodeAndVerify(p: Platform, r: Record): Result<CosTlv, Error> {
    match p.parseToCosTlv(r.content)
    case Err(m) => Err(DecodeError(m))
    case Ok(tlv) =>
      match p.verifyDigests(tlv, r.digests)
      case Some(m) => Err(DigestError(m))
      case None => Ok(tlv)
  }

  /** The register and digest checks of one record, in source order. */
  function Admit(p: Platform, rt: byte, r: Record): (res: Result<CosTlv, Error>)
    ensures res.Ok? <==> Admitted(p, rt, r)
    ensures res.Ok? ==> p.parseToCosTlv(r.content) == Ok(res.value)
    ensures r.indexType != rt ==> res == Err(RegisterTypeMismatch(rt, r.indexType))
    ensures r.indexType == rt && rt != p.pcrType && rt != p.ccmrType ==> res == Err(UnknownIndexType(rt))
    ensures r.indexType == rt == p.pcrType && r.index != p.eventPcrIndex ==> res == Err(UnexpectedPcr(r.index))
    ensures r.indexType == rt == p.ccmrType != p.pcrType && r.index != p.cosCcelMrIndex ==>
      res == Err(UnexpectedCcelmr(r.index))
    ensures OnCosRegister(p, rt, r) && p.parseToCosTlv(r.content).Err? ==>
      res == Err(DecodeError(p.parseToCosTlv(r.content).error))
    ensures OnCosRegister(p, rt, r) && p.parseToCosTlv(r.content).Ok? ==>
      match p.verifyDigests(p.parseToCosTlv(r.content).value, r.digests)
      case Some(m) => res == Err(DigestError(m))
      case None => res.Ok?
  {
    if r.indexType != rt then Err(RegisterTypeMismatch(rt, r.indexType))
    else if r.indexType == p.pcrType then
      if r.index != p.eventPcrIndex then Err(UnexpectedPcr(r.index)) else DecodeAndVerify(p, r)
    else if r.indexType == p.ccmrType then
      if r.index != p.cosCcelMrIndex then Err(UnexpectedCcelmr(r.index)) else DecodeAndVerify(p, r)
    else Err(UnknownIndexType(r.indexType))
  }

  function SetOnce(acc: Replay, f: OnceField, v: Bytes): Result<Replay, Error> {
    if OnceValue(acc.cos, f) != [] then Err(MoreThanOne(f))
    else Ok(acc.(cos := WithOnce(acc.cos, f, v)))
  }

  function Append(acc: Replay, f: ListField, v: Bytes): Result<Replay, Error> {
    Ok(acc.(cos := WithList(acc.cos, f, ListOf(acc.cos, f) + [v])))
  }

  function Upsert(p: Platform, acc: Replay, f: MapField, v: Bytes): Result<Replay, Error> {
    match p.parseEnvVar(v)
    case Err(m) => Err(EnvVarError(m))
    case Ok(e) => Ok(acc.(cos := WithMap(acc.cos, f, MapOf(acc.cos, f)[e.name := e.value])))
  }

  /** Writes payload `v` into field `f` with the checks that `f`'s events
      carry: a set-once field must still be empty, a restart-policy name
      must be in the table, an environment pair must parse. */
  function Apply(p: Platform, acc: Replay, f: Field, v: Bytes): (res: Result<Replay, Error>)
    ensures res.Err? <==>
      || (f == RestartPolicy && v !in p.restartPolicyValue)
      || ((f == EnvVars || f == OverriddenEnvVars) && p.parseEnvVar(v).Err?)
      || ((f == ImageReference || f == ImageDigest || f == ImageId) && OnceValue(acc.cos, f) != [])
    ensures f == RestartPolicy && res.Err? ==> res.error == UnknownRestartPolicy(v)
    ensures (f == EnvVars || f == OverriddenEnvVars) && res.Err? ==> res.error == EnvVarError(p.parseEnvVar(v).error)
    ensures (f == ImageReference || f == ImageDigest || f == ImageId) && res.Err? ==> res.error == MoreThanOne(f)
    ensures res.Ok? ==> res.value.seenSeparator == acc.seenSeparator
    ensures res.Ok? ==> forall g :: g != f ==> Agree(acc.cos, res.value.cos, g)
    ensures (f == ImageReference || f == ImageDigest || f == ImageId) && res.Ok? ==> OnceValue(res.value.cos, f) == v
    ensures (f == Args || f == OverriddenArgs) && res.Ok? ==> ListOf(res.value.cos, f) == ListOf(acc.cos, f) + [v]
    ensures (f == EnvVars || f == OverriddenEnvVars) && res.Ok? ==>
      var e := p.parseEnvVar(v).value;
      MapOf(res.value.cos, f) == MapOf(acc.cos, f)[e.name := e.value]
    ensures f == RestartPolicy && res.Ok? ==> res.value.cos.container.restartPolicy == p.restartPolicyValue[v]
    ensures f == MemoryEnabled && res.Ok? ==> res.value.cos.healthMonitoring.memoryEnabled == Some(v == [1])
  {
    match f
    case ImageReference => SetOnce(acc, f, v)
    case ImageDigest => SetOnce(acc, f, v)
    case ImageId => SetOnce(acc, f, v)
    case Args => Append(acc, f, v)
    case OverriddenArgs => Append(acc, f, v)
    case EnvVars => Upsert(p, acc, f, v)
    case OverriddenEnvVars => Upsert(p, acc, f, v)
    case RestartPolicy =>
      if v !in p.restartPolicyValue then Err(UnknownRestartPolicy(v))
      else
        var c := acc.cos.container;
        Ok(acc.(cos := acc.cos.(container := c.(restartPolicy := p.restartPolicyValue[v]))))
    case MemoryEnabled =>
      var enabled := |v| == 1 && v[0] == 1;
      Ok(acc.(cos := acc.cos.(healthMonitoring := HealthMonitoringState(Some(enabled)))))
  }

  /** Applies one decoded event to the accumulator: the event-type switch. */
  function Dispatch(p: Platform, acc: Replay, tlv: CosTlv): (res: Result<Replay, Error>)
    ensures res.Ok? <==>
      Interpretable(p, tlv) && forall f: OnceField :: tlv.eventType == EventFor(f) ==> OnceValue(acc.cos, f) == []
    ensures res.Ok? ==> res.value.seenSeparator == (acc.seenSeparator || tlv.eventType == LaunchSeparatorType)
    ensures res.Ok? ==> forall f :: Target(tlv.eventType) != Some(f) ==> Agree(acc.cos, res.value.cos, f)
    ensures forall f: OnceField :: res.Ok? && tlv.eventType == EventFor(f) ==>
      OnceValue(res.value.cos, f) == tlv.eventContent
    ensures forall f: ListField :: res.Ok? && tlv.eventType == EventFor(f) ==>
      ListOf(res.value.cos, f) == ListOf(acc.cos, f) + [tlv.eventContent]
    ensures forall f: MapField :: res.Ok? && tlv.eventType == EventFor(f) ==>
      var e := p.parseEnvVar(tlv.eventContent).value;
      MapOf(res.value.cos, f) == MapOf(acc.cos, f)[e.name := e.value]
    ensures res.Ok? && tlv.eventType == RestartPolicyType ==>
      res.value.cos.container.restartPolicy == p.restartPolicyValue[tlv.eventContent]
    ensures res.Ok? && tlv.eventType == MemoryMonitorType ==>
      res.value.cos.healthMonitoring.memoryEnabled == Some(tlv.eventContent == [1])
    ensures tlv.eventType.UnknownType? ==> res == Err(UnknownEventType(tlv.eventType.code))
    ensures tlv.eventType == RestartPolicyType && tlv.eventContent !in p.restartPolicyValue ==>
      res == Err(UnknownRestartPolicy(tlv.eventContent))
    ensures (tlv.eventType == EnvVarType || tlv.eventType == OverrideEnvType) && p.parseEnvVar(tlv.eventContent).Err? ==>
      res == Err(EnvVarError(p.parseEnvVar(tlv.eventContent).error))
    ensures forall f: OnceField :: tlv.eventType == EventFor(f) && OnceValue(acc.cos, f) != [] ==>
      res == Err(MoreThanOne(f))
  {
    match tlv.eventType
    case LaunchSeparatorType => Ok(acc.(seenSeparator := true))
    case UnknownType(code) => Err(UnknownEventType(code))
    case _ => Apply(p, acc, Target(tlv.eventType).value, tlv.eventContent)
  }

  /** Processes one record. */
  function Step(p: Platform, rt: byte, acc: Replay, r: Record): (res: Result<Replay, Error>)
    ensures res.Ok? <==> RecordValid(p, rt, r) && !acc.seenSeparator && OnceFree(p, acc.cos, r)
    ensures Admit(p, rt, r).Err? ==> res == Err(Admit(p, rt, r).error)
    ensures Admit(p, rt, r).Ok? && acc.seenSeparator ==>
      res == Err(EventAfterSeparator(Admit(p, rt, r).value.eventType))
  {
    var tlv :- Admit(p, rt, r);
    if acc.seenSeparator then Err(EventAfterSeparator(tlv.eventType))
    else Dispatch(p, acc, tlv)
  }

  /** A record that passes the register and digest checks before the
      separator is the event-type switch applied to its decoded event. */
  lemma StepDispatches(p: Platform, rt: byte, acc: Replay, r: Record)
    requires Admit(p, rt, r).Ok? && !acc.seenSeparator
    ensures Step(p, rt, acc, r) == Dispatch(p, acc, Admit(p, rt, r).value)
  {
  }

  /** Folds `Step` over `rs` from `acc`, stopping at the first error. */
  function ReplayFrom(p: Platform, rt: byte, acc: Replay, rs: seq<Record>): (res: Result<Replay, Error>)
    ensures res.Ok? ==> forall i | 0 <= i < |rs| :: RecordValid(p, rt, rs[i])
    decreases |rs|
  {
    if rs == [] then Ok(acc)
    else
      var next :- Step(p, rt, acc, rs[0]);
      ReplayFrom(p, rt, next, rs[1..])
  }

  /** The attested state of a whole log replayed for register family `rt`. */
  function VerifiedCosState(p: Platform, rt: byte, rs: seq<Record>): (res: Result<AttestedCosState, Error>)
    ensures res.Ok? ==> forall i | 0 <= i < |rs| :: RecordValid(p, rt, rs[i])
  {
    var last :- ReplayFrom(p, rt, Start, rs);
    Ok(last.cos)
  }

  /** Replaying `xs + ys` is replaying `xs`, then `ys` from where `xs` ended;
      an error in `xs` is the error of the whole. */
  lemma {:induction false} ReplayAppend(p: Platform, rt: byte, acc: Replay, xs: seq<Record>, ys: seq<Record>)
    ensures ReplayFrom(p, rt, acc, xs + ys) ==
      match ReplayFrom(p, rt, acc, xs)
      case Ok(mid) => ReplayFrom(p, rt, mid, ys)
      case Err(e) => Err(e)
    decreases |xs|
  {
    if xs == [] {
      assert xs + ys == ys;
    } else {
      assert (xs + ys)[0] == xs[0];
      assert (xs + ys)[1..] == xs[1..] + ys;
      match Step(p, rt, acc, xs[0])
      case Err(_) =>
      case Ok(next) => ReplayAppend(p, rt, next, xs[1..], ys);
    }
  }

  /** The loop of `VerifiedCOSState`: one pass over the records with an
      early return on the first error. */
  method ReplayEventLog(p: Platform, rt: byte, rs: seq<Record>) returns (res: Result<AttestedCosState, Error>)
    ensures res == VerifiedCosState(p, rt, rs)
  {
    var acc := Start;
    var i := 0;
    while i < |rs|
      invariant 0 <= i <= |rs|
      invariant ReplayFrom(p, rt, Start, rs[..i]) == Ok(acc)
    {
      var step := Step(p, rt, acc, rs[i]);
      assert rs[..i + 1] == rs[..i] + [rs[i]];
      ReplayAppend(p, rt, Start, rs[..i], [rs[i]]);
      if step.Err? {
        assert rs == rs[..i + 1] + rs[i + 1..];
        ReplayAppend(p, rt, Start, rs[..i + 1], rs[i + 1..]);
        return Err(step.error);
      }
      acc := step.value;
      i := i + 1;
    }
    assert rs[..i] == rs;
    return Ok(acc.cos);
  }
}
