/** What a replay of a whole log promises, stated against definitions that
    read the log directly rather than through the fold: which logs are
    accepted, and what each field of the attested state holds afterwards. */
module ExtractProperties {
  import opened Results
  import opened Cel
  import opened Attest
  import opened CosCel
  import opened Extract

  // ---------------------------------------------------------------------
  // Reference definitions over the records of a log
  // ---------------------------------------------------------------------

  /** No record of `rs` decodes to a launch separator. */
  predicate NoSeparator(p: Platform, rs: seq<Record>) {
    forall i | 0 <= i < |rs| :: !IsEventOf(p, rs[i], LaunchSeparatorType)
  }

  /** A launch separator can only be the last record. */
  predicate SeparatorLast(p: Platform, rs: seq<Record>) {
    forall i | 0 <= i < |rs| - 1 :: !IsEventOf(p, rs[i], LaunchSeparatorType)
  }

  /** No record of `rs` decodes to an event of type `t`. */
  predicate NoEventOf(p: Platform, rs: seq<Record>, t: CosEventType) {
    forall j | 0 <= j < |rs| :: !IsEventOf(p, rs[j], t)
  }

  /** Every event for `f` that some later event for `f` follows carries an
      empty payload: only the last one may set the field. */
  predicate SetAtMostOnce(p: Platform, rs: seq<Record>, f: OnceField) {
    forall i, j | 0 <= i < j < |rs| && IsEventOf(p, rs[i], EventFor(f)) && IsEventOf(p, rs[j], EventFor(f)) ::
      PayloadOf(p, rs[i]) == []
  }

  /** The logs the replay accepts for register family `rt`. */
  predicate Accepted(p: Platform, rt: byte, rs: seq<Record>) {
    && (forall i | 0 <= i < |rs| :: RecordValid(p, rt, rs[i]))
    && SeparatorLast(p, rs)
    && (forall f: OnceField :: SetAtMostOnce(p, rs, f))
  }

  /** `Accepted`, continued from an accumulator that may already hold a
      separator or set-once fields. */
  predicate AcceptedFrom(p: Platform, rt: byte, acc: Replay, rs: seq<Record>) {
    && Accepted(p, rt, rs)
    && (acc.seenSeparator ==> rs == [])
    && (forall f: OnceField :: OnceValue(acc.cos, f) != [] ==> NoEventOf(p, rs, EventFor(f)))
  }

  /** The payloads of the events of type `t`, in log order. */
  function Payloads(p: Platform, rs: seq<Record>, t: CosEventType): seq<Bytes>
    decreases |rs|
  {
    if rs == [] then []
    else
      var r := rs[|rs| - 1];
      Payloads(p, rs[..|rs| - 1], t) + (if IsEventOf(p, r, t) then [PayloadOf(p, r)] else [])
  }

  /** The payload of the last event of type `t`, if there is one. */
  function LastPayload(p: Platform, rs: seq<Record>, t: CosEventType): Option<Bytes>
    decreases |rs|
  {
    if rs == [] then None
    else
      var r := rs[|rs| - 1];
      if IsEventOf(p, r, t) then Some(PayloadOf(p, r)) else LastPayload(p, rs[..|rs| - 1], t)
  }

  /** The `NAME=VALUE` pair a record of type `t` carries, if it parses. */
  function EnvOf(p: Platform, r: Record, t: CosEventType): Option<EnvPair> {
    if IsEventOf(p, r, t) && p.parseEnvVar(PayloadOf(p, r)).Ok? then Some(p.parseEnvVar(PayloadOf(p, r)).value)
    else None
  }

  /** The names that events of type `t` give a value to. */
  function EnvNames(p: Platform, rs: seq<Record>, t: CosEventType): set<Bytes>
    decreases |rs|
  {
    if rs == [] then {}
    else
      var e := EnvOf(p, rs[|rs| - 1], t);
      EnvNames(p, rs[..|rs| - 1], t) + (if e.Some? then {e.value.name} else {})
  }

  /** The value the last event of type `t` for `name` gives it, if any. */
  function LastEnvValue(p: Platform, rs: seq<Record>, t: CosEventType, name: Bytes): Option<Bytes>
    decreases |rs|
  {
    if rs == [] then None
    else
      var e := EnvOf(p, rs[|rs| - 1], t);
      if e.Some? && e.value.name == name then Some(e.value.value)
      else LastEnvValue(p, rs[..|rs| - 1], t, name)
  }

  // ---------------------------------------------------------------------
  // The fold, one record at a time from the end
  // ---------------------------------------------------------------------

  /** A successful replay of a non-empty log is a successful replay of all
      but its last record followed by one step. */
  lemma ReplaySplitLast(p: Platform, rt: byte, acc: Replay, rs: seq<Record>) returns (b: Replay)
    requires |rs| > 0 && ReplayFrom(p, rt, acc, rs).Ok?
    ensures ReplayFrom(p, rt, acc, rs[..|rs| - 1]) == Ok(b)
    ensures Step(p, rt, b, rs[|rs| - 1]) == ReplayFrom(p, rt, acc, rs)
  {
    var r := rs[|rs| - 1];
    assert rs[..|rs| - 1] + [r] == rs;
    ReplayAppend(p, rt, acc, rs[..|rs| - 1], [r]);
    b := ReplayFrom(p, rt, acc, rs[..|rs| - 1]).value;
    assert [r][1..] == [];
  }

  /** Replaying one more record. */
  lemma ReplaySnoc(p: Platform, rt: byte, acc: Replay, rs: seq<Record>, r: Record)
    ensures ReplayFrom(p, rt, acc, rs + [r]) ==
      match ReplayFrom(p, rt, acc, rs)
      case Ok(b) => Step(p, rt, b, r)
      case Err(e) => Err(e)
  {
    ReplayAppend(p, rt, acc, rs, [r]);
    assert [r][1..] == [];
  }

  /** The separator flag after a replay records whether a separator was
      replayed. */
  lemma {:induction false} ReplaySeparatorSeen(p: Platform, rt: byte, acc: Replay, rs: seq<Record>)
    requires ReplayFrom(p, rt, acc, rs).Ok?
    ensures ReplayFrom(p, rt, acc, rs).value.seenSeparator <==> acc.seenSeparator || !NoSeparator(p, rs)
    decreases |rs|
  {
    if rs != [] {
      var init := rs[..|rs| - 1];
      var b := ReplaySplitLast(p, rt, acc, rs);
      ReplaySeparatorSeen(p, rt, acc, init);
      StepSeparator(p, rt, b, rs[|rs| - 1]);
      NoSeparatorSnoc(p, rs);
    }
  }

  /** A log has no separator exactly when neither its last record nor any
      record before it is one. */
  lemma NoSeparatorSnoc(p: Platform, rs: seq<Record>)
    requires |rs| > 0
    ensures NoSeparator(p, rs) <==>
      NoSeparator(p, rs[..|rs| - 1]) && !IsEventOf(p, rs[|rs| - 1], LaunchSeparatorType)
  {
    assert forall i | 0 <= i < |rs| - 1 :: rs[i] == rs[..|rs| - 1][i];
  }

  /** A successful step sets the separator flag exactly when its record is
      the separator. */
  lemma StepSeparator(p: Platform, rt: byte, acc: Replay, r: Record)
    requires Step(p, rt, acc, r).Ok?
    ensures Step(p, rt, acc, r).value.seenSeparator <==> IsEventOf(p, r, LaunchSeparatorType)
  {
  }

  /** After a replay each set-once field holds the payload of the last event
      for it, or what it held before if there was none. */
  lemma {:induction false} ReplayOnceFields(p: Platform, rt: byte, acc: Replay, rs: seq<Record>)
    requires ReplayFrom(p, rt, acc, rs).Ok?
    ensures forall f: OnceField ::
      OnceValue(ReplayFrom(p, rt, acc, rs).value.cos, f) ==
        match LastPayload(p, rs, EventFor(f))
        case Some(v) => v
        case None => OnceValue(acc.cos, f)
    decreases |rs|
  {
    if rs != [] {
      var b := ReplaySplitLast(p, rt, acc, rs);
      ReplayOnceFields(p, rt, acc, rs[..|rs| - 1]);
      var a := ReplayFrom(p, rt, acc, rs).value;
      var tlv := Admit(p, rt, rs[|rs| - 1]).value;
      forall f: OnceField
        ensures OnceValue(a.cos, f) == match LastPayload(p, rs, EventFor(f))
                                       case Some(v) => v
                                       case None => OnceValue(acc.cos, f)
      {
        if tlv.eventType != EventFor(f) {
          assert Agree(b.cos, a.cos, f);
        }
      }
    }
  }

  /** After a replay the restart policy is the table value of the last
      restart-policy event's name, or what it was before if there was none. */
  lemma {:induction false} ReplayRestartPolicy(p: Platform, rt: byte, acc: Replay, rs: seq<Record>)
    requires ReplayFrom(p, rt, acc, rs).Ok?
    ensures var s := ReplayFrom(p, rt, acc, rs).value.cos;
      match LastPayload(p, rs, RestartPolicyType)
      case Some(v) => v in p.restartPolicyValue && s.container.restartPolicy == p.restartPolicyValue[v]
      case None => s.container.restartPolicy == acc.cos.container.restartPolicy
    decreases |rs|
  {
    if rs != [] {
      var b := ReplaySplitLast(p, rt, acc, rs);
      ReplayRestartPolicy(p, rt, acc, rs[..|rs| - 1]);
      var a := ReplayFrom(p, rt, acc, rs).value;
      var tlv := Admit(p, rt, rs[|rs| - 1]).value;
      if tlv.eventType != RestartPolicyType {
        assert Agree(b.cos, a.cos, RestartPolicy);
      }
    }
  }

  /** After a replay the memory monitoring flag reflects the last memory
      monitor event (enabled exactly when its payload is the single byte 1),
      or is what it was before if there was none. */
  lemma {:induction false} ReplayMemoryMonitor(p: Platform, rt: byte, acc: Replay, rs: seq<Record>)
    requires ReplayFrom(p, rt, acc, rs).Ok?
    ensures ReplayFrom(p, rt, acc, rs).value.cos.healthMonitoring.memoryEnabled ==
      match LastPayload(p, rs, MemoryMonitorType)
      case Some(v) => Some(v == [1])
      case None => acc.cos.healthMonitoring.memoryEnabled
    decreases |rs|
  {
    if rs != [] {
      var b := ReplaySplitLast(p, rt, acc, rs);
      ReplayMemoryMonitor(p, rt, acc, rs[..|rs| - 1]);
      var a := ReplayFrom(p, rt, acc, rs).value;
      var tlv := Admit(p, rt, rs[|rs| - 1]).value;
      if tlv.eventType != MemoryMonitorType {
        assert Agree(b.cos, a.cos, MemoryEnabled);
      }
    }
  }

  /** After a replay an argument list is what it was, followed by the
      payloads of the events for it in log order. */
  lemma {:induction false} ReplayListField(p: Platform, rt: byte, acc: Replay, rs: seq<Record>, f: ListField)
    requires ReplayFrom(p, rt, acc, rs).Ok?
    ensures ListOf(ReplayFrom(p, rt, acc, rs).value.cos, f) == ListOf(acc.cos, f) + Payloads(p, rs, EventFor(f))
    decreases |rs|
  {
    if rs != [] {
      var b := ReplaySplitLast(p, rt, acc, rs);
      ReplayListField(p, rt, acc, rs[..|rs| - 1], f);
      var a := ReplayFrom(p, rt, acc, rs).value;
      var tlv := Admit(p, rt, rs[|rs| - 1]).value;
      var before := Payloads(p, rs[..|rs| - 1], EventFor(f));
      if tlv.eventType != EventFor(f) {
        assert Agree(b.cos, a.cos, f);
        assert Payloads(p, rs, EventFor(f)) == before + [];
      } else {
        assert ListOf(acc.cos, f) + before + [tlv.eventContent] == ListOf(acc.cos, f) + (before + [tlv.eventContent]);
      }
    }
  }

  /** After a replay an environment map holds exactly the names it held or
      that an event for it named, each with the value of the last event
      naming it, or its old value if none did. */
  lemma {:induction false} ReplayMapField(p: Platform, rt: byte, acc: Replay, rs: seq<Record>, f: MapField)
    requires ReplayFrom(p, rt, acc, rs).Ok?
    ensures var m := MapOf(ReplayFrom(p, rt, acc, rs).value.cos, f);
      && m.Keys == MapOf(acc.cos, f).Keys + EnvNames(p, rs, EventFor(f))
      && forall n | n in m ::
           match LastEnvValue(p, rs, EventFor(f), n)
           case Some(v) => m[n] == v
           case None => n in MapOf(acc.cos, f) && m[n] == MapOf(acc.cos, f)[n]
    decreases |rs|
  {
    if rs != [] {
      var b := ReplaySplitLast(p, rt, acc, rs);
      ReplayMapField(p, rt, acc, rs[..|rs| - 1], f);
      var a := ReplayFrom(p, rt, acc, rs).value;
      var tlv := Admit(p, rt, rs[|rs| - 1]).value;
      var t := EventFor(f);
      if tlv.eventType != t {
        assert Agree(b.cos, a.cos, f);
        assert EnvOf(p, rs[|rs| - 1], t).None?;
      } else {
        var e := p.parseEnvVar(tlv.eventContent).value;
        assert EnvOf(p, rs[|rs| - 1], t) == Some(e);
        assert MapOf(a.cos, f) == MapOf(b.cos, f)[e.name := e.value];
      }
    }
  }

  // ---------------------------------------------------------------------
  // Which logs are accepted
  // ---------------------------------------------------------------------

  // Each acceptance condition on a non-empty log splits into a condition on
  // its first record and the same condition on the rest.

  lemma ValidShift(p: Platform, rt: byte, rs: seq<Record>)
    requires |rs| > 0
    ensures (forall i | 0 <= i < |rs| :: RecordValid(p, rt, rs[i])) <==>
      RecordValid(p, rt, rs[0]) && forall i | 0 <= i < |rs[1..]| :: RecordValid(p, rt, rs[1..][i])
  {
    if RecordValid(p, rt, rs[0]) && forall i | 0 <= i < |rs[1..]| :: RecordValid(p, rt, rs[1..][i]) {
      forall i | 0 <= i < |rs| ensures RecordValid(p, rt, rs[i]) {
        if i > 0 { assert rs[i] == rs[1..][i - 1]; }
      }
    }
  }

  lemma SeparatorShift(p: Platform, rs: seq<Record>)
    requires |rs| > 0
    ensures SeparatorLast(p, rs) <==>
      (|rs| > 1 ==> !IsEventOf(p, rs[0], LaunchSeparatorType)) && SeparatorLast(p, rs[1..])
  {
  }

  lemma NoEventShift(p: Platform, rs: seq<Record>, t: CosEventType)
    requires |rs| > 0
    ensures NoEventOf(p, rs, t) <==> !IsEventOf(p, rs[0], t) && NoEventOf(p, rs[1..], t)
  {
  }

  lemma SetAtMostOnceShift(p: Platform, rs: seq<Record>, f: OnceField)
    requires |rs| > 0
    ensures SetAtMostOnce(p, rs, f) <==>
      && SetAtMostOnce(p, rs[1..], f)
      && (IsEventOf(p, rs[0], EventFor(f)) && PayloadOf(p, rs[0]) != [] ==> NoEventOf(p, rs[1..], EventFor(f)))
  {
  }

  /** One successful step moves the acceptance condition one record on. */
  lemma AcceptedFromStep(p: Platform, rt: byte, acc: Replay, rs: seq<Record>, a: Replay)
    requires |rs| > 0 && Step(p, rt, acc, rs[0]) == Ok(a)
    ensures AcceptedFrom(p, rt, a, rs[1..]) <==> AcceptedFrom(p, rt, acc, rs)
  {
    var r := rs[0];
    var rest := rs[1..];
    var tlv := Admit(p, rt, r).value;
    ValidShift(p, rt, rs);
    SeparatorShift(p, rs);
    assert a.seenSeparator <==> IsEventOf(p, r, LaunchSeparatorType);
    forall f: OnceField
      ensures (OnceValue(a.cos, f) != [] ==> NoEventOf(p, rest, EventFor(f))) && SetAtMostOnce(p, rest, f)
          <==> (OnceValue(acc.cos, f) != [] ==> NoEventOf(p, rs, EventFor(f))) && SetAtMostOnce(p, rs, f)
    {
      SetAtMostOnceShift(p, rs, f);
      NoEventShift(p, rs, EventFor(f));
      if tlv.eventType != EventFor(f) {
        assert Agree(acc.cos, a.cos, f);
      }
    }
  }

  /** A successful replay from `acc` had an acceptable log. */
  lemma {:induction false} ReplayOkAccepted(p: Platform, rt: byte, acc: Replay, rs: seq<Record>)
    requires ReplayFrom(p, rt, acc, rs).Ok?
    ensures AcceptedFrom(p, rt, acc, rs)
    decreases |rs|
  {
    if rs != [] {
      var a := Step(p, rt, acc, rs[0]).value;
      ReplayOkAccepted(p, rt, a, rs[1..]);
      AcceptedFromStep(p, rt, acc, rs, a);
    }
  }

  /** An acceptable log replays successfully from `acc`. */
  lemma {:induction false} AcceptedReplayOk(p: Platform, rt: byte, acc: Replay, rs: seq<Record>)
    requires AcceptedFrom(p, rt, acc, rs)
    ensures ReplayFrom(p, rt, acc, rs).Ok?
    decreases |rs|
  {
    if rs != [] {
      var r := rs[0];
      match Step(p, rt, acc, r)
      case Err(_) =>
        assert false;
      case Ok(a) =>
        AcceptedFromStep(p, rt, acc, rs, a);
        AcceptedReplayOk(p, rt, a, rs[1..]);
    }
  }

  // ---------------------------------------------------------------------
  // The replay of a whole log
  // ---------------------------------------------------------------------

  /** A log replays successfully exactly when every record passes the
      register, decode, digest and event checks, a launch separator is at
      most the last record, and each image field is set by at most one
      event with a non-empty payload, that event being the last for it. */
  lemma VerifiedIffAccepted(p: Platform, rt: byte, rs: seq<Record>)
    ensures VerifiedCosState(p, rt, rs).Ok? <==> Accepted(p, rt, rs)
  {
    assert forall f: OnceField :: OnceValue(Start.cos, f) == [];
    if VerifiedCosState(p, rt, rs).Ok? {
      ReplayOkAccepted(p, rt, Start, rs);
    }
    if Accepted(p, rt, rs) {
      AcceptedReplayOk(p, rt, Start, rs);
    }
  }

  /** Any record after a launch separator fails the replay, another
      separator included. */
  lemma EventAfterSeparatorFails(p: Platform, rt: byte, rs: seq<Record>, i: nat)
    requires i < |rs| - 1 && IsEventOf(p, rs[i], LaunchSeparatorType)
    ensures VerifiedCosState(p, rt, rs).Err?
  {
    VerifiedIffAccepted(p, rt, rs);
  }

  /** A second event for an image field fails the replay when the first one
      set the field to a non-empty value, whatever the payloads. */
  lemma SecondImageEventFails(p: Platform, rt: byte, rs: seq<Record>, f: OnceField, i: nat, j: nat)
    requires i < j < |rs|
    requires IsEventOf(p, rs[i], EventFor(f)) && IsEventOf(p, rs[j], EventFor(f))
    requires PayloadOf(p, rs[i]) != []
    ensures VerifiedCosState(p, rt, rs).Err?
  {
    VerifiedIffAccepted(p, rt, rs);
    assert !SetAtMostOnce(p, rs, f);
  }

  /** On success each image field holds the payload of the last event for
      it, and is empty if there was none. */
  lemma ImageFieldsFromLastEvent(p: Platform, rt: byte, rs: seq<Record>, s: AttestedCosState, f: OnceField)
    requires VerifiedCosState(p, rt, rs) == Ok(s)
    ensures OnceValue(s, f) ==
      match LastPayload(p, rs, EventFor(f))
      case Some(v) => v
      case None => []
  {
    ReplayOnceFields(p, rt, Start, rs);
  }

  /** On success the restart policy is the table value of the last
      restart-policy event, and the zero value if there was none. */
  lemma RestartPolicyFromLastEvent(p: Platform, rt: byte, rs: seq<Record>)
    requires VerifiedCosState(p, rt, rs).Ok?
    ensures var s := VerifiedCosState(p, rt, rs).value;
      match LastPayload(p, rs, RestartPolicyType)
      case Some(v) => v in p.restartPolicyValue && s.container.restartPolicy == p.restartPolicyValue[v]
      case None => s.container.restartPolicy == 0
  {
    ReplayRestartPolicy(p, rt, Start, rs);
  }

  /** On success the argument lists are the payloads of their events in log
      order, repeats kept. */
  lemma ArgsInLogOrder(p: Platform, rt: byte, rs: seq<Record>)
    requires VerifiedCosState(p, rt, rs).Ok?
    ensures VerifiedCosState(p, rt, rs).value.container.args == Payloads(p, rs, ArgType)
    ensures VerifiedCosState(p, rt, rs).value.container.overriddenArgs == Payloads(p, rs, OverrideArgType)
  {
    ListFieldInLogOrder(p, rt, rs, Args);
    ListFieldInLogOrder(p, rt, rs, OverriddenArgs);
  }

  /** On success an argument list is the payloads of its events in log
      order. */
  lemma ListFieldInLogOrder(p: Platform, rt: byte, rs: seq<Record>, f: ListField)
    requires VerifiedCosState(p, rt, rs).Ok?
    ensures ListOf(VerifiedCosState(p, rt, rs).value, f) == Payloads(p, rs, EventFor(f))
  {
    ReplayListField(p, rt, Start, rs, f);
    assert ListOf(Start.cos, f) == [];
  }

  /** On success an environment map has exactly one entry per distinct
      name its events gave. */
  lemma EnvVarNames(p: Platform, rt: byte, rs: seq<Record>, s: AttestedCosState, f: MapField)
    requires VerifiedCosState(p, rt, rs) == Ok(s)
    ensures MapOf(s, f).Keys == EnvNames(p, rs, EventFor(f))
  {
    ReplayMapField(p, rt, Start, rs, f);
    assert MapOf(Start.cos, f) == map[];
  }

  /** On success an environment map's size is the number of distinct names
      its events gave, so a repeated name does not grow it. */
  lemma EnvVarCount(p: Platform, rt: byte, rs: seq<Record>, s: AttestedCosState, f: MapField)
    requires VerifiedCosState(p, rt, rs) == Ok(s)
    ensures |MapOf(s, f)| == |EnvNames(p, rs, EventFor(f))|
  {
    EnvVarNames(p, rt, rs, s, f);
  }

  /** On success each name in an environment map holds the value of the
      last event for that name. */
  lemma EnvVarsLastWins(p: Platform, rt: byte, rs: seq<Record>, s: AttestedCosState, f: MapField, n: Bytes)
    requires VerifiedCosState(p, rt, rs) == Ok(s) && n in MapOf(s, f)
    ensures LastEnvValue(p, rs, EventFor(f), n) == Some(MapOf(s, f)[n])
  {
    ReplayMapField(p, rt, Start, rs, f);
    assert MapOf(Start.cos, f) == map[];
  }

  /** On success a name missing from an environment map is one that no
      event for that map gave a value to. */
  lemma EnvVarsAbsent(p: Platform, rt: byte, rs: seq<Record>, s: AttestedCosState, f: MapField, n: Bytes)
    requires VerifiedCosState(p, rt, rs) == Ok(s) && n !in MapOf(s, f)
    ensures LastEnvValue(p, rs, EventFor(f), n) == None
  {
    EnvVarNames(p, rt, rs, s, f);
    LastEnvValueNamed(p, rs, EventFor(f), n);
  }

  /** A name has a last value exactly when some event named it. */
  lemma {:induction false} LastEnvValueNamed(p: Platform, rs: seq<Record>, t: CosEventType, n: Bytes)
    ensures LastEnvValue(p, rs, t, n).Some? <==> n in EnvNames(p, rs, t)
    decreases |rs|
  {
    if rs != [] {
      LastEnvValueNamed(p, rs[..|rs| - 1], t, n);
    }
  }

  /** On success the memory monitoring flag is unset if no memory monitor
      event occurred, and otherwise enabled exactly when the last such
      event's payload is the single byte 1. */
  lemma MemoryMonitorFromLastEvent(p: Platform, rt: byte, rs: seq<Record>)
    requires VerifiedCosState(p, rt, rs).Ok?
    ensures VerifiedCosState(p, rt, rs).value.healthMonitoring.memoryEnabled ==
      match LastPayload(p, rs, MemoryMonitorType)
      case Some(v) => Some(v == [1])
      case None => None
  {
    ReplayMemoryMonitor(p, rt, Start, rs);
  }

  /** Appending a valid record that is not an image event to a successful
      log without a separator never fails: restart policy, argument,
      environment and memory monitor events may repeat freely. */
  lemma RepeatableEventAppends(p: Platform, rt: byte, rs: seq<Record>, r: Record)
    requires VerifiedCosState(p, rt, rs).Ok? && NoSeparator(p, rs)
    requires RecordValid(p, rt, r)
    requires !IsEventOf(p, r, ImageRefType) && !IsEventOf(p, r, ImageDigestType) && !IsEventOf(p, r, ImageIdType)
    ensures VerifiedCosState(p, rt, rs + [r]).Ok?
  {
    ReplaySnoc(p, rt, Start, rs, r);
    ReplaySeparatorSeen(p, rt, Start, rs);
  }

  /** A log that ends at a launch separator yields the state built before
      the separator. */
  lemma SeparatorEndsReplay(p: Platform, rt: byte, rs: seq<Record>, r: Record)
    requires VerifiedCosState(p, rt, rs).Ok? && NoSeparator(p, rs)
    requires Admitted(p, rt, r) && IsEventOf(p, r, LaunchSeparatorType)
    ensures VerifiedCosState(p, rt, rs + [r]) == VerifiedCosState(p, rt, rs)
  {
    ReplaySnoc(p, rt, Start, rs, r);
    ReplaySeparatorSeen(p, rt, Start, rs);
  }
}
