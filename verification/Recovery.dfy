/**
 Members and the recovery threshold: the service must be recoverable by its active recovery members,
 that is, by active members with an encryption key.
*/
module Recovery {
  import opened Outcomes

  datatype Status = Accepted | Active
  datatype ServiceStatus = Opening | Open | WaitingForRecoveryShares | Recovering

  datatype Config = Config(recoveryThreshold: int, reconfigurationType: Option<string>, proposalsWindow: Option<int>)

  /** The tables read or written by the member and configuration actions. */
  datatype State = State(
    config: Option<Config>,
    service: Option<ServiceStatus>,
    info: map<string, Status>,
    encryptionKeys: map<string, string>)

  datatype NewConfig = NewConfig(
    reconfigurationType: Option<string>,
    recoveryThreshold: Option<int>,
    proposalsWindow: Option<int>)

  /** The actions, and the platform's own step: a member that acknowledges becomes active. */
  datatype Step =
    | SetRecoveryThreshold(config: NewConfig)
    | SetServiceConfiguration(config: NewConfig)
    | SetMember(id: string, encryptionKey: Option<string>)
    | SetMemberData(id: string)
    | RemoveMember(id: string)
    | Acknowledge(id: string)

  function ActiveRecoveryMembers(s: State): set<string> {
    set k | k in s.encryptionKeys && k in s.info && s.info[k].Active?
  }

  /** Counting throws when an encryption key belongs to nobody known. */
  function Count(s: State): Option<int> {
    if exists k | k in s.encryptionKeys :: k !in s.info then None else Some(|ActiveRecoveryMembers(s)|)
  }

  predicate InBounds(value: Option<int>, low: int, high: int) {
    value.None? || low <= value.value <= high
  }

  /** The two checks on a new configuration. */
  predicate MayReconfigure(from: Option<string>, to: Option<string>) {
    from == to || to.None? || ((from.None? || from == Some("OneTransaction")) && to == Some("TwoTransaction"))
  }

  predicate MaySetThreshold(s: State, config: Config, to: Option<int>) {
    || to.None? || to.value == config.recoveryThreshold
    || (match s.service
        case None => false
        case Some(WaitingForRecoveryShares) => false
        case Some(Open) => Count(s).Some? && to.value <= Count(s).value
        case Some(_) => true)
  }

  /** `updateServiceConfig`: all checks first, then all updates; `None` where it throws. */
  function UpdateServiceConfig(s: State, c: NewConfig): Option<State> {
    if s.config.None? then None
    else
      var config := s.config.value;
      if !MayReconfigure(config.reconfigurationType, c.reconfigurationType) then None
      else if !MaySetThreshold(s, config, c.recoveryThreshold) then None
      else
        var a := if c.reconfigurationType.Some? then config.(reconfigurationType := c.reconfigurationType) else config;
        var b := if c.recoveryThreshold.Some? then a.(recoveryThreshold := c.recoveryThreshold.value) else a;
        var d := if c.proposalsWindow.Some? then b.(proposalsWindow := c.proposalsWindow) else b;
        Some(s.(config := Some(d)))
  }

  predicate IsActiveRecoveryMember(s: State, id: string) {
    id in s.info && s.info[id].Active? && id in s.encryptionKeys
  }

  /** `remove_member`: an unknown member is left alone; an active recovery member may go if enough remain. */
  function Remove(s: State, id: string): Option<State> {
    if id !in s.info then Some(s)
    else if IsActiveRecoveryMember(s, id)
         && (s.config.None? || Count(s).None? || Count(s).value - 1 < s.config.value.recoveryThreshold) then None
    else Some(s.(info := s.info - {id}, encryptionKeys := s.encryptionKeys - {id}))
  }

  function Next(s: State, step: Step): Option<State> {
    match step
    case SetRecoveryThreshold(c) =>
      if c.recoveryThreshold.None? || !InBounds(c.recoveryThreshold, 1, 254) then None else UpdateServiceConfig(s, c)
    case SetServiceConfiguration(c) =>
      if !InBounds(c.recoveryThreshold, 1, 254) || !InBounds(c.proposalsWindow, 1, 10000) then None
      else UpdateServiceConfig(s, c)
    case SetMember(id, key) =>
      Some(s.(info := s.info[id := Status.Accepted],
              encryptionKeys := if key.None? then s.encryptionKeys - {id} else s.encryptionKeys[id := key.value]))
    case SetMemberData(id) => if id in s.info then Some(s) else None
    case RemoveMember(id) => Remove(s, id)
    case Acknowledge(id) => if id in s.info then Some(s.(info := s.info[id := Active])) else None
  }

  /** A step that throws commits nothing. */
  function Commit(s: State, step: Step): State {
    match Next(s, step) case None => s case Some(t) => t
  }

  function CommitAll(s: State, run: seq<Step>): State
    decreases run
  {
    if run == [] then s else CommitAll(Commit(s, run[0]), run[1..])
  }

  /** Open, configured, every encryption key known, and enough active recovery members. */
  ghost predicate Recoverable(s: State) {
    && s.service == Some(Open) && s.config.Some?
    && (forall k | k in s.encryptionKeys :: k in s.info)
    && s.config.value.recoveryThreshold <= |ActiveRecoveryMembers(s)|
  }

  /** Setting a member takes it out of the active recovery members and leaves the others. */
  lemma SetMemberEffect(s: State, id: string, key: Option<string>)
    ensures var t := Commit(s, SetMember(id, key));
            && ActiveRecoveryMembers(t) == ActiveRecoveryMembers(s) - {id}
            && |ActiveRecoveryMembers(s)| == |ActiveRecoveryMembers(t)| + if IsActiveRecoveryMember(s, id) then 1 else 0
  {
    var t := Commit(s, SetMember(id, key));
    assert ActiveRecoveryMembers(t) == ActiveRecoveryMembers(s) - {id};
    assert IsActiveRecoveryMember(s, id) <==> id in ActiveRecoveryMembers(s);
  }

  /**
   Re-registering a member makes it merely accepted, without the check that removing it would make: the
   service stays recoverable exactly when it was not an active recovery member, or one more than the
   threshold are there.
  */
  lemma SetMemberKeepsIff(s: State, id: string, key: Option<string>)
    requires Recoverable(s)
    ensures Recoverable(Commit(s, SetMember(id, key))) <==>
            !IsActiveRecoveryMember(s, id) || s.config.value.recoveryThreshold < |ActiveRecoveryMembers(s)|
  {
    SetMemberEffect(s, id, key);
  }

  lemma RemoveKeepsRecoverable(s: State, id: string)
    requires Recoverable(s)
    ensures Recoverable(Commit(s, RemoveMember(id)))
  {
    if id in s.info && Remove(s, id).Some? {
      var t := Remove(s, id).value;
      assert ActiveRecoveryMembers(t) == ActiveRecoveryMembers(s) - {id};
      assert IsActiveRecoveryMember(s, id) <==> id in ActiveRecoveryMembers(s);
    }
  }

  lemma AcknowledgeKeepsRecoverable(s: State, id: string)
    requires Recoverable(s)
    ensures Recoverable(Commit(s, Acknowledge(id)))
  {
    if id in s.info {
      var before, after := ActiveRecoveryMembers(s), ActiveRecoveryMembers(Commit(s, Acknowledge(id)));
      var added := after - before;
      assert after == before + added && before !! added;
    }
  }

  lemma ReconfigureKeepsRecoverable(s: State, c: NewConfig)
    requires Recoverable(s) && UpdateServiceConfig(s, c).Some?
    ensures Recoverable(UpdateServiceConfig(s, c).value)
  {
    assert ActiveRecoveryMembers(UpdateServiceConfig(s, c).value) == ActiveRecoveryMembers(s);
  }

  lemma StepKeepsRecoverable(s: State, step: Step)
    requires Recoverable(s)
    requires step.SetMember? ==> !IsActiveRecoveryMember(s, step.id)
    ensures Recoverable(Commit(s, step))
  {
    match step
    case SetMember(id, key) => SetMemberKeepsIff(s, id, key);
    case RemoveMember(id) => RemoveKeepsRecoverable(s, id);
    case Acknowledge(id) =>
      AcknowledgeKeepsRecoverable(s, id);
    case SetMemberData(_) =>
    case SetRecoveryThreshold(c) =>
      if Next(s, step).Some? { ReconfigureKeepsRecoverable(s, c); }
    case SetServiceConfiguration(c) =>
      if Next(s, step).Some? { ReconfigureKeepsRecoverable(s, c); }
  }

  /** Along the run no active recovery member is registered anew. */
  ghost predicate NoActiveReset(s: State, run: seq<Step>)
    decreases run
  {
    run != [] ==>
      && (run[0].SetMember? ==> !IsActiveRecoveryMember(s, run[0].id))
      && NoActiveReset(Commit(s, run[0]), run[1..])
  }

  /** Over every such run the service stays recoverable, and counting never throws. */
  lemma {:induction false} RunKeepsRecoverable(s: State, run: seq<Step>)
    requires Recoverable(s) && NoActiveReset(s, run)
    ensures Recoverable(CommitAll(s, run)) && Count(CommitAll(s, run)).Some?
    decreases run
  {
    if run == [] {
    } else {
      StepKeepsRecoverable(s, run[0]);
      RunKeepsRecoverable(Commit(s, run[0]), run[1..]);
    }
  }

  // ---------------------------------------------------------------- what the configuration can hold

  predicate ConfigInBounds(s: State) {
    s.config.Some? ==>
      && 1 <= s.config.value.recoveryThreshold <= 254
      && InBounds(s.config.value.proposalsWindow, 1, 10000)
  }

  /** Requests that pass a window out of bounds along with a threshold. */
  predicate CarriesUncheckedWindow(step: Step) {
    step.SetRecoveryThreshold? && !InBounds(step.config.proposalsWindow, 1, 10000)
  }

  /** The guards of `set_recovery_threshold`, none of which looks at the proposals window. */
  predicate PassesThresholdChecks(s: State, c: NewConfig) {
    && s.config.Some?
    && c.recoveryThreshold.Some? && 1 <= c.recoveryThreshold.value <= 254
    && MayReconfigure(s.config.value.reconfigurationType, c.reconfigurationType)
    && MaySetThreshold(s, s.config.value, c.recoveryThreshold)
  }

  lemma ThresholdPassesIff(s: State, c: NewConfig)
    ensures Next(s, SetRecoveryThreshold(c)).Some? <==> PassesThresholdChecks(s, c)
  {}

  /**
   A configuration in bounds stays so exactly unless the request carries a window of proposals that
   `set_service_configuration` would have refused, and passes the guards of `set_recovery_threshold`.
  */
  lemma StepKeepsBoundsIff(s: State, step: Step)
    requires ConfigInBounds(s)
    ensures ConfigInBounds(Commit(s, step)) <==>
            !(CarriesUncheckedWindow(step) && PassesThresholdChecks(s, step.config))
  {
    match step
    case SetRecoveryThreshold(c) =>
      ThresholdPassesIff(s, c);
      if PassesThresholdChecks(s, c) {
        var after := Commit(s, step).config.value;
        assert after.recoveryThreshold == c.recoveryThreshold.value;
        assert c.proposalsWindow.Some? ==> after.proposalsWindow == c.proposalsWindow;
      }
    case _ =>
  }

  /**
   Two recovery members, threshold 2: a request for threshold 1 that carries a window of no proposals at all
   is committed, and refused by `set_service_configuration`.
  */
  lemma WindowOfZeroIsCommitted(a: string, b: string, key: string)
    requires a != b
    ensures var s := State(
              Some(Config(2, None, Some(5))), Some(Open), map[a := Active, b := Active], map[a := key, b := key]);
            var request := NewConfig(None, Some(1), Some(0));
            && Recoverable(s) && ConfigInBounds(s)
            && Commit(s, SetRecoveryThreshold(request)).config == Some(Config(1, None, Some(0)))
            && Next(s, SetServiceConfiguration(request)).None?
  {
    var s := State(
      Some(Config(2, None, Some(5))), Some(Open), map[a := Active, b := Active], map[a := key, b := key]);
    assert ActiveRecoveryMembers(s) == {a, b};
  }

  /** Over every run without such requests the threshold stays in 1..254 and the window in 1..10000. */
  lemma {:induction false} RunKeepsBounds(s: State, run: seq<Step>)
    requires ConfigInBounds(s) && forall step | step in run :: !CarriesUncheckedWindow(step)
    ensures ConfigInBounds(CommitAll(s, run))
    decreases run
  {
    if run == [] {
    } else {
      StepKeepsBoundsIff(s, run[0]);
      RunKeepsBounds(Commit(s, run[0]), run[1..]);
    }
  }

  // ---------------------------------------------------------------- the tables in place

  class Tables {
    var config: Option<Config>
    var service: Option<ServiceStatus>
    var info: map<string, Status>
    var encryptionKeys: map<string, string>

    constructor (s: State)
      ensures View() == s
    {
      config, service, info, encryptionKeys := s.config, s.service, s.info, s.encryptionKeys;
    }

    function View(): State
      reads this
    {
      State(config, service, info, encryptionKeys)
    }

    method GetActiveRecoveryMembersCount() returns (r: Option<int>)
      ensures r == Count(View())
    {
      var activeRecoveryMembersCount := 0;
      var todo := encryptionKeys.Keys;
      ghost var counted: set<string> := {};
      while todo != {}
        invariant todo <= encryptionKeys.Keys
        invariant forall k | k in encryptionKeys && k !in todo :: k in info
        invariant counted == set k | k in encryptionKeys && k !in todo && k in info && info[k].Active?
        invariant activeRecoveryMembersCount == |counted|
        decreases todo
      {
        var k :| k in todo;
        if k !in info { return None; }
        if info[k].Active? {
          activeRecoveryMembersCount := activeRecoveryMembersCount + 1;
          counted := counted + {k};
        }
        todo := todo - {k};
      }
      assert counted == ActiveRecoveryMembers(View());
      r := Some(activeRecoveryMembersCount);
    }

    method CheckRecoveryThreshold(current: Config, to: Option<int>) returns (ok: bool)
      ensures ok == MaySetThreshold(View(), current, to)
    {
      if to.None? || to.value == current.recoveryThreshold { return true; }
      if service.None? { return false; }
      if service.value.WaitingForRecoveryShares? { return false; }
      if service.value.Open? {
        var count := GetActiveRecoveryMembersCount();
        return count.Some? && to.value <= count.value;
      }
      ok := true;
    }

    method UpdateConfig(c: NewConfig) returns (ok: bool)
      modifies this`config
      ensures ok == UpdateServiceConfig(old(View()), c).Some?
      ensures View() == match UpdateServiceConfig(old(View()), c) { case None => old(View()) case Some(t) => t }
    {
      if config.None? { return false; }
      var current := config.value;
      if !MayReconfigure(current.reconfigurationType, c.reconfigurationType) { return false; }
      ok := CheckRecoveryThreshold(current, c.recoveryThreshold);
      if !ok { return; }
      if c.reconfigurationType.Some? {
        current := current.(reconfigurationType := c.reconfigurationType);
      }
      if c.recoveryThreshold.Some? && c.recoveryThreshold.value != current.recoveryThreshold {
        current := current.(recoveryThreshold := c.recoveryThreshold.value);
      }
      if c.proposalsWindow.Some? {
        current := current.(proposalsWindow := c.proposalsWindow);
      }
      config := Some(current);
    }

    /** All fields of the request are passed on, though only the threshold was checked. */
    method SetRecoveryThresholdAction(c: NewConfig) returns (ok: bool)
      modifies this`config
      ensures ok == Next(old(View()), SetRecoveryThreshold(c)).Some?
      ensures View() == Commit(old(View()), SetRecoveryThreshold(c))
    {
      if c.recoveryThreshold.None? || !InBounds(c.recoveryThreshold, 1, 254) { return false; }
      ok := UpdateConfig(c);
    }

    method SetServiceConfigurationAction(c: NewConfig) returns (ok: bool)
      modifies this`config
      ensures ok == Next(old(View()), SetServiceConfiguration(c)).Some?
      ensures View() == Commit(old(View()), SetServiceConfiguration(c))
    {
      if !InBounds(c.recoveryThreshold, 1, 254) || !InBounds(c.proposalsWindow, 1, 10000) { return false; }
      ok := UpdateConfig(c);
    }

    method SetMemberAction(id: string, encryptionKey: Option<string>)
      modifies this`info, this`encryptionKeys
      ensures View() == Commit(old(View()), SetMember(id, encryptionKey))
    {
      if encryptionKey.None? {
        encryptionKeys := encryptionKeys - {id};
      } else {
        encryptionKeys := encryptionKeys[id := encryptionKey.value];
      }
      info := info[id := Status.Accepted];
    }

    method RemoveMemberAction(id: string) returns (ok: bool)
      modifies this`info, this`encryptionKeys
      ensures ok == Next(old(View()), RemoveMember(id)).Some?
      ensures View() == Commit(old(View()), RemoveMember(id))
    {
      if id !in info { return true; }
      var isActiveMember := info[id].Active?;
      var isRecoveryMember := id in encryptionKeys;
      if isActiveMember && isRecoveryMember {
        if config.None? { return false; }
        var count := GetActiveRecoveryMembersCount();
        if count.None? { return false; }
        if count.value - 1 < config.value.recoveryThreshold { return false; }
      }
      info := info - {id};
      encryptionKeys := encryptionKeys - {id};
      ok := true;
    }
  }
}
