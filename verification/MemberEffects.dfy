/** What the member and configuration actions do when they go through, and exactly when they do. */
module MemberEffects {
  import opened Outcomes
  import opened Recovery

  /** Nothing but what is recorded of member `id` differs. */
  ghost predicate OnlyMember(s: State, t: State, id: string) {
    && t.config == s.config && t.service == s.service
    && (forall k | k != id ::
          (k in t.info <==> k in s.info) && (k in t.encryptionKeys <==> k in s.encryptionKeys))
    && (forall k | k != id && k in s.info :: t.info[k] == s.info[k])
    && (forall k | k != id && k in s.encryptionKeys :: t.encryptionKeys[k] == s.encryptionKeys[k])
  }

  // ---------------------------------------------------------------- members

  /** `set_member` always goes through: the member is accepted, with the encryption key given or none. */
  lemma SetMemberIs(s: State, id: string, key: Option<string>)
    ensures Next(s, SetMember(id, key)).Some?
    ensures var t := Commit(s, SetMember(id, key));
            && OnlyMember(s, t, id)
            && id in t.info && t.info[id] == Status.Accepted
            && (id in t.encryptionKeys <==> key.Some?)
            && (key.Some? ==> t.encryptionKeys[id] == key.value)
  {}

  /** Every encryption key belongs to a known member. */
  ghost predicate AllKnown(s: State) {
    forall k | k in s.encryptionKeys :: k in s.info
  }

  /** What must hold for a member to leave. */
  ghost predicate MayLeave(s: State, id: string) {
    IsActiveRecoveryMember(s, id) ==>
      && s.config.Some? && AllKnown(s)
      && s.config.value.recoveryThreshold < |ActiveRecoveryMembers(s)|
  }

  /**
   `remove_member` goes through exactly when the member is no active recovery member, or more of them than the
   threshold are there and known; then nothing is left of the member, and nothing else changes.
  */
  lemma RemoveMemberIs(s: State, id: string)
    ensures Next(s, RemoveMember(id)).Some? <==> MayLeave(s, id)
    ensures var t := Commit(s, RemoveMember(id));
            && OnlyMember(s, t, id)
            && (id !in s.info || !MayLeave(s, id) ==> t == s)
            && (id in s.info && MayLeave(s, id) ==> id !in t.info && id !in t.encryptionKeys)
  {}

  /** A known member that acknowledges is active, with the key it had. */
  lemma AcknowledgeIs(s: State, id: string)
    ensures Next(s, Acknowledge(id)).Some? <==> id in s.info
    ensures var t := Commit(s, Acknowledge(id));
            && OnlyMember(s, t, id) && t.encryptionKeys == s.encryptionKeys
            && (id in t.info <==> id in s.info)
            && (id in s.info ==> t.info[id] == Active)
  {}

  // ---------------------------------------------------------------- configuration

  /** The reconfiguration type is not given, or kept, or goes from one transaction, named or not, to two. */
  predicate MayChangeType(config: Config, to: Option<string>) {
    || to.None?
    || to == config.reconfigurationType
    || (to == Some("TwoTransaction")
        && (config.reconfigurationType.None? || config.reconfigurationType == Some("OneTransaction")))
  }

  /**
   The threshold is not given, or kept, or the service is opening or recovering, or it is open and has that many
   active recovery members, all keys being those of known members.
  */
  ghost predicate MayChangeThreshold(s: State, config: Config, to: Option<int>) {
    || to.None?
    || to.value == config.recoveryThreshold
    || s.service == Some(Opening) || s.service == Some(Recovering)
    || (s.service == Some(Open) && AllKnown(s) && to.value <= |ActiveRecoveryMembers(s)|)
  }

  ghost predicate MayConfigure(s: State, c: NewConfig) {
    && s.config.Some?
    && MayChangeType(s.config.value, c.reconfigurationType)
    && MayChangeThreshold(s, s.config.value, c.recoveryThreshold)
  }

  /** The configuration has every field that was given, and of the others what it had; members are as they were. */
  ghost predicate IsConfigured(s: State, c: NewConfig, t: State)
    requires s.config.Some?
  {
    && t.service == s.service && t.info == s.info && t.encryptionKeys == s.encryptionKeys
    && t.config.Some?
    && t.config.value.reconfigurationType
       == (if c.reconfigurationType.Some? then c.reconfigurationType else s.config.value.reconfigurationType)
    && t.config.value.recoveryThreshold
       == (if c.recoveryThreshold.Some? then c.recoveryThreshold.value else s.config.value.recoveryThreshold)
    && t.config.value.proposalsWindow
       == (if c.proposalsWindow.Some? then c.proposalsWindow else s.config.value.proposalsWindow)
  }

  lemma MayConfigureIff(s: State, c: NewConfig)
    ensures UpdateServiceConfig(s, c).Some? <==> MayConfigure(s, c)
    ensures MayConfigure(s, c) ==> IsConfigured(s, c, UpdateServiceConfig(s, c).value)
  {
    assert Count(s).Some? <==> AllKnown(s);
  }

  /**
   `set_recovery_threshold` goes through exactly when a threshold in 1..254 is given and all that is given may be
   configured; then exactly that is.
  */
  lemma SetRecoveryThresholdIs(s: State, c: NewConfig)
    ensures var step := SetRecoveryThreshold(c);
            && (Next(s, step).Some? <==>
                  c.recoveryThreshold.Some? && 1 <= c.recoveryThreshold.value <= 254 && MayConfigure(s, c))
            && (Next(s, step).Some? ==> IsConfigured(s, c, Commit(s, step)))
            && (Next(s, step).None? ==> Commit(s, step) == s)
  {
    MayConfigureIff(s, c);
  }

  /**
   `set_service_configuration` goes through exactly when a threshold, if given, is in 1..254, a window, if given,
   in 1..10000, and all that is given may be configured; then exactly that is.
  */
  lemma SetServiceConfigurationIs(s: State, c: NewConfig)
    ensures var step := SetServiceConfiguration(c);
            && (Next(s, step).Some? <==>
                  && (c.recoveryThreshold.Some? ==> 1 <= c.recoveryThreshold.value <= 254)
                  && (c.proposalsWindow.Some? ==> 1 <= c.proposalsWindow.value <= 10000)
                  && MayConfigure(s, c))
            && (Next(s, step).Some? ==> IsConfigured(s, c, Commit(s, step)))
            && (Next(s, step).None? ==> Commit(s, step) == s)
  {
    MayConfigureIff(s, c);
  }
}
