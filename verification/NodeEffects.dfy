/** What the node actions do when they go through, and exactly when they do. */
module NodeEffects {
  import opened Outcomes
  import opened Nodes

  /** Nothing but node `id` and its certificate differs. */
  ghost predicate OnlyNode(s: State, t: State, id: string) {
    && t.config == s.config
    && (forall k | k != id :: (k in t.nodes <==> k in s.nodes) && (k in t.certs <==> k in s.certs))
    && (forall k | k != id && k in s.nodes :: t.nodes[k] == s.nodes[k])
    && (forall k | k != id && k in s.certs :: t.certs[k] == s.certs[k])
  }

  ghost predicate HasStatus(s: State, id: string, status: Status) {
    id in s.nodes && s.nodes[id].status == status
  }

  /** The days a certificate may run, and does run if nothing shorter is asked for. */
  function AllowedDays(config: Config): int {
    if config.maximumNodeCertificateValidityDays.Some? then config.maximumNodeCertificateValidityDays.value else 365
  }

  /** The days asked for, if any, are at least one and not more than the service allows. */
  predicate MayRunFor(config: Config, days: Option<int>) {
    days.Some? ==> 1 <= days.value <= AllowedDays(config)
  }

  function RunsFor(config: Config, days: Option<int>): int {
    if days.Some? then days.value else AllowedDays(config)
  }

  // ---------------------------------------------------------------- retirement

  /**
   In a configured service `remove_node` always goes through: a pending node is gone, a trusted or retired one
   is retired with its signing request, and nothing else changes, no certificate included. Without a
   configuration it changes nothing.
  */
  lemma RemoveNodeIs(s: State, id: string)
    ensures Next(s, RemoveNode(id)).Some? <==> s.config.Some?
    ensures var t := Commit(s, RemoveNode(id));
            && OnlyNode(s, t, id) && t.certs == s.certs
            && (s.config.None? || id !in s.nodes ==> t == s)
            && (s.config.Some? && HasStatus(s, id, Pending) ==> id !in t.nodes)
            && (s.config.Some? && id in s.nodes && s.nodes[id].status != Pending ==>
                  id in t.nodes && t.nodes[id] == Node(Retired, s.nodes[id].csr))
  {}

  lemma RetiredStaysOnce(s: State, step: Step, id: string)
    requires HasStatus(s, id, Retired)
    ensures id in Commit(s, step).nodes && Commit(s, step).nodes[id] == s.nodes[id]
  {}

  /** A retired node stays retired, with its signing request, over every run. */
  lemma {:induction false} RetiredStays(s: State, run: seq<Step>, id: string)
    requires HasStatus(s, id, Retired)
    ensures id in CommitAll(s, run).nodes && CommitAll(s, run).nodes[id] == s.nodes[id]
    decreases run
  {
    if run == [] {
    } else {
      RetiredStaysOnce(s, run[0], id);
      RetiredStays(Commit(s, run[0]), run[1..], id);
    }
  }

  /** So a node once trusted and then removed is retired in every later state. */
  lemma RemovedIsRetiredForever(s: State, id: string, run: seq<Step>)
    requires s.config.Some? && id in s.nodes && s.nodes[id].status != Pending
    ensures var t := CommitAll(Commit(s, RemoveNode(id)), run);
            id in t.nodes && t.nodes[id] == Node(Retired, s.nodes[id].csr)
  {
    RemoveNodeIs(s, id);
    RetiredStays(Commit(s, RemoveNode(id)), run, id);
  }

  // ---------------------------------------------------------------- admission

  /** What must hold for a pending node to be admitted. */
  predicate MayAdmit(s: State, id: string, days: Option<int>) {
    && s.config.Some? && id in s.nodes && s.nodes[id].status == Pending
    && (days.Some? ==> days.value >= 1)
    && (s.nodes[id].csr.Some? ==> MayRunFor(s.config.value, days))
  }

  /**
   After `transition_node_to_trusted` a node is trusted exactly if it was before or could be admitted: a
   configuration, a pending node, and a validity within the maximum if the node has a signing request. It then
   has a certificate for that request, from the date given, and nothing else changes.
  */
  lemma TrustedAfterIff(s: State, id: string, validFrom: string, days: Option<int>)
    ensures var t := Commit(s, TransitionToTrusted(id, validFrom, days));
            && OnlyNode(s, t, id)
            && (HasStatus(t, id, Trusted) <==> HasStatus(s, id, Trusted) || MayAdmit(s, id, days))
            && (!MayAdmit(s, id, days) ==> t == s)
            && (MayAdmit(s, id, days) ==>
                  && id in t.nodes && t.nodes[id] == Node(Trusted, s.nodes[id].csr)
                  && (s.nodes[id].csr.None? ==> t.certs == s.certs)
                  && (s.nodes[id].csr.Some? ==>
                        && id in t.certs
                        && t.certs[id] == Cert(s.nodes[id].csr.value, validFrom, RunsFor(s.config.value, days))))
  {}

  // ---------------------------------------------------------------- renewal

  /** What must hold for the certificate of a node to be renewed. */
  predicate MayRenew(s: State, id: string, days: Option<int>) {
    && s.config.Some? && id in s.nodes && s.nodes[id].status == Trusted && s.nodes[id].csr.Some?
    && MayRunFor(s.config.value, days)
  }

  /** `set_node_certificate_validity` renews one certificate, or throws and changes nothing. */
  lemma RenewOneIs(s: State, id: string, validFrom: string, days: Option<int>)
    ensures var step := SetCertificateValidity(id, validFrom, days);
            && (Next(s, step).Some? <==> MayRenew(s, id, days))
            && OnlyNode(s, Commit(s, step), id) && Commit(s, step).nodes == s.nodes
            && (!MayRenew(s, id, days) ==> Commit(s, step) == s)
            && (MayRenew(s, id, days) ==>
                  && id in Commit(s, step).certs
                  && Commit(s, step).certs[id]
                     == Cert(s.nodes[id].csr.value, validFrom, RunsFor(s.config.value, days)))
  {}

  /** All trusted nodes can be renewed; with none there is nothing to ask but a validity of at least a day. */
  ghost predicate MayRenewAll(s: State, days: Option<int>) {
    && (days.Some? ==> days.value >= 1)
    && forall id | HasStatus(s, id, Trusted) :: MayRenew(s, id, days)
  }

  lemma RenewAllSucceedsIff(s: State, validFrom: string, days: Option<int>)
    ensures Next(s, SetAllCertificateValidity(validFrom, days)).Some? <==> MayRenewAll(s, days)
  {
    forall id | id in TrustedIds(s)
      ensures ValidDays(days) ==> (Renewed(s, s.nodes[id], validFrom, days).Some? <==> MayRenew(s, id, days))
    {}
  }

  /** `set_all_nodes_certificate_validity` renews every trusted node, if all can be renewed, and else none. */
  lemma RenewAllIs(s: State, validFrom: string, days: Option<int>)
    ensures Next(s, SetAllCertificateValidity(validFrom, days)).Some? <==> MayRenewAll(s, days)
    ensures var t := Commit(s, SetAllCertificateValidity(validFrom, days));
            && t.config == s.config && t.nodes == s.nodes
            && (!MayRenewAll(s, days) ==> t == s)
            && (MayRenewAll(s, days) ==> forall id ::
                  && (HasStatus(s, id, Trusted) ==>
                        && MayRenew(s, id, days) && id in t.certs
                        && t.certs[id] == Cert(s.nodes[id].csr.value, validFrom, RunsFor(s.config.value, days)))
                  && (!HasStatus(s, id, Trusted) ==>
                        (id in t.certs <==> id in s.certs) && (id in s.certs ==> t.certs[id] == s.certs[id])))
  {
    RenewAllSucceedsIff(s, validFrom, days);
  }

  /** A node may join only under an id that is free, and is pending then, with its signing request. */
  lemma JoinIs(s: State, id: string, csr: Option<string>)
    ensures var t := Commit(s, Join(id, csr));
            && OnlyNode(s, t, id) && t.certs == s.certs
            && (id in s.nodes ==> t == s)
            && (id !in s.nodes ==> id in t.nodes && t.nodes[id] == Node(Pending, csr))
  {}
}
