/** Node admission and retirement, and the certificates the service endorses for nodes. */
module Nodes {
  import opened Outcomes

  datatype Status = Pending | Trusted | Retired

  datatype Node = Node(status: Status, csr: Option<string>)

  /** An endorsed certificate: what was signed, from when, and for how many days. */
  datatype Cert = Cert(csr: string, validFrom: string, days: int)

  const DEFAULT_VALIDITY_DAYS := 365

  datatype Config = Config(maximumNodeCertificateValidityDays: Option<int>)

  datatype State = State(config: Option<Config>, nodes: map<string, Node>, certs: map<string, Cert>)

  /** The actions, and the platform's own step: a new node asks to join. */
  datatype Step =
    | Join(id: string, csr: Option<string>)
    | TransitionToTrusted(id: string, validFrom: string, days: Option<int>)
    | RemoveNode(id: string)
    | SetCertificateValidity(id: string, validFrom: string, days: Option<int>)
    | SetAllCertificateValidity(validFrom: string, days: Option<int>)

  function MaxDays(config: Config): int {
    match config.maximumNodeCertificateValidityDays case None => DEFAULT_VALIDITY_DAYS case Some(d) => d
  }

  /** A certificate for the requested days, or the maximum; `None` where more is asked than allowed. */
  function Endorse(config: Config, csr: string, validFrom: string, days: Option<int>): Option<Cert> {
    if days.Some? && days.value > MaxDays(config) then None
    else Some(Cert(csr, validFrom, if days.Some? then days.value else MaxDays(config)))
  }

  predicate ValidDays(days: Option<int>) {
    days.None? || days.value >= 1
  }

  function Transition(s: State, id: string, validFrom: string, days: Option<int>): Option<State> {
    if s.config.None? || id !in s.nodes then None
    else if s.nodes[id].status != Pending then Some(s)
    else
      var t := s.(nodes := s.nodes[id := s.nodes[id].(status := Trusted)]);
      if s.nodes[id].csr.None? then Some(t)
      else
        match Endorse(s.config.value, s.nodes[id].csr.value, validFrom, days)
        case None => None
        case Some(cert) => Some(t.(certs := s.certs[id := cert]))
  }

  /** `setNodeCertificateValidityPeriod` for one node. */
  function Renewed(s: State, node: Node, validFrom: string, days: Option<int>): Option<Cert> {
    if node.csr.None? || s.config.None? then None else Endorse(s.config.value, node.csr.value, validFrom, days)
  }

  function SetValidity(s: State, id: string, validFrom: string, days: Option<int>): Option<State> {
    if id !in s.nodes || s.nodes[id].status != Trusted then None
    else
      match Renewed(s, s.nodes[id], validFrom, days)
      case None => None
      case Some(cert) => Some(s.(certs := s.certs[id := cert]))
  }

  function TrustedIds(s: State): set<string> {
    set id | id in s.nodes && s.nodes[id].status == Trusted
  }

  /** All trusted nodes are renewed, or, if one cannot be, none is. */
  function SetAllValidity(s: State, validFrom: string, days: Option<int>): Option<State> {
    if exists id | id in TrustedIds(s) :: Renewed(s, s.nodes[id], validFrom, days).None? then None
    else Some(s.(certs := s.certs + map id | id in TrustedIds(s) :: Renewed(s, s.nodes[id], validFrom, days).value))
  }

  function Remove(s: State, id: string): Option<State> {
    if s.config.None? then None
    else if id !in s.nodes then Some(s)
    else if s.nodes[id].status == Pending then Some(s.(nodes := s.nodes - {id}))
    else Some(s.(nodes := s.nodes[id := s.nodes[id].(status := Retired)]))
  }

  function Next(s: State, step: Step): Option<State> {
    match step
    case Join(id, csr) => if id in s.nodes then None else Some(s.(nodes := s.nodes[id := Node(Pending, csr)]))
    case TransitionToTrusted(id, from, days) => if ValidDays(days) then Transition(s, id, from, days) else None
    case RemoveNode(id) => Remove(s, id)
    case SetCertificateValidity(id, from, days) => if ValidDays(days) then SetValidity(s, id, from, days) else None
    case SetAllCertificateValidity(from, days) => if ValidDays(days) then SetAllValidity(s, from, days) else None
  }

  function Commit(s: State, step: Step): State {
    match Next(s, step) case None => s case Some(t) => t
  }

  function CommitAll(s: State, run: seq<Step>): State
    decreases run
  {
    if run == [] then s else CommitAll(Commit(s, run[0]), run[1..])
  }

  /**
   Certificates exist exactly for the trusted and retired nodes that brought a signing request, are made
   out for that request, and never run longer than the service allows.
  */
  ghost predicate Inv(s: State) {
    && s.config.Some?
    && (forall id :: id in s.certs <==> id in s.nodes && s.nodes[id].status != Pending && s.nodes[id].csr.Some?)
    && (forall id | id in s.certs ::
          s.nodes[id].csr == Some(s.certs[id].csr) && s.certs[id].days <= MaxDays(s.config.value))
  }

  /** A new service: one trusted node, with the certificate the platform gave it. */
  function Genesis(config: Config, id: string, cert: Cert): State {
    State(Some(config), map[id := Node(Trusted, Some(cert.csr))], map[id := cert])
  }

  /** A new service keeps the invariant from the start, if its first certificate is within the maximum. */
  lemma GenesisInvIff(config: Config, id: string, cert: Cert)
    ensures Inv(Genesis(config, id, cert)) <==> cert.days <= MaxDays(config)
  {
    var s := Genesis(config, id, cert);
    assert id in s.certs && s.certs[id] == cert;
  }

  /** The moves of one node in one step: to trusted, to retired, or away while still pending. */
  predicate LegalMove(s: State, t: State, id: string) {
    if id !in s.nodes then id in t.nodes ==> t.nodes[id].status == Pending
    else match s.nodes[id].status
         case Pending => id in t.nodes ==> t.nodes[id].status != Retired
         case Trusted => id in t.nodes && t.nodes[id].status != Pending
         case Retired => id in t.nodes && t.nodes[id].status == Retired
  }

  lemma TransitionKeepsInv(s: State, id: string, validFrom: string, days: Option<int>)
    requires Inv(s) && Transition(s, id, validFrom, days).Some?
    ensures var t := Transition(s, id, validFrom, days).value;
            Inv(t) && t.config == s.config && forall k :: LegalMove(s, t, k)
  {}

  lemma RemoveKeepsInv(s: State, id: string)
    requires Inv(s) && Remove(s, id).Some?
    ensures var t := Remove(s, id).value;
            Inv(t) && t.config == s.config && forall k :: LegalMove(s, t, k)
  {}

  lemma RenewKeepsInv(s: State, step: Step)
    requires Inv(s) && (step.SetCertificateValidity? || step.SetAllCertificateValidity?)
    ensures Inv(Commit(s, step)) && Commit(s, step).(certs := s.certs) == s
    ensures forall k :: LegalMove(s, Commit(s, step), k)
  {}

  lemma StepKeepsInv(s: State, step: Step)
    requires Inv(s)
    ensures Inv(Commit(s, step)) && Commit(s, step).config == s.config
    ensures forall id :: LegalMove(s, Commit(s, step), id)
  {
    match step
    case Join(_, _) =>
    case TransitionToTrusted(id, from, days) =>
      if Next(s, step).Some? { TransitionKeepsInv(s, id, from, days); }
    case RemoveNode(id) =>
      if Next(s, step).Some? { RemoveKeepsInv(s, id); }
    case _ => RenewKeepsInv(s, step);
  }

  /** What a node has passed is never undone, and a certificate once there stays, for the same request. */
  ghost predicate Advances(s: State, t: State) {
    && t.config == s.config
    && (forall id | id in s.nodes && s.nodes[id].status == Trusted ::
          id in t.nodes && t.nodes[id].status != Pending && t.nodes[id].csr == s.nodes[id].csr)
    && (forall id | id in s.nodes && s.nodes[id].status == Retired :: id in t.nodes && t.nodes[id] == s.nodes[id])
    && (forall id | id in s.certs :: id in t.certs && t.certs[id].csr == s.certs[id].csr)
  }

  lemma RemoveAdvances(s: State, id: string)
    requires Inv(s)
    ensures Advances(s, Commit(s, RemoveNode(id)))
  {}

  lemma RenewAllAdvances(s: State, validFrom: string, days: Option<int>)
    requires Inv(s)
    ensures Advances(s, Commit(s, SetAllCertificateValidity(validFrom, days)))
  {}

  lemma StepAdvances(s: State, step: Step)
    requires Inv(s)
    ensures Advances(s, Commit(s, step))
  {
    match step
    case RemoveNode(id) => RemoveAdvances(s, id);
    case SetAllCertificateValidity(from, days) => RenewAllAdvances(s, from, days);
    case _ =>
  }

  /** Over every run. */
  lemma {:induction false} RunKeepsInv(s: State, run: seq<Step>)
    requires Inv(s)
    ensures Inv(CommitAll(s, run)) && Advances(s, CommitAll(s, run))
    decreases run
  {
    if run == [] {
    } else {
      StepKeepsInv(s, run[0]);
      StepAdvances(s, run[0]);
      RunKeepsInv(Commit(s, run[0]), run[1..]);
    }
  }

  /** From a new service on. */
  lemma ServiceKeepsInv(config: Config, id: string, cert: Cert, run: seq<Step>)
    requires cert.days <= MaxDays(config)
    ensures Inv(CommitAll(Genesis(config, id, cert), run))
  {
    GenesisInvIff(config, id, cert);
    RunKeepsInv(Genesis(config, id, cert), run);
  }

  /** Renewing all either gives every trusted node a new certificate of the same length, or changes nothing. */
  lemma RenewAllIsAllOrNothing(s: State, validFrom: string, days: Option<int>)
    requires Inv(s)
    ensures var t := Commit(s, SetAllCertificateValidity(validFrom, days));
            || t == s
            || (forall id :: (id in t.certs <==> id in s.certs)
                 && (id in s.certs ==> t.certs[id] == if s.nodes[id].status == Trusted
                       then Cert(s.certs[id].csr, validFrom, if days.Some? then days.value else MaxDays(s.config.value))
                       else s.certs[id]))
  {}

  /** The certificates once all trusted nodes outside `todo` are renewed. */
  ghost predicate RenewedSoFar(
      s: State, validFrom: string, days: Option<int>, todo: set<string>, certs: map<string, Cert>)
  {
    && certs.Keys == s.certs.Keys + (TrustedIds(s) - todo)
    && (forall id | id in TrustedIds(s) && id !in todo ::
          Renewed(s, s.nodes[id], validFrom, days).Some? && certs[id] == Renewed(s, s.nodes[id], validFrom, days).value)
    && (forall id | id in s.certs && !(id in TrustedIds(s) && id !in todo) :: certs[id] == s.certs[id])
  }

  lemma RenewedAll(s: State, validFrom: string, days: Option<int>, certs: map<string, Cert>)
    requires RenewedSoFar(s, validFrom, days, {}, certs)
    ensures SetAllValidity(s, validFrom, days) == Some(s.(certs := certs))
  {
    var all := SetAllValidity(s, validFrom, days).value.certs;
    assert all.Keys == certs.Keys;
    assert all == certs;
  }

  class Tables {
    var config: Option<Config>
    var nodes: map<string, Node>
    var certs: map<string, Cert>

    constructor (s: State)
      ensures View() == s
    {
      config, nodes, certs := s.config, s.nodes, s.certs;
    }

    function View(): State
      reads this
    {
      State(config, nodes, certs)
    }

    method TransitionNodeToTrusted(id: string, validFrom: string, days: Option<int>) returns (ok: bool)
      modifies this
      ensures ok == Next(old(View()), TransitionToTrusted(id, validFrom, days)).Some?
      ensures View() == Commit(old(View()), TransitionToTrusted(id, validFrom, days))
    {
      if !ValidDays(days) || config.None? || id !in nodes { return false; }
      var saved, nodeInfo := nodes, nodes[id];
      if nodeInfo.status == Pending {
        nodeInfo := nodeInfo.(status := Trusted);
        nodes := nodes[id := nodeInfo];
        if nodeInfo.csr.Some? {
          var cert := Endorse(config.value, nodeInfo.csr.value, validFrom, days);
          if cert.None? {
            nodes := saved;  // the throw discards the write above
            return false;
          }
          certs := certs[id := cert.value];
        }
      }
      ok := true;
    }

    method RemoveNodeAction(id: string) returns (ok: bool)
      modifies this`nodes
      ensures ok == Next(old(View()), RemoveNode(id)).Some?
      ensures View() == Commit(old(View()), RemoveNode(id))
    {
      if config.None? { return false; }
      if id !in nodes { return true; }
      if nodes[id].status == Pending {
        nodes := nodes - {id};
      } else {
        nodes := nodes[id := nodes[id].(status := Retired)];
      }
      ok := true;
    }

    method SetNodeCertificateValidity(id: string, validFrom: string, days: Option<int>) returns (ok: bool)
      modifies this`certs
      ensures ok == Next(old(View()), SetCertificateValidity(id, validFrom, days)).Some?
      ensures View() == Commit(old(View()), SetCertificateValidity(id, validFrom, days))
    {
      if !ValidDays(days) || id !in nodes || nodes[id].status != Trusted { return false; }
      var cert := Renewed(View(), nodes[id], validFrom, days);
      if cert.None? { return false; }
      certs := certs[id := cert.value];
      ok := true;
    }

    /** Node by node, in an order of the platform's own. */
    method SetAllNodesCertificateValidity(validFrom: string, days: Option<int>) returns (ok: bool)
      modifies this`certs
      ensures ok == Next(old(View()), SetAllCertificateValidity(validFrom, days)).Some?
      ensures View() == Commit(old(View()), SetAllCertificateValidity(validFrom, days))
    {
      if !ValidDays(days) { return false; }
      var saved := certs;
      ghost var s := View();
      var todo := nodes.Keys;
      while todo != {}
        invariant todo <= nodes.Keys
        invariant config == s.config && nodes == s.nodes
        invariant RenewedSoFar(s, validFrom, days, todo, certs)
        decreases todo
      {
        var id :| id in todo;
        if nodes[id].status == Trusted {
          var cert := if nodes[id].csr.None? || config.None? then None
                      else Endorse(config.value, nodes[id].csr.value, validFrom, days);
          if cert.None? {
            assert id in TrustedIds(s) && Renewed(s, s.nodes[id], validFrom, days).None?;
            certs := saved;
            return false;
          }
          certs := certs[id := cert.value];
        }
        todo := todo - {id};
      }
      RenewedAll(s, validFrom, days, certs);
      ok := true;
    }
  }
}
