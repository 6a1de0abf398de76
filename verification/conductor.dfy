/** The conductor's lists of switches, agents and pending tokens, over everything it may be told. */
module Conductor {
  import opened Lists
  import opened RoundRobin
  import opened Wire

  datatype Role = Unknown | SwitchConn | AgentConn

  datatype Info = Info(role: Role, name: string, network: string)

  datatype PendingToken = PendingToken(agent: string, switch: string, token: uint64)

  /** `infos` are the connection records not yet deleted, `open` the connections in the event queue. */
  datatype State = State(infos: map<nat, Info>, open: set<nat>, switches: seq<nat>, agents: seq<nat>,
                         pending: seq<PendingToken>, rr: nat)

  const START := State(map[], {}, [], [], [], 0)

  /** What a connection brings; `toldAgent` and `toldSwitch` say how the two writes went. */
  datatype Event =
    | Accept(c: nat)
    | SwitchMip(c: nat, name: string, network: string)
    | AgentMip(c: nat, name: string, network: string, token: uint64, toldAgent: bool, toldSwitch: bool)
    | AgentMrp(c: nat, name: string)
    | Closed(c: nat)

  /** The notice sent to the switch that will be asked for the token. */
  datatype Notice = Notice(switch: nat, agent: string, token: uint64)

  /** No list holds a record that has been deleted. */
  predicate Sound(s: State) {
    && (forall i :: 0 <= i < |s.switches| ==> s.switches[i] in s.infos)
    && (forall i :: 0 <= i < |s.agents| ==> s.agents[i] in s.infos)
    && s.open <= s.infos.Keys
  }

  /** Which switches an agent of `network` can reach, in list order. */
  function Reach(s: State, network: string): (r: seq<bool>)
    requires Sound(s)
    ensures |r| == |s.switches|
  {
    seq(|s.switches|, i requires 0 <= i < |s.switches| =>
      var n := s.infos[s.switches[i]].network; n == network || n == "::internet")
  }

  /** `pick_switch`, as an index into the list. */
  function Chosen(s: State, network: string): (i: nat)
    requires Sound(s) && s.switches != []
    ensures i < |s.switches|
  {
    Pick(Reach(s, network), s.rr).0
  }

  function Register(s: State, c: nat, info: Info): State {
    s.(infos := s.infos[c := info])
  }

  function Apply(s: State, e: Event): State
    requires Sound(s)
  {
    match e
    case Accept(c) =>
      if c in s.infos then s else Register(s, c, Info(Unknown, "", "")).(open := s.open + {c})
    case SwitchMip(c, name, network) =>
      if c !in s.open then s
      else Register(s, c, Info(SwitchConn, name, network)).(switches := s.switches + [c])
    case AgentMip(c, name, network, token, toldAgent, toldSwitch) =>
      if c !in s.open then s else AskedBy(s, c, name, network, token, toldAgent && toldSwitch)
    case AgentMrp(c, name) =>
      if c !in s.open then s
      else Register(s, c, s.infos[c].(role := AgentConn, name := name)).(agents := s.agents + [c])
    case Closed(c) =>
      if c !in s.open then s else Forget(s, c)
  }

  /** `onAgentMIP`: without a switch the connection leaves the queue, and its record stays behind. */
  function AskedBy(s: State, c: nat, name: string, network: string, token: uint64, told: bool): State
    requires Sound(s) && c in s.open
  {
    var known := Register(s, c, Info(AgentConn, name, network));
    if s.switches == [] then known.(open := s.open - {c})
    else
      var i := Chosen(known, network);
      var moved := known.(rr := Pick(Reach(known, network), s.rr).1);
      if !told then moved
      else moved.(pending := s.pending + [PendingToken(name, known.infos[s.switches[i]].name, token)],
                  agents := s.agents + [c])
  }

  /** The pending tokens of other switches. */
  function NotFor(pending: seq<PendingToken>, name: string): seq<PendingToken> {
    if pending == [] then []
    else (if pending[0].switch == name then [] else [pending[0]]) + NotFor(pending[1..], name)
  }

  lemma {:induction false} NotForHolds(pending: seq<PendingToken>, name: string)
    ensures forall p :: p in NotFor(pending, name) <==> p in pending && p.switch != name
  {
    if pending != [] {
      NotForHolds(pending[1..], name);
      assert forall p :: p in pending <==> p == pending[0] || p in pending[1..];
    }
  }

  /** `onClose`: what is tidied up goes by the role of the record. */
  function Forget(s: State, c: nat): State
    requires c in s.infos
  {
    var info := s.infos[c];
    var listed :=
      match info.role
      case SwitchConn => s.(switches := Without(s.switches, c),
                            pending := NotFor(s.pending, info.name))
      case AgentConn => s.(agents := Without(s.agents, c))
      case Unknown => s;
    listed.(infos := s.infos - {c}, open := s.open - {c})
  }

  /** The tokens handed out for an event, and to which switch and agent they belong. */
  function Issued(s: State, e: Event): seq<Notice>
    requires Sound(s)
  {
    if e.AgentMip? && e.c in s.open && s.switches != [] then
      var known := Register(s, e.c, Info(AgentConn, e.name, e.network));
      [Notice(s.switches[Chosen(known, e.network)], e.name, e.token)]
    else []
  }

  /** The notices that are sent: those whose two writes both succeed. */
  function Sent(s: State, e: Event): seq<Notice>
    requires Sound(s)
  {
    if e.AgentMip? && e.toldAgent && e.toldSwitch then Issued(s, e) else []
  }

  // --- Bookkeeping ---

  /** The lists hold open connections of the right role, once each, and tokens name listed switches. */
  ghost predicate Booked(s: State) {
    && Sound(s)
    && Distinct(s.switches) && Distinct(s.agents)
    && (forall c <- s.switches :: c in s.open && s.infos[c].role == SwitchConn)
    && (forall c <- s.agents :: c in s.open && s.infos[c].role == AgentConn)
    && (forall p <- s.pending :: Listed(s, p.switch))
  }

  ghost predicate Listed(s: State, name: string) {
    exists c <- s.switches :: c in s.infos && s.infos[c].name == name
  }

  /** A connection that registers is in neither list, except that an agent may ask again in vain. */
  predicate Orderly(s: State, e: Event) {
    match e
    case SwitchMip(c, _, _) => c !in s.switches && c !in s.agents
    case AgentMrp(c, _) => c !in s.switches && c !in s.agents
    case AgentMip(c, _, _, _, toldAgent, toldSwitch) =>
      c !in s.switches && (c in s.agents ==> s.switches != [] && !(toldAgent && toldSwitch))
    case _ => true
  }

  lemma RegisterKeepsListed(s: State, c: nat, info: Info, name: string)
    requires Listed(s, name) && c !in s.switches
    ensures Listed(Register(s, c, info), name)
  {
    var w :| w in s.switches && w in s.infos && s.infos[w].name == name;
    assert Register(s, c, info).infos[w].name == name;
  }

  lemma ForgetKeeps(s: State, c: nat)
    requires Booked(s) && c in s.open
    ensures Booked(Forget(s, c))
    ensures var t := Forget(s, c);
            && c !in t.switches && c !in t.agents && c !in t.infos
            && (s.infos[c].role == SwitchConn ==> forall p <- t.pending :: p.switch != s.infos[c].name)
  {
    var info, t := s.infos[c], Forget(s, c);
    WithoutHolds(s.switches, c);
    WithoutHolds(s.agents, c);
    WithoutDistinct(s.switches, c);
    WithoutDistinct(s.agents, c);
    NotForHolds(s.pending, info.name);
    forall p | p in t.pending ensures Listed(t, p.switch) {
      var w :| w in s.switches && w in s.infos && s.infos[w].name == p.switch;
      assert w in t.switches && t.infos[w] == s.infos[w];
    }
  }

  lemma RegisteringKeeps(s: State, e: Event)
    requires Booked(s) && e.c in s.open && Orderly(s, e) && !e.Accept? && !e.Closed?
    ensures Booked(Apply(s, e))
  {
    var t := Apply(s, e);
    forall p | p in t.pending ensures Listed(t, p.switch) {
      if p in s.pending {
        RegisterKeepsListed(s, e.c, t.infos[e.c], p.switch);
        var w :| w in s.switches && w in t.infos && t.infos[w].name == p.switch;
        assert w in t.switches;
      } else {
        assert s.switches[Chosen(Register(s, e.c, Info(AgentConn, e.name, e.network)), e.network)] in t.switches;
      }
    }
  }

  /** The books stay right exactly when registrations are orderly. */
  lemma BookedIff(s: State, e: Event)
    requires Booked(s) && (if e.Accept? then e.c !in s.infos else e.c in s.open)
    ensures Booked(Apply(s, e)) <==> Orderly(s, e)
  {
    var t := Apply(s, e);
    if e.Closed? {
      ForgetKeeps(s, e.c);
    } else if e.Accept? {
      forall p | p in t.pending ensures Listed(t, p.switch) {
        RegisterKeepsListed(s, e.c, t.infos[e.c], p.switch);
      }
    } else if Orderly(s, e) {
      RegisteringKeeps(s, e);
    } else if e.c in s.switches && e.SwitchMip? {
      var j :| 0 <= j < |s.switches| && s.switches[j] == e.c;
      assert t.switches[j] == e.c == t.switches[|s.switches|];
    } else if e.c in s.agents && !e.SwitchMip? && t.agents != s.agents {
      var j :| 0 <= j < |s.agents| && s.agents[j] == e.c;
      assert t.agents[j] == e.c == t.agents[|s.agents|];
    }
  }

  /** A connection that has not registered yet is always orderly. */
  lemma FirstTimeIsOrderly(s: State, e: Event)
    requires Booked(s) && e.c in s.infos && s.infos[e.c].role == Unknown
    ensures Orderly(s, e)
  {
  }

  predicate Allowed(s: State, e: Event) {
    (if e.Accept? then e.c !in s.infos else e.c in s.open) && Orderly(s, e)
  }

  ghost predicate Run(s: State, es: seq<Event>)
    requires Booked(s)
    decreases |es|
  {
    es == [] ||
    (Allowed(s, es[0]) && (BookedIff(s, es[0]); Run(Apply(s, es[0]), es[1..])))
  }

  ghost function After(s: State, es: seq<Event>): State
    requires Booked(s) && Run(s, es)
    decreases |es|
  {
    if es == [] then s else BookedIff(s, es[0]); After(Apply(s, es[0]), es[1..])
  }

  /** In every run each pending token names a switch that is connected, and no list holds a dead record. */
  lemma {:induction false} EveryRunBooked(s: State, es: seq<Event>)
    requires Booked(s) && Run(s, es)
    ensures Booked(After(s, es))
    decreases |es|
  {
    if es != [] {
      BookedIff(s, es[0]);
      EveryRunBooked(Apply(s, es[0]), es[1..]);
    }
  }

  /** Whatever came before, closing forgets a connection exactly when its role fits the lists it is in. */
  lemma ClosedIsForgottenIff(s: State, c: nat)
    requires Sound(s) && c in s.open
    ensures var t := Apply(s, Closed(c));
            && (c !in t.switches && c !in t.agents
                <==> (c in s.switches ==> s.infos[c].role == SwitchConn) && (c in s.agents ==> s.infos[c].role == AgentConn))
            && (Sound(t) <==> c !in t.switches && c !in t.agents)
  {
    WithoutHolds(s.switches, c);
    WithoutHolds(s.agents, c);
    var t := Apply(s, Closed(c));
    assert forall i :: 0 <= i < |t.switches| ==> t.switches[i] in s.switches;
    assert forall i :: 0 <= i < |t.agents| ==> t.agents[i] in s.agents;
  }

  /** What is closed is in no list that its role does not fit. */
  predicate Fitting(s: State, e: Event)
    requires Sound(s)
  {
    e.Closed? && e.c in s.open ==>
      && (e.c in s.switches ==> s.infos[e.c].role == SwitchConn)
      && (e.c in s.agents ==> s.infos[e.c].role == AgentConn)
  }

  /** Whatever is registered, in whatever order, only a close can leave a pointer to a deleted record. */
  lemma StaysSoundIff(s: State, e: Event)
    requires Sound(s)
    ensures Sound(Apply(s, e)) <==> Fitting(s, e)
  {
    if e.Closed? && e.c in s.open {
      ClosedIsForgottenIff(s, e.c);
    }
  }

  /** The promise fails for a connection that registers first as a switch and then as an agent. */
  lemma RegisteringTwiceIsRemembered()
    ensures var s1 := Apply(START, Accept(1));
            var s2 := Apply(s1, SwitchMip(1, "s", "::internet"));
            var s3 := Apply(s2, AgentMrp(1, "s"));
            Sound(s3) && 1 in Apply(s3, Closed(1)).switches && 1 !in Apply(s3, Closed(1)).infos
  {
    var s1 := Apply(START, Accept(1));
    var s2 := Apply(s1, SwitchMip(1, "s", "::internet"));
    assert s2.switches == [1];
    var s3 := Apply(s2, AgentMrp(1, "s"));
    assert 1 in s3.agents;
    ClosedIsForgottenIff(s3, 1);
  }

  // --- Closing the connection that is being served ---

  /** A handler lets go of the connection whose message it handles, which `process` goes on to use. */
  predicate ClosesOwn(s: State, e: Event)
    requires Sound(s)
  {
    !e.Accept? && !e.Closed? && e.c in s.open && e.c !in Apply(s, e).open
  }

  /** That happens exactly when an agent asks and there is no switch at all. */
  lemma ClosesOwnIff(s: State, e: Event)
    requires Sound(s) && e.c in s.open
    ensures ClosesOwn(s, e) <==> e.AgentMip? && s.switches == []
  {
  }

  lemma {:induction false} RunUpTo(s: State, es: seq<Event>, j: nat)
    requires Booked(s) && Run(s, es) && j <= |es|
    ensures Run(s, es[..j]) && Booked(After(s, es[..j]))
    ensures j < |es| ==> Allowed(After(s, es[..j]), es[j])
    decreases j
  {
    if j > 0 {
      hide Booked, Allowed, Apply;
      BookedIff(s, es[0]);
      RunUpTo(Apply(s, es[0]), es[1..], j - 1);
      assert es[..j][1..] == es[1..][..j - 1];
    }
  }

  /** The state in which the event `es[j]` comes. */
  ghost function Before(s: State, es: seq<Event>, j: nat): (t: State)
    requires Booked(s) && Run(s, es) && j <= |es|
    ensures Booked(t)
  {
    RunUpTo(s, es, j);
    After(s, es[..j])
  }

  /** In any run no connection is closed while it is served exactly when no agent asks while there is no switch. */
  lemma NoneClosesOwnIff(s: State, es: seq<Event>)
    requires Booked(s) && Run(s, es)
    ensures (forall j :: 0 <= j < |es| ==> !ClosesOwn(Before(s, es, j), es[j])) <==>
            (forall j :: 0 <= j < |es| && es[j].AgentMip? ==> Before(s, es, j).switches != [])
  {
    forall j | 0 <= j < |es|
      ensures ClosesOwn(Before(s, es, j), es[j]) <==> es[j].AgentMip? && Before(s, es, j).switches == []
    {
      RunUpTo(s, es, j);
      if !es[j].Accept? {
        ClosesOwnIff(Before(s, es, j), es[j]);
      }
    }
  }

  /** The first to come may be an agent. */
  lemma EarlyAgentIsClosed(name: string, network: string, token: uint64, told: bool)
    ensures var s := Apply(START, Accept(1));
            Sound(s) && ClosesOwn(s, AgentMip(1, name, network, token, told, told))
  {
  }

  // --- Fair shares ---

  /** Connections come, agents come back and agents leave. */
  predicate Aside(s: State, e: Event) {
    e.Accept? || e.AgentMrp? || (e.Closed? && e.c !in s.switches)
  }

  /** Agents of one network ask, with anything but a change of the switches happening in between. */
  ghost predicate Asks(s: State, es: seq<Event>, network: string)
    requires Booked(s)
    decreases |es|
  {
    es == [] ||
    (&& Allowed(s, es[0]) && (Aside(s, es[0]) || (es[0].AgentMip? && es[0].network == network))
     && (BookedIff(s, es[0]); Asks(Apply(s, es[0]), es[1..], network)))
  }

  function AskCount(es: seq<Event>): nat {
    if es == [] then 0 else (if es[0].AgentMip? then 1 else 0) + AskCount(es[1..])
  }

  /** The list positions of the switches they are given. */
  ghost function Choices(s: State, es: seq<Event>, network: string): seq<nat>
    requires Booked(s) && s.switches != [] && Asks(s, es, network)
    decreases |es|
  {
    if es == [] then []
    else
      BookedIff(s, es[0]);
      EventKeepsReach(s, es[0], network);
      (if es[0].AgentMip? then [Chosen(s, network)] else []) + Choices(Apply(s, es[0]), es[1..], network)
  }

  /** The switch told of the token is the one at the position chosen. */
  lemma AskKeepsReach(s: State, e: Event, network: string)
    requires Booked(s) && s.switches != [] && e.AgentMip? && e.network == network && Allowed(s, e)
    ensures var t := Apply(s, e);
            && Sound(t) && t.switches == s.switches && Reach(t, network) == Reach(s, network)
            && t.rr == Pick(Reach(s, network), s.rr).1
    ensures Issued(s, e) == [Notice(s.switches[Chosen(s, network)], e.name, e.token)]
  {
    BookedIff(s, e);
    var known := Register(s, e.c, Info(AgentConn, e.name, network));
    assert Reach(known, network) == Reach(s, network);
    assert Reach(Apply(s, e), network) == Reach(s, network);
  }

  lemma AsideKeepsReach(s: State, e: Event, network: string)
    requires Booked(s) && Aside(s, e) && Allowed(s, e)
    ensures var t := Apply(s, e);
            && Sound(t) && t.switches == s.switches && Reach(t, network) == Reach(s, network) && t.rr == s.rr
  {
    BookedIff(s, e);
    WithoutAbsent(s.switches, e.c);
    var t := Apply(s, e);
    assert t.switches == s.switches;
    forall i | 0 <= i < |s.switches| ensures t.infos[t.switches[i]].network == s.infos[s.switches[i]].network {
      assert s.switches[i] in s.switches;
    }
    assert Reach(t, network) == Reach(s, network);
  }

  lemma EventKeepsReach(s: State, e: Event, network: string)
    requires Booked(s) && s.switches != [] && Allowed(s, e)
    requires Aside(s, e) || (e.AgentMip? && e.network == network)
    ensures var t := Apply(s, e);
            && Sound(t) && t.switches == s.switches && Reach(t, network) == Reach(s, network)
            && t.rr == if e.AgentMip? then Pick(Reach(s, network), s.rr).1 else s.rr
  {
    if e.AgentMip? {
      AskKeepsReach(s, e, network);
    } else {
      AsideKeepsReach(s, e, network);
    }
  }

  lemma {:induction false} ChoicesArePicks(s: State, es: seq<Event>, network: string)
    requires Booked(s) && s.switches != [] && Asks(s, es, network)
    ensures Choices(s, es, network) == Picks(Reach(s, network), s.rr, AskCount(es))
    decreases |es|
  {
    if es != [] {
      hide Apply, Reach, Pick, Sound, Booked, Allowed;
      BookedIff(s, es[0]);
      EventKeepsReach(s, es[0], network);
      ChoicesArePicks(Apply(s, es[0]), es[1..], network);
    }
  }

  /** Of any two switches within reach neither is given more than one agent more than the other. */
  lemma SharesAreFair(s: State, es: seq<Event>, network: string, i: nat, j: nat)
    requires Booked(s) && Asks(s, es, network)
    requires i < |s.switches| && j < |s.switches|
    requires var r := Reach(s, network); Eligible(r, i) && Eligible(r, j)
    ensures Count(Choices(s, es, network), i) <= Count(Choices(s, es, network), j) + 1
  {
    ChoicesArePicks(s, es, network);
    PicksAreFair(Reach(s, network), s.rr, AskCount(es), i, j);
  }
}
