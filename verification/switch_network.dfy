/** Several switches that share one configuration and pass packets on to each other. */
module SwitchNetwork {
  import opened Wire
  import opened Config
  import opened ConfigLookups
  import opened Agents
  import opened Routing
  import opened IPv4
  import opened PacketPolicy

  /** `links` says which switch is at the other end of a switch's descriptor. */
  datatype Network = Network(boxes: map<int, Box>, links: map<(int, int), int>)

  /** A packet comes to a switch. */
  datatype Visit = Visit(at: int, source: SourceType, fd: int)

  function DecisionAt(net: Network, v: Visit, raw: seq<byte>): Decision
    requires v.at in net.boxes
  {
    Process(net.boxes[v.at], v.source, v.fd, raw)
  }

  /** FORWARD_SWITCH: the packet goes to the switch at the other end of the descriptor. */
  predicate Follows(net: Network, raw: seq<byte>, v: Visit, w: Visit)
    requires v.at in net.boxes
  {
    var d := DecisionAt(net, v, raw);
    && d.action.ForwardSwitch?
    && (v.at, d.targetFd) in net.links
    && w.at == net.links[(v.at, d.targetFd)]
    && w.source.FromSwitch?
  }

  /** The visits of one packet, as far as it gets. */
  predicate Path(net: Network, raw: seq<byte>, vs: seq<Visit>) {
    && |vs| > 0
    && (forall v <- vs :: v.at in net.boxes)
    && (forall i :: 0 < i < |vs| ==> Follows(net, raw, vs[i - 1], vs[i]))
  }

  ghost predicate Shares(net: Network, config: Tables) {
    forall s <- net.boxes :: Sound(net.boxes[s]) && net.boxes[s].config == config
  }

  lemma OnlyAgentPacketsGoOn(net: Network, raw: seq<byte>, v: Visit, w: Visit)
    requires v.at in net.boxes && Follows(net, raw, v, w)
    ensures v.source.FromAgent? && w.source.FromSwitch?
  {
  }

  /** No packet visits more than two switches, whatever the routing tables hold. */
  lemma AtMostTwoVisits(net: Network, raw: seq<byte>, vs: seq<Visit>)
    requires Path(net, raw, vs)
    ensures |vs| <= 2
    ensures !vs[0].source.FromAgent? ==> |vs| == 1
  {
    if |vs| > 1 {
      OnlyAgentPacketsGoOn(net, raw, vs[0], vs[1]);
      if |vs| > 2 {
        OnlyAgentPacketsGoOn(net, raw, vs[1], vs[2]);
      }
    }
  }

  /**
   What reaches an agent was sent by the agent whose address it bears, the two may talk, and
   it is the agent configured for the destination address that gets it.
   */
  lemma DeliveriesAreAuthorised(net: Network, config: Tables, raw: seq<byte>, vs: seq<Visit>, fd: int)
    requires Shares(net, config) && Path(net, raw, vs) && vs[0].source.FromAgent?
    requires DecisionAt(net, vs[|vs| - 1], raw) == Delivered(fd)
    ensures WellFormed(raw) && Authorised(net.boxes[vs[0].at], vs[0].fd, raw)
    ensures Permits(config.agentAcl, Fields(raw).srcIp, Fields(raw).dstIp)
    ensures var name := config.FindAgentForIp(Fields(raw).dstIp);
            Live(net.boxes[vs[|vs| - 1].at].registry, Agent(name, Fields(raw).dstIp, fd))
  {
    AtMostTwoVisits(net, raw, vs);
    var first, last := net.boxes[vs[0].at], net.boxes[vs[|vs| - 1].at];
    AgentPacketIff(first, vs[0].fd, raw);
    if |vs| == 2 {
      assert Follows(net, raw, vs[0], vs[1]);
    }
    var dst := Fields(raw).dstIp;
    var e := last.registry.byIpv4[dst];
    assert last.registry.byName[e.name] == e;
    assert config.ipToName[config.nameToIp[e.name]] == e.name;
  }

  /** In terms of the file all switches share: a line lets the two talk, and the receiver is the host of that address. */
  lemma DeliveriesFollowLines(net: Network, pton: Pton, lines: seq<Line>, raw: seq<byte>, vs: seq<Visit>, fd: int)
    requires LoadLines(pton, lines).0 && Shares(net, LoadLines(pton, lines).1)
    requires Path(net, raw, vs) && vs[0].source.FromAgent?
    requires DecisionAt(net, vs[|vs| - 1], raw) == Delivered(fd)
    ensures WellFormed(raw) && MayTalk(pton, lines, Fields(raw).srcIp, Fields(raw).dstIp)
    ensures exists name :: Host(pton, lines, name, Fields(raw).dstIp)
                        && Live(net.boxes[vs[|vs| - 1].at].registry, Agent(name, Fields(raw).dstIp, fd))
  {
    var t, dst := LoadLines(pton, lines).1, Fields(raw).dstIp;
    DeliveriesAreAuthorised(net, t, raw, vs, fd);
    TalkMeansLine(pton, lines, Fields(raw).srcIp, dst);
    var name, last := t.FindAgentForIp(dst), net.boxes[vs[|vs| - 1].at];
    assert last.registry.byName[name] == Agent(name, dst, fd);
    HostsAreConfigured(pton, lines, name, dst);
  }

  /** A route that points at the switch where the destination is connected leads to that agent, and to no other. */
  lemma RouteDelivers(net: Network, config: Tables, raw: seq<byte>, s: int, fd: int, hop: int)
    requires Shares(net, config) && s in net.boxes
    requires Authorised(net.boxes[s], fd, raw)
    requires var b, dst := net.boxes[s], Fields(raw).dstIp;
             && dst in config.ipToName && dst !in b.registry.byIpv4
             && dst in b.routes && b.routes[dst] == hop
             && (s, hop) in net.links && net.links[(s, hop)] in net.boxes
    ensures var v, w := Visit(s, FromAgent, fd), Visit(net.links[(s, hop)], FromSwitch, hop);
            var far, dst := net.boxes[w.at].registry, Fields(raw).dstIp;
            && Path(net, raw, [v, w])
            && (dst in far.byIpv4 ==> DecisionAt(net, w, raw) == Delivered(far.byIpv4[dst].fd))
            && (dst !in far.byIpv4 ==> DecisionAt(net, w, raw) == Dropped(DestUnreachable))
  {
    var b := net.boxes[s];
    AgentPacketIff(b, fd, raw);
    SentinelsAreUnambiguous(config, "", Fields(raw).dstIp);
    var v, w := Visit(s, FromAgent, fd), Visit(net.links[(s, hop)], FromSwitch, hop);
    assert DecisionAt(net, v, raw) == Decision(ForwardSwitch, hop, 0, NoReason);
    assert Follows(net, raw, v, w);
  }

  /** Two switches that each have a route to the other's agent carry the answer back to the sender. */
  lemma RepliesCrossBack(net: Network, config: Tables, raw: seq<byte>, reply: seq<byte>,
                         s: int, fd: int, vs: seq<Visit>, target: int)
    requires Shares(net, config) && Path(net, raw, vs) && |vs| == 2 && vs[0] == Visit(s, FromAgent, fd)
    requires DecisionAt(net, vs[1], raw) == Delivered(target)
    requires Answers(reply, raw)
    requires var far, src := net.boxes[vs[1].at], Fields(raw).srcIp;
             && FdExact(far.registry)
             && src !in far.registry.byIpv4
             && src in far.routes && (vs[1].at, far.routes[src]) in net.links
             && net.links[(vs[1].at, far.routes[src])] == s
    ensures exists ws :: Path(net, reply, ws) && ws[0] == Visit(vs[1].at, FromAgent, target)
                      && DecisionAt(net, ws[|ws| - 1], reply) == Delivered(fd)
  {
    var t, src, dst := vs[1].at, Fields(raw).srcIp, Fields(raw).dstIp;
    var near, far := net.boxes[s], net.boxes[t];
    DeliveriesAreAuthorised(net, config, raw, vs, target);
    var sender := near.registry.byFd[fd];
    assert near.registry.byName[sender.name] == sender && near.registry.byIpv4[src] == sender;
    assert config.ipToName[config.nameToIp[sender.name]] == sender.name;
    var receiver := far.registry.byIpv4[dst];
    assert far.registry.byName[receiver.name] == receiver && ByFd(far.registry, receiver);
    assert Authorised(far, target, reply);
    RouteDelivers(net, config, reply, t, target, far.routes[src]);
    var ws := [Visit(t, FromAgent, target), Visit(s, FromSwitch, far.routes[src])];
    assert Path(net, reply, ws) && DecisionAt(net, ws[|ws| - 1], reply) == Delivered(fd);
  }
}
