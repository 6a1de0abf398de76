/** What a black box decides, in terms of the file it was made from and the hooks called since. */
module BlackBoxMeaning {
  import opened Wire
  import opened Config
  import opened ConfigLookups
  import opened Agents
  import opened Routing
  import opened IPv4
  import opened PacketPolicy

  function BoxAfter(config: Tables, tunFd: int, hooks: seq<Hook>): Box {
    PacketPolicy.ApplyAll(Start(config, tunFd), hooks)
  }

  lemma {:induction false} ApplyAllSnoc(b: Box, hooks: seq<Hook>, h: Hook)
    ensures PacketPolicy.ApplyAll(b, hooks + [h]) == PacketPolicy.Apply(PacketPolicy.ApplyAll(b, hooks), h)
    decreases |hooks|
  {
    if hooks == [] {
      assert [h][1..] == [];
    } else {
      assert (hooks + [h])[1..] == hooks[1..] + [h];
      ApplyAllSnoc(PacketPolicy.Apply(b, hooks[0]), hooks[1..], h);
    }
  }

  lemma {:induction false} NoFdReuseSnoc(b: Box, hooks: seq<Hook>, h: Hook)
    ensures NoFdReuse(b, hooks + [h]) <==>
            NoFdReuse(b, hooks) && (h.AgentAuthenticated? ==> !FdTaken(PacketPolicy.ApplyAll(b, hooks).registry, h.name, h.fd))
    decreases |hooks|
  {
    if hooks == [] {
      assert [h][1..] == [];
    } else {
      assert (hooks + [h])[1..] == hooks[1..] + [h];
      NoFdReuseSnoc(PacketPolicy.Apply(b, hooks[0]), hooks[1..], h);
    }
  }

  // --- Who is connected ---

  /** `hooks[i]` authenticated `name` on `fd`, and nothing since concerns either. */
  predicate StandsAt(hooks: seq<Hook>, name: string, fd: int, i: nat) {
    && i < |hooks| && hooks[i] == AgentAuthenticated(name, fd)
    && forall j :: i < j < |hooks| ==>
         hooks[j] != AgentDisconnected(fd) && !(hooks[j].AgentAuthenticated? && hooks[j].name == name)
  }

  predicate Connected(hooks: seq<Hook>, name: string, fd: int) {
    exists i: nat | i < |hooks| :: StandsAt(hooks, name, fd, i)
  }

  lemma ConnectedSnoc(hooks: seq<Hook>, h: Hook, name: string, fd: int)
    ensures Connected(hooks + [h], name, fd) <==>
            || h == AgentAuthenticated(name, fd)
            || (Connected(hooks, name, fd) && h != AgentDisconnected(fd) && !(h.AgentAuthenticated? && h.name == name))
  {
    var all := hooks + [h];
    assert forall j :: 0 <= j < |hooks| ==> all[j] == hooks[j];
    if Connected(all, name, fd) {
      var i: nat :| i < |all| && StandsAt(all, name, fd, i);
      if i < |hooks| {
        assert StandsAt(hooks, name, fd, i) && all[|hooks|] == h;
      }
    }
    if h == AgentAuthenticated(name, fd) {
      assert StandsAt(all, name, fd, |hooks|);
    } else if Connected(hooks, name, fd) && h != AgentDisconnected(fd) && !(h.AgentAuthenticated? && h.name == name) {
      var i: nat :| i < |hooks| && StandsAt(hooks, name, fd, i);
      assert StandsAt(all, name, fd, i);
    }
  }

  /** What one hook does to who is registered, by any descriptor. */
  lemma RegisteredAfter(b: Box, h: Hook, e: Agent)
    requires Sound(b)
    ensures Live(PacketPolicy.Apply(b, h).registry, e) <==>
            match h
            case AgentAuthenticated(name, fd) =>
              if name in b.config.nameToIp && e.name == name then e == Agent(name, b.config.nameToIp[name], fd)
              else Live(b.registry, e)
            case AgentDisconnected(fd) => Live(b.registry, e) && !(fd in b.registry.byFd && b.registry.byFd[fd] == e)
            case _ => Live(b.registry, e)
  {
    match h
    case AgentAuthenticated(name, fd) =>
      SentinelsAreUnambiguous(b.config, name, 0);
      LiveAfter(b.registry, Register(name, b.config.FindIpForAgent(name), fd), e);
    case AgentDisconnected(fd) => LiveAfter(b.registry, UnregisterByFd(fd), e);
    case _ =>
  }

  /** Registered are exactly those who are configured and connected. */
  lemma {:induction false} LiveIffConnected(config: Tables, tunFd: int, hooks: seq<Hook>, e: Agent)
    requires Config.Coherent(config) && NoFdReuse(Start(config, tunFd), hooks)
    ensures var b := BoxAfter(config, tunFd, hooks);
            && Sound(b) && FdExact(b.registry) && b.config == config && b.tunFd == tunFd
            && (Live(b.registry, e) <==>
                  e.name in config.nameToIp && e.ipv4 == config.nameToIp[e.name] && Connected(hooks, e.name, e.fd))
    decreases |hooks|
  {
    EveryRunSound(Start(config, tunFd), hooks);
    EveryRunFdExact(Start(config, tunFd), hooks);
    if hooks != [] {
      var before, h := hooks[..|hooks| - 1], hooks[|hooks| - 1];
      assert hooks == before + [h];
      ApplyAllSnoc(Start(config, tunFd), before, h);
      NoFdReuseSnoc(Start(config, tunFd), before, h);
      LiveIffConnected(config, tunFd, before, e);
      ConnectedSnoc(before, h, e.name, e.fd);
      RegisteredAfter(BoxAfter(config, tunFd, before), h, e);
    }
  }

  // --- Where packets for others go ---

  /** What the hooks say about routes. */
  function RouteLog(hooks: seq<Hook>): seq<RouteEvent> {
    if hooks == [] then []
    else
      (match hooks[0]
       case RouteUpdate(dest, nextFd) => [Update(dest, nextFd)]
       case SwitchDisconnected(fd) => [SwitchDown(fd)]
       case _ => []) + RouteLog(hooks[1..])
  }

  lemma {:induction false} RouteLogConcat(xs: seq<Hook>, ys: seq<Hook>)
    ensures RouteLog(xs + ys) == RouteLog(xs) + RouteLog(ys)
    decreases |xs|
  {
    if xs == [] {
      assert xs + ys == ys;
    } else {
      assert (xs + ys)[1..] == xs[1..] + ys;
      RouteLogConcat(xs[1..], ys);
    }
  }

  /** The routing table is that of the log of route hooks. */
  lemma {:induction false} RoutesFollowLog(config: Tables, tunFd: int, hooks: seq<Hook>)
    ensures BoxAfter(config, tunFd, hooks).routes == Routing.After(RouteLog(hooks))
    decreases |hooks|
  {
    if hooks != [] {
      var before, h := hooks[..|hooks| - 1], hooks[|hooks| - 1];
      assert hooks == before + [h];
      ApplyAllSnoc(Start(config, tunFd), before, h);
      RouteLogConcat(before, [h]);
      RoutesFollowLog(config, tunFd, before);
      var last := RouteLog([h]);
      assert [h][1..] == [];
      if last != [] {
        var log := RouteLog(before) + last;
        assert last == [last[0]] && log[..|log| - 1] == RouteLog(before) && log[|log| - 1] == last[0];
      } else {
        assert RouteLog(before) + last == RouteLog(before);
      }
    }
  }

  lemma LogOfLoss(hooks: seq<Hook>, later: seq<Hook>, lost: int)
    ensures RouteLog(hooks + [SwitchDisconnected(lost)] + later) == RouteLog(hooks) + [SwitchDown(lost)] + RouteLog(later)
  {
    RouteLogConcat(hooks + [SwitchDisconnected(lost)], later);
    RouteLogConcat(hooks, [SwitchDisconnected(lost)]);
    assert [SwitchDisconnected(lost)][1..] == [];
  }

  lemma ForwardsByLookup(b: PacketPolicy.Box, source: SourceType, fd: int, raw: seq<byte>)
    ensures Process(b, source, fd, raw).action.ForwardSwitch? ==>
      && WellFormed(raw)
      && Process(b, source, fd, raw).targetFd == Lookup(b.routes, Fields(raw).dstIp) >= 0
  {
  }

  /** No packet is forwarded to a switch that was lost and has not been named since. */
  lemma NoForwardToLostSwitch(config: Tables, tunFd: int, hooks: seq<Hook>, later: seq<Hook>, lost: int,
                              source: SourceType, fd: int, raw: seq<byte>)
    requires forall h <- later :: !(h.RouteUpdate? && h.nextFd == lost)
    ensures var d := Process(BoxAfter(config, tunFd, hooks + [SwitchDisconnected(lost)] + later), source, fd, raw);
            d.action.ForwardSwitch? ==> d.targetFd != lost
  {
    hide *;
    var all := hooks + [SwitchDisconnected(lost)] + later;
    RoutesFollowLog(config, tunFd, all);
    LogOfLoss(hooks, later, lost);
    NothingNames(later, lost);
    ForwardsByLookup(BoxAfter(config, tunFd, all), source, fd, raw);
    if lost >= 0 && WellFormed(raw) {
      NoRouteToLostSwitch(RouteLog(hooks), RouteLog(later), lost, Fields(raw).dstIp);
    }
  }

  lemma {:induction false} NothingNames(hooks: seq<Hook>, lost: int)
    requires forall h <- hooks :: !(h.RouteUpdate? && h.nextFd == lost)
    ensures forall e <- RouteLog(hooks) :: !(e.Update? && e.nextFd == lost)
    decreases |hooks|
  {
    if hooks != [] {
      NothingNames(hooks[1..], lost);
    }
  }

  // --- Decisions ---

  /** A host of the file is connected. */
  ghost predicate Online(pton: Pton, lines: seq<Line>, hooks: seq<Hook>, name: string, ipv4: uint32, fd: int) {
    Host(pton, lines, name, ipv4) && Connected(hooks, name, fd)
  }

  ghost predicate SomeHost(pton: Pton, lines: seq<Line>, ipv4: uint32) {
    exists name :: Host(pton, lines, name, ipv4)
  }

  /** The box of the file after the hooks. */
  ghost function Box(pton: Pton, lines: seq<Line>, tunFd: int, hooks: seq<Hook>): PacketPolicy.Box {
    BoxAfter(LoadLines(pton, lines).1, tunFd, hooks)
  }

  ghost predicate Given(pton: Pton, lines: seq<Line>, tunFd: int, hooks: seq<Hook>) {
    LoadLines(pton, lines).0 && NoFdReuse(Start(LoadLines(pton, lines).1, tunFd), hooks)
  }

  /** The registry holds those online, under their descriptors and addresses. */
  lemma RegistryIsOnline(pton: Pton, lines: seq<Line>, tunFd: int, hooks: seq<Hook>, e: Agent)
    requires Given(pton, lines, tunFd, hooks)
    ensures var r := Box(pton, lines, tunFd, hooks).registry;
            && (ByFd(r, e) <==> Online(pton, lines, hooks, e.name, e.ipv4, e.fd))
            && (ByIpv4(r, e) <==> Online(pton, lines, hooks, e.name, e.ipv4, e.fd))
  {
    LoadIsCoherent(pton, lines);
    LiveIffConnected(LoadLines(pton, lines).1, tunFd, hooks, e);
    HostsAreConfigured(pton, lines, e.name, e.ipv4);
    var r := Box(pton, lines, tunFd, hooks).registry;
    ExactMeansAgree(r);
    assert (Live(r, e) <==> ByFd(r, e)) && (Live(r, e) <==> ByIpv4(r, e));
  }

  /** Bytes that are no packet are dropped, wherever they come from. */
  lemma MalformedIsDropped(b: PacketPolicy.Box, source: SourceType, fd: int, raw: seq<byte>)
    ensures Process(b, source, fd, raw) == Dropped(MalformedPacket) <==> !WellFormed(raw)
  {
  }

  /** The packet comes from the descriptor of the host whose address it bears. */
  ghost predicate Genuine(pton: Pton, lines: seq<Line>, hooks: seq<Hook>, fd: int, src: uint32) {
    exists name :: Online(pton, lines, hooks, name, src, fd)
  }

  /** The sender of a packet from an agent is found by its descriptor, or is not there. */
  lemma SenderIsFound(pton: Pton, lines: seq<Line>, tunFd: int, hooks: seq<Hook>, fd: int)
    requires Given(pton, lines, tunFd, hooks)
    ensures var r := Box(pton, lines, tunFd, hooks).registry;
            && (forall name, ip :: Online(pton, lines, hooks, name, ip, fd) ==> fd in r.byFd && r.byFd[fd] == Agent(name, ip, fd))
            && (fd in r.byFd ==> Online(pton, lines, hooks, r.byFd[fd].name, r.byFd[fd].ipv4, fd))
  {
    var r := Box(pton, lines, tunFd, hooks).registry;
    forall name, ip ensures ByFd(r, Agent(name, ip, fd)) <==> Online(pton, lines, hooks, name, ip, fd) {
      RegistryIsOnline(pton, lines, tunFd, hooks, Agent(name, ip, fd));
    }
    if fd in r.byFd {
      LoadIsCoherent(pton, lines);
      LiveIffConnected(LoadLines(pton, lines).1, tunFd, hooks, r.byFd[fd]);
      RegistryIsOnline(pton, lines, tunFd, hooks, r.byFd[fd]);
    }
  }

  lemma ReceiverIsFound(pton: Pton, lines: seq<Line>, tunFd: int, hooks: seq<Hook>, dst: uint32)
    requires Given(pton, lines, tunFd, hooks)
    ensures var r := Box(pton, lines, tunFd, hooks).registry;
            && (forall name, g :: Online(pton, lines, hooks, name, dst, g) ==> dst in r.byIpv4 && r.byIpv4[dst] == Agent(name, dst, g))
            && (dst in r.byIpv4 ==> Online(pton, lines, hooks, r.byIpv4[dst].name, dst, r.byIpv4[dst].fd))
  {
    var r := Box(pton, lines, tunFd, hooks).registry;
    forall name, g ensures ByIpv4(r, Agent(name, dst, g)) <==> Online(pton, lines, hooks, name, dst, g) {
      RegistryIsOnline(pton, lines, tunFd, hooks, Agent(name, dst, g));
    }
    if dst in r.byIpv4 {
      LoadIsCoherent(pton, lines);
      LiveIffConnected(LoadLines(pton, lines).1, tunFd, hooks, r.byIpv4[dst]);
      RegistryIsOnline(pton, lines, tunFd, hooks, r.byIpv4[dst]);
    }
  }

  /** A packet from an agent: who may send it at all. */
  lemma AgentIsChecked(pton: Pton, lines: seq<Line>, tunFd: int, hooks: seq<Hook>, fd: int, raw: seq<byte>)
    requires Given(pton, lines, tunFd, hooks) && WellFormed(raw)
    ensures var d, src := Process(Box(pton, lines, tunFd, hooks), FromAgent, fd, raw), Fields(raw).srcIp;
            && (d == Dropped(SourceUnknown) <==> forall name, ip :: !Online(pton, lines, hooks, name, ip, fd))
            && (d == Dropped(SourceSpoof) <==>
                  !Genuine(pton, lines, hooks, fd, src) && exists name, ip :: Online(pton, lines, hooks, name, ip, fd))
            && (Genuine(pton, lines, hooks, fd, src) ==>
                  d == RouteToDestination(Box(pton, lines, tunFd, hooks), src, Fields(raw).dstIp))
  {
    SenderIsFound(pton, lines, tunFd, hooks, fd);
  }

  lemma SomeHostIff(pton: Pton, lines: seq<Line>, ipv4: uint32)
    requires LoadLines(pton, lines).0
    ensures LoadLines(pton, lines).1.FindAgentForIp(ipv4) != "" <==> SomeHost(pton, lines, ipv4)
  {
    var t := LoadLines(pton, lines).1;
    LoadIsCoherent(pton, lines);
    SentinelsAreUnambiguous(t, "", ipv4);
    if ipv4 in t.ipToName {
      HostsAreConfigured(pton, lines, t.ipToName[ipv4], ipv4);
    }
    forall name | Host(pton, lines, name, ipv4) ensures ipv4 in t.ipToName {
      HostsAreConfigured(pton, lines, name, ipv4);
    }
  }

  lemma HostIsRouted(pton: Pton, lines: seq<Line>, tunFd: int, hooks: seq<Hook>, fd: int, raw: seq<byte>)
    requires Given(pton, lines, tunFd, hooks) && WellFormed(raw)
    requires Genuine(pton, lines, hooks, fd, Fields(raw).srcIp) && SomeHost(pton, lines, Fields(raw).dstIp)
    ensures var b, dst := Box(pton, lines, tunFd, hooks), Fields(raw).dstIp;
            var next := Lookup(Routing.After(RouteLog(hooks)), dst);
            Process(b, FromAgent, fd, raw) ==
            if !MayTalk(pton, lines, Fields(raw).srcIp, dst) then Dropped(AclDenied)
            else if dst in b.registry.byIpv4 then Delivered(b.registry.byIpv4[dst].fd)
            else if next >= 0 then Decision(ForwardSwitch, next, 0, NoReason)
            else Decision(RequestRoute, -1, dst, NoReason)
  {
    var b, src, dst := Box(pton, lines, tunFd, hooks), Fields(raw).srcIp, Fields(raw).dstIp;
    AgentIsChecked(pton, lines, tunFd, hooks, fd, raw);
    LoadIsCoherent(pton, lines);
    EveryRunSound(Start(LoadLines(pton, lines).1, tunFd), hooks);
    SomeHostIff(pton, lines, dst);
    TalkMeansLine(pton, lines, src, dst);
    RoutesFollowLog(LoadLines(pton, lines).1, tunFd, hooks);
    hide Process, MayTalk, Online, SomeHost, Genuine, Host, BoxAfter, RouteLog, LoadLines, Lookup;
    assert Process(b, FromAgent, fd, raw) == RouteToDestination(b, src, dst);
  }

  /**
   A genuine packet to a host of the file: refused unless a line lets the two talk; delivered on the
   descriptor of the host if it is here; else forwarded where the last word on it leads, and if there
   is none a route to it is asked for.
   */
  lemma ToHost(pton: Pton, lines: seq<Line>, tunFd: int, hooks: seq<Hook>, fd: int, raw: seq<byte>)
    requires Given(pton, lines, tunFd, hooks) && WellFormed(raw)
    requires Genuine(pton, lines, hooks, fd, Fields(raw).srcIp) && SomeHost(pton, lines, Fields(raw).dstIp)
    ensures var d, dst := Process(Box(pton, lines, tunFd, hooks), FromAgent, fd, raw), Fields(raw).dstIp;
            if !MayTalk(pton, lines, Fields(raw).srcIp, dst) then d == Dropped(AclDenied)
            else
              && (forall name, g :: Online(pton, lines, hooks, name, dst, g) ==> d == Delivered(g))
              && ((forall name, g :: !Online(pton, lines, hooks, name, dst, g)) ==>
                    && (forall hop :: hop >= 0 && Routed(RouteLog(hooks), dst, hop) ==> d == Decision(ForwardSwitch, hop, 0, NoReason))
                    && ((forall hop :: hop >= 0 ==> !Routed(RouteLog(hooks), dst, hop)) ==> d == Decision(RequestRoute, -1, dst, NoReason)))
  {
    var dst := Fields(raw).dstIp;
    HostIsRouted(pton, lines, tunFd, hooks, fd, raw);
    ReceiverIsFound(pton, lines, tunFd, hooks, dst);
    LastHop(RouteLog(hooks), dst);
    hide *;
    if dst in Box(pton, lines, tunFd, hooks).registry.byIpv4 {
      var e := Box(pton, lines, tunFd, hooks).registry.byIpv4[dst];
      assert Online(pton, lines, hooks, e.name, dst, e.fd);
    }
  }

  lemma LastHop(log: seq<RouteEvent>, dst: uint32)
    ensures var next := Lookup(Routing.After(log), dst);
            && (forall hop :: hop >= 0 && Routed(log, dst, hop) ==> next == hop)
            && ((forall hop :: hop >= 0 ==> !Routed(log, dst, hop)) ==> next < 0)
  {
    LookupIsLastWord(log, dst);
    var next := Lookup(Routing.After(log), dst);
    if next >= 0 {
      assert Routed(log, dst, next);
    }
  }

  /** A genuine packet to any other address goes to the internet, if there is one and a line allows it. */
  lemma ToInternet(pton: Pton, lines: seq<Line>, tunFd: int, hooks: seq<Hook>, fd: int, raw: seq<byte>)
    requires Given(pton, lines, tunFd, hooks) && WellFormed(raw)
    requires Genuine(pton, lines, hooks, fd, Fields(raw).srcIp) && !SomeHost(pton, lines, Fields(raw).dstIp)
    ensures Process(Box(pton, lines, tunFd, hooks), FromAgent, fd, raw) ==
            if tunFd < 0 then Dropped(DestUnreachable)
            else if !MayReach(pton, lines, Fields(raw).srcIp, Fields(raw).dstIp) then Dropped(AclDenied)
            else Decision(ForwardInternet, tunFd, 0, NoReason)
  {
    var b, src, dst := Box(pton, lines, tunFd, hooks), Fields(raw).srcIp, Fields(raw).dstIp;
    AgentIsChecked(pton, lines, tunFd, hooks, fd, raw);
    LoadIsCoherent(pton, lines);
    EveryRunSound(Start(LoadLines(pton, lines).1, tunFd), hooks);
    SomeHostIff(pton, lines, dst);
    ReachMeansLine(pton, lines, src, dst);
    hide Process, MayReach, Online, SomeHost, Genuine, Host, BoxAfter, LoadLines;
    assert Process(b, FromAgent, fd, raw) == RouteToDestination(b, src, dst);
  }

  /** From another switch: to the host with the destination address if it is here, and else nowhere. */
  lemma FromSwitchToHost(pton: Pton, lines: seq<Line>, tunFd: int, hooks: seq<Hook>, fd: int, raw: seq<byte>)
    requires Given(pton, lines, tunFd, hooks) && WellFormed(raw)
    ensures var d, dst := Process(Box(pton, lines, tunFd, hooks), FromSwitch, fd, raw), Fields(raw).dstIp;
            && (forall g :: d == Delivered(g) <==> exists name :: Online(pton, lines, hooks, name, dst, g))
            && (d == Dropped(DestUnreachable) <==> forall name, g :: !Online(pton, lines, hooks, name, dst, g))
  {
    ReceiverIsFound(pton, lines, tunFd, hooks, Fields(raw).dstIp);
  }

  /** From the internet: to the host with the destination address, if it is here and a line lets it reach the source. */
  lemma FromInternetToHost(pton: Pton, lines: seq<Line>, tunFd: int, hooks: seq<Hook>, fd: int, raw: seq<byte>)
    requires Given(pton, lines, tunFd, hooks) && WellFormed(raw)
    ensures var d, src, dst := Process(Box(pton, lines, tunFd, hooks), FromTun, fd, raw), Fields(raw).srcIp, Fields(raw).dstIp;
            && (forall g :: d == Delivered(g) <==>
                  MayReach(pton, lines, dst, src) && exists name :: Online(pton, lines, hooks, name, dst, g))
            && (d == Dropped(DestUnreachable) <==> forall name, g :: !Online(pton, lines, hooks, name, dst, g))
            && (d == Dropped(AclDenied) <==>
                  !MayReach(pton, lines, dst, src) && exists name, g :: Online(pton, lines, hooks, name, dst, g))
  {
    var dst := Fields(raw).dstIp;
    LoadIsCoherent(pton, lines);
    EveryRunSound(Start(LoadLines(pton, lines).1, tunFd), hooks);
    ReceiverIsFound(pton, lines, tunFd, hooks, dst);
    ReachMeansLine(pton, lines, dst, Fields(raw).srcIp);
  }

  // --- One hook, whatever came before ---

  /**
   An agent that disconnects is gone: nothing is found by its descriptor, the agent that was is not
   live, all others are as they were, and packets on the descriptor are from nobody known.
   */
  lemma Disconnected(b: PacketPolicy.Box, fd: int, raw: seq<byte>)
    requires Sound(b)
    ensures var n := PacketPolicy.Apply(b, AgentDisconnected(fd));
            && fd !in n.registry.byFd
            && (fd in b.registry.byFd ==> !Live(n.registry, b.registry.byFd[fd]))
            && (forall e :: Live(n.registry, e) <==> Live(b.registry, e) && !(fd in b.registry.byFd && b.registry.byFd[fd] == e))
            && (WellFormed(raw) ==> Process(n, FromAgent, fd, raw) == Dropped(SourceUnknown))
  {
    forall e ensures Live(PacketPolicy.Apply(b, AgentDisconnected(fd)).registry, e) <==>
                     Live(b.registry, e) && !(fd in b.registry.byFd && b.registry.byFd[fd] == e)
    {
      RegisteredAfter(b, AgentDisconnected(fd), e);
    }
  }

  /** Nothing is delivered on a descriptor that was disconnected until an agent is authenticated on it again. */
  lemma NothingForTheDisconnected(pton: Pton, lines: seq<Line>, tunFd: int, hooks: seq<Hook>, later: seq<Hook>, gone: int,
                                  source: SourceType, fd: int, raw: seq<byte>)
    requires Given(pton, lines, tunFd, hooks + [AgentDisconnected(gone)] + later)
    requires forall h <- later :: !(h.AgentAuthenticated? && h.fd == gone)
    ensures Process(Box(pton, lines, tunFd, hooks + [AgentDisconnected(gone)] + later), source, fd, raw) != Delivered(gone)
  {
    var all := hooks + [AgentDisconnected(gone)] + later;
    assert all[|hooks|] == AgentDisconnected(gone);
    forall name ensures !Connected(all, name, gone) {
      forall i: nat | i < |all| ensures !StandsAt(all, name, gone, i) {
        if i > |hooks| {
          assert all[i] == later[i - |hooks| - 1];
        }
      }
    }
    if WellFormed(raw) {
      ReceiverIsFound(pton, lines, tunFd, all, Fields(raw).dstIp);
    }
  }
}
