/** What a switch decides about a packet, and how its answers to both directions fit together. */
module PacketPolicy {
  import opened Wire
  import opened Config
  import opened Agents
  import opened Routing
  import opened IPv4

  datatype SourceType = FromAgent | FromSwitch | FromTun

  datatype Action = DeliverLocal | ForwardSwitch | ForwardInternet | RequestRoute | Drop

  datatype DropReason = NoReason | MalformedPacket | SourceSpoof | SourceUnknown | DestUnreachable | AclDenied

  datatype Decision = Decision(action: Action, targetFd: int, destIpv4: uint32, dropReason: DropReason)

  function Dropped(reason: DropReason): Decision {
    Decision(Drop, -1, 0, reason)
  }

  function Delivered(fd: int): Decision {
    Decision(DeliverLocal, fd, 0, NoReason)
  }

  datatype Box = Box(config: Tables, registry: Registry, routes: Routes, tunFd: int)

  function RouteToDestination(b: Box, src: uint32, dest: uint32): Decision {
    if b.config.FindAgentForIp(dest) != "" then
      if !b.config.CanAgentsCommunicate(src, dest) then Dropped(AclDenied)
      else if dest in b.registry.byIpv4 then Delivered(b.registry.byIpv4[dest].fd)
      else if Lookup(b.routes, dest) >= 0 then Decision(ForwardSwitch, Lookup(b.routes, dest), 0, NoReason)
      else Decision(RequestRoute, -1, dest, NoReason)
    else if b.tunFd < 0 then Dropped(DestUnreachable)
    else if !b.config.CanReachInternetIp(src, dest) then Dropped(AclDenied)
    else Decision(ForwardInternet, b.tunFd, 0, NoReason)
  }

  function ProcessFromAgent(b: Box, fd: int, h: IPv4Header): Decision {
    if fd !in b.registry.byFd then Dropped(SourceUnknown)
    else
      var sender := b.registry.byFd[fd];
      if h.srcIp != sender.ipv4 then Dropped(SourceSpoof)
      else RouteToDestination(b, sender.ipv4, h.dstIp)
  }

  function ProcessFromSwitch(b: Box, h: IPv4Header): Decision {
    if h.dstIp in b.registry.byIpv4 then Delivered(b.registry.byIpv4[h.dstIp].fd)
    else Dropped(DestUnreachable)
  }

  function ProcessFromTun(b: Box, h: IPv4Header): Decision {
    if h.dstIp !in b.registry.byIpv4 then Dropped(DestUnreachable)
    else if !b.config.CanReachInternetIp(h.dstIp, h.srcIp) then Dropped(AclDenied)
    else Delivered(b.registry.byIpv4[h.dstIp].fd)
  }

  /** `process`, on any bytes. */
  function Process(b: Box, source: SourceType, fd: int, raw: seq<byte>): Decision {
    if !WellFormed(raw) then Dropped(MalformedPacket)
    else
      match source
      case FromAgent => ProcessFromAgent(b, fd, Fields(raw))
      case FromSwitch => ProcessFromSwitch(b, Fields(raw))
      case FromTun => ProcessFromTun(b, Fields(raw))
  }

  // --- Lifecycle hooks ---

  datatype Hook =
    | AgentAuthenticated(name: string, fd: int)
    | AgentDisconnected(fd: int)
    | RouteUpdate(dest: uint32, nextFd: int)
    | SwitchDisconnected(fd: int)

  function Apply(b: Box, h: Hook): Box {
    match h
    case AgentAuthenticated(name, fd) =>
      var ipv4 := b.config.FindIpForAgent(name);
      if ipv4 == 0 then b
      else b.(registry := Agents.Apply(b.registry, Register(name, ipv4, fd)))
    case AgentDisconnected(fd) => b.(registry := Agents.Apply(b.registry, UnregisterByFd(fd)))
    case RouteUpdate(dest, nextFd) => b.(routes := Routing.Apply(b.routes, Update(dest, nextFd)))
    case SwitchDisconnected(fd) => b.(routes := Routing.Apply(b.routes, SwitchDown(fd)))
  }

  function ApplyAll(b: Box, hooks: seq<Hook>): Box
    decreases |hooks|
  {
    if hooks == [] then b else ApplyAll(Apply(b, hooks[0]), hooks[1..])
  }

  /** Registered agents have the address configured for them, and the address index is complete. */
  ghost predicate Sound(b: Box) {
    && Config.Coherent(b.config)
    && Agents.Coherent(b.registry)
    && IpExact(b.registry)
    && (forall n <- b.registry.byName ::
          n in b.config.nameToIp && b.registry.byName[n].ipv4 == b.config.nameToIp[n])
    && (forall d <- b.routes :: b.routes[d] >= 0)
  }

  function Start(config: Tables, tunFd: int): Box {
    Box(config, NOBODY, map[], tunFd)
  }

  lemma HookKeeps(b: Box, h: Hook)
    requires Sound(b)
    ensures Sound(Apply(b, h)) && Apply(b, h).config == b.config && Apply(b, h).tunFd == b.tunFd
  {
    match h
    case AgentAuthenticated(name, fd) =>
      var ipv4 := b.config.FindIpForAgent(name);
      if ipv4 != 0 {
        ApplyCoherent(b.registry, Register(name, ipv4, fd));
        RegisterIpExactIff(b.registry, name, ipv4, fd);
        forall n <- b.registry.byName ensures n != name ==> b.registry.byName[n].ipv4 != ipv4 {
          assert b.config.ipToName[b.config.nameToIp[n]] == n;
        }
      }
    case AgentDisconnected(fd) => ApplyCoherent(b.registry, UnregisterByFd(fd));
    case RouteUpdate(_, _) =>
    case SwitchDisconnected(_) =>
  }

  /** Whatever hooks are called, the address index is exact, because the configuration is injective. */
  lemma {:induction false} EveryRunSound(b: Box, hooks: seq<Hook>)
    requires Sound(b)
    ensures Sound(ApplyAll(b, hooks)) && ApplyAll(b, hooks).config == b.config && ApplyAll(b, hooks).tunFd == b.tunFd
    decreases |hooks|
  {
    if hooks != [] {
      HookKeeps(b, hooks[0]);
      EveryRunSound(Apply(b, hooks[0]), hooks[1..]);
    }
  }

  /** A box made from any file, loaded in full or in part, is sound from the start and after any hooks. */
  lemma LoadedBoxIsSound(pton: Pton, lines: seq<Line>, tunFd: int, hooks: seq<Hook>)
    ensures var b := Start(LoadLines(pton, lines).1, tunFd);
            Sound(b) && FdExact(b.registry) && Sound(ApplyAll(b, hooks))
  {
    LoadIsCoherent(pton, lines);
    EveryRunSound(Start(LoadLines(pton, lines).1, tunFd), hooks);
  }

  /** Authenticating an agent keeps the descriptor index exact exactly when no other live agent has the descriptor. */
  lemma HookFdExactIff(b: Box, name: string, fd: int)
    requires Sound(b) && FdExact(b.registry)
    ensures FdExact(Apply(b, AgentAuthenticated(name, fd)).registry)
       <==> name !in b.config.nameToIp || !FdTaken(b.registry, name, fd)
  {
    SentinelsAreUnambiguous(b.config, name, 0);
    RegisterFdExactIff(b.registry, name, b.config.FindIpForAgent(name), fd);
  }

  /** No agent is authenticated on the descriptor of another live one. */
  predicate NoFdReuse(b: Box, hooks: seq<Hook>)
    decreases |hooks|
  {
    hooks != [] ==>
      && (hooks[0].AgentAuthenticated? ==> !FdTaken(b.registry, hooks[0].name, hooks[0].fd))
      && NoFdReuse(Apply(b, hooks[0]), hooks[1..])
  }

  lemma {:induction false} EveryRunFdExact(b: Box, hooks: seq<Hook>)
    requires Sound(b) && FdExact(b.registry) && NoFdReuse(b, hooks)
    ensures FdExact(ApplyAll(b, hooks).registry)
    decreases |hooks|
  {
    if hooks != [] {
      HookKeeps(b, hooks[0]);
      if hooks[0].AgentAuthenticated? {
        HookFdExactIff(b, hooks[0].name, hooks[0].fd);
      } else if hooks[0].AgentDisconnected? {
        ApplyCoherent(b.registry, UnregisterByFd(hooks[0].fd));
      }
      EveryRunFdExact(Apply(b, hooks[0]), hooks[1..]);
    }
  }

  // --- Policy ---

  /** An agent's packet goes on exactly when it is genuine and the configuration allows it. */
  predicate Authorised(b: Box, fd: int, raw: seq<byte>) {
    WellFormed(raw) &&
    var h := Fields(raw);
    && (exists n <- b.registry.byName :: ByFd(b.registry, b.registry.byName[n]) && b.registry.byName[n] == Agent(n, h.srcIp, fd))
    && (if h.dstIp in b.config.ipToName then Permits(b.config.agentAcl, h.srcIp, h.dstIp)
        else b.tunFd >= 0 && Permits(b.config.internetAcl, h.srcIp, h.dstIp))
  }

  lemma AgentPacketIff(b: Box, fd: int, raw: seq<byte>)
    requires Sound(b)
    ensures !Process(b, FromAgent, fd, raw).action.Drop? <==> Authorised(b, fd, raw)
  {
    if WellFormed(raw) {
      var h := Fields(raw);
      SentinelsAreUnambiguous(b.config, "", h.dstIp);
      if fd in b.registry.byFd && b.registry.byFd[fd].ipv4 == h.srcIp {
        var e := b.registry.byFd[fd];
        assert e.name in b.registry.byName && b.registry.byName[e.name] == Agent(e.name, h.srcIp, fd);
      }
    }
  }

  /** A reply: the packet's addresses the other way round. */
  predicate Answers(reply: seq<byte>, raw: seq<byte>) {
    && WellFormed(raw) && WellFormed(reply)
    && Fields(reply).srcIp == Fields(raw).dstIp
    && Fields(reply).dstIp == Fields(raw).srcIp
  }

  /** Who gets a packet locally can answer its sender exactly when the switch finds it by its own descriptor. */
  lemma ReplySymmetryIff(b: Box, fa: int, raw: seq<byte>, fb: int, reply: seq<byte>)
    requires Sound(b) && Answers(reply, raw)
    requires Process(b, FromAgent, fa, raw) == Delivered(fb)
    ensures Fields(raw).dstIp in b.registry.byIpv4
    ensures Process(b, FromAgent, fb, reply) == Delivered(fa) <==> ByFd(b.registry, b.registry.byIpv4[Fields(raw).dstIp])
  {
    var src, dst := Fields(raw).srcIp, Fields(raw).dstIp;
    var sender := b.registry.byFd[fa];
    assert b.registry.byName[sender.name] == sender;
    assert b.registry.byIpv4[src] == sender && sender.fd == fa;
    assert b.config.ipToName[b.config.nameToIp[sender.name]] == sender.name;
    SentinelsAreUnambiguous(b.config, sender.name, src);
    SentinelsAreUnambiguous(b.config, "", dst);
    var other := b.registry.byIpv4[dst];
    assert other.fd == fb && other.ipv4 == dst;
    if fb in b.registry.byFd && b.registry.byFd[fb] != other {
      OtherAddress(b, b.registry.byFd[fb], other);
    }
  }

  lemma OtherAddress(b: Box, e: Agent, f: Agent)
    requires Sound(b) && Live(b.registry, e) && Live(b.registry, f) && e != f
    ensures e.ipv4 != f.ipv4
  {
    assert b.registry.byIpv4[e.ipv4] == e && b.registry.byIpv4[f.ipv4] == f;
  }

  /** With an exact descriptor index every packet delivered locally can be answered. */
  lemma ReplySymmetry(b: Box, fa: int, raw: seq<byte>, fb: int, reply: seq<byte>)
    requires Sound(b) && FdExact(b.registry) && Answers(reply, raw)
    requires Process(b, FromAgent, fa, raw) == Delivered(fb)
    ensures Process(b, FromAgent, fb, reply) == Delivered(fa)
  {
    ReplySymmetryIff(b, fa, raw, fb, reply);
    var e := b.registry.byIpv4[Fields(raw).dstIp];
    assert b.registry.byName[e.name] == e;
  }

  /** From any file and by any hooks that reuse no descriptor of a live agent: the three indexes agree, and answers arrive. */
  lemma ReachableBoxes(pton: Pton, lines: seq<Line>, tunFd: int, hooks: seq<Hook>)
    requires NoFdReuse(Start(LoadLines(pton, lines).1, tunFd), hooks)
    ensures var b := ApplyAll(Start(LoadLines(pton, lines).1, tunFd), hooks);
            && Agree(b.registry)
            && forall fa, raw, fb, reply ::
                 Answers(reply, raw) && Process(b, FromAgent, fa, raw) == Delivered(fb) ==>
                 Process(b, FromAgent, fb, reply) == Delivered(fa)
  {
    LoadedBoxIsSound(pton, lines, tunFd, hooks);
    EveryRunFdExact(Start(LoadLines(pton, lines).1, tunFd), hooks);
    var b := ApplyAll(Start(LoadLines(pton, lines).1, tunFd), hooks);
    ExactMeansAgree(b.registry);
    hide Process, Answers, Sound, FdExact;
    forall fa, raw, fb, reply | Answers(reply, raw) && Process(b, FromAgent, fa, raw) == Delivered(fb)
      ensures Process(b, FromAgent, fb, reply) == Delivered(fa)
    {
      ReplySymmetry(b, fa, raw, fb, reply);
    }
  }

  /** Two live agents on one descriptor are enough for an answer to be taken for a forgery. */
  lemma AnswerOnSharedFdIsDropped(raw: seq<byte>, reply: seq<byte>)
    requires Answers(reply, raw) && Fields(raw).srcIp == 1 && Fields(raw).dstIp == 2
    ensures var config := Tables(map["a" := 1, "b" := 2, "c" := 3], map[1 := "a", 2 := "b", 3 := "c"],
                                 map[1 := {2}, 2 := {1}], map[]);
            var hooks := [AgentAuthenticated("a", 5), AgentAuthenticated("b", 6), AgentAuthenticated("c", 6)];
            var b := ApplyAll(Start(config, -1), hooks);
            && Config.Coherent(config)
            && Process(b, FromAgent, 5, raw) == Delivered(6)
            && Process(b, FromAgent, 6, reply) == Dropped(SourceSpoof)
  {
    var config := Tables(map["a" := 1, "b" := 2, "c" := 3], map[1 := "a", 2 := "b", 3 := "c"],
                         map[1 := {2}, 2 := {1}], map[]);
    var hooks := [AgentAuthenticated("a", 5), AgentAuthenticated("b", 6), AgentAuthenticated("c", 6)];
    var a := Apply(Start(config, -1), hooks[0]);
    var ab := Apply(a, hooks[1]);
    var abc := Apply(ab, hooks[2]);
    assert hooks[1..][1..][1..] == [];
    assert ApplyAll(Start(config, -1), hooks) == abc;
  }

  /** What comes back from the internet reaches the descriptor that sent. */
  lemma InternetReply(b: Box, fa: int, raw: seq<byte>, tun: int, reply: seq<byte>)
    requires Sound(b) && Answers(reply, raw)
    requires Process(b, FromAgent, fa, raw).action.ForwardInternet?
    ensures Process(b, FromTun, tun, reply) == Delivered(fa)
  {
    var sender := b.registry.byFd[fa];
    assert b.registry.byName[sender.name] == sender;
    assert b.registry.byIpv4[sender.ipv4] == sender;
  }
}
