/** The packet engine of a switch: hooks that change its tables, and decisions that only read them. */
module BlackBoxes {
  import opened Wire
  import opened Config
  import opened Agents
  import opened Routing
  import IPv4
  import opened PacketPolicy
  import opened AgentRegistries

  class BlackBox {
    const config: Tables
    const registry: AgentRegistry
    const routing: RoutingTable
    const tunFd: int

    ghost predicate Valid()
      reads registry
    {
      registry.Valid()
    }

    ghost function View(): Box
      reads registry, routing
    {
      Box(config, registry.View(), routing.routes, tunFd)
    }

    constructor (config: Tables, tunFd: int)
      ensures Valid() && View() == Start(config, tunFd)
      ensures fresh(registry) && fresh(routing)
    {
      this.config, this.tunFd := config, tunFd;
      registry := new AgentRegistry();
      routing := new RoutingTable();
    }

    method OnAgentAuthenticated(name: string, fd: int) returns (ok: bool)
      requires Valid()
      modifies registry
      ensures Valid() && View() == PacketPolicy.Apply(old(View()), AgentAuthenticated(name, fd))
      ensures Config.Coherent(config) ==> (ok <==> name in config.nameToIp)
    {
      var ipv4 := config.FindIpForAgent(name);
      if Config.Coherent(config) {
        SentinelsAreUnambiguous(config, name, 0);
      }
      if ipv4 == 0 {
        return false;
      }
      var entry := registry.RegisterAgent(name, ipv4, fd);
      return true;
    }

    method OnAgentDisconnected(fd: int)
      requires Valid()
      modifies registry
      ensures Valid() && View() == PacketPolicy.Apply(old(View()), AgentDisconnected(fd))
    {
      registry.UnregisterByFd(fd);
    }

    method OnRouteUpdate(dest: uint32, nextSwitchFd: int)
      requires Valid()
      modifies routing
      ensures Valid() && View() == PacketPolicy.Apply(old(View()), RouteUpdate(dest, nextSwitchFd))
    {
      if nextSwitchFd < 0 {
        routing.RemoveRoute(dest);
      } else {
        routing.SetRoute(dest, nextSwitchFd);
      }
    }

    method OnSwitchDisconnected(switchFd: int)
      requires Valid()
      modifies routing
      ensures Valid() && View() == PacketPolicy.Apply(old(View()), SwitchDisconnected(switchFd))
    {
      routing.RemoveRoutesForSwitch(switchFd);
    }

    method Process(source: SourceType, fd: int, raw: seq<byte>) returns (d: Decision)
      requires Valid()
      ensures d == PacketPolicy.Process(View(), source, fd, raw)
    {
      var ok, hdr := IPv4.Parse(raw);
      if !ok {
        return Dropped(MalformedPacket);
      }
      match source
      case FromAgent => d := ProcessFromAgent(fd, hdr);
      case FromSwitch => d := ProcessFromSwitch(hdr);
      case FromTun => d := ProcessFromTun(hdr);
    }

    method ProcessFromAgent(fd: int, hdr: IPv4.IPv4Header) returns (d: Decision)
      requires Valid()
      ensures d == PacketPolicy.ProcessFromAgent(View(), fd, hdr)
    {
      var sender := registry.FindByFd(fd);
      if sender == null {
        return Dropped(SourceUnknown);
      }
      if hdr.srcIp != sender.virtualIpv4 {
        return Dropped(SourceSpoof);
      }
      d := RouteToDestination(sender.virtualIpv4, hdr.dstIp);
    }

    method ProcessFromSwitch(hdr: IPv4.IPv4Header) returns (d: Decision)
      requires Valid()
      ensures d == PacketPolicy.ProcessFromSwitch(View(), hdr)
    {
      var dest := registry.FindByIpv4(hdr.dstIp);
      if dest != null {
        return Delivered(dest.fd);
      }
      return Dropped(DestUnreachable);
    }

    method ProcessFromTun(hdr: IPv4.IPv4Header) returns (d: Decision)
      requires Valid()
      ensures d == PacketPolicy.ProcessFromTun(View(), hdr)
    {
      var dest := registry.FindByIpv4(hdr.dstIp);
      if dest == null {
        return Dropped(DestUnreachable);
      }
      if !config.CanReachInternetIp(hdr.dstIp, hdr.srcIp) {
        return Dropped(AclDenied);
      }
      return Delivered(dest.fd);
    }

    method RouteToDestination(src: uint32, dest: uint32) returns (d: Decision)
      requires Valid()
      ensures d == PacketPolicy.RouteToDestination(View(), src, dest)
    {
      var destAgent := config.FindAgentForIp(dest);
      if destAgent != "" {
        if !config.CanAgentsCommunicate(src, dest) {
          return Dropped(AclDenied);
        }
        var local := registry.FindByIpv4(dest);
        if local != null {
          return Delivered(local.fd);
        }
        var nextSwitch := Lookup(routing.routes, dest);
        if nextSwitch >= 0 {
          return Decision(ForwardSwitch, nextSwitch, 0, NoReason);
        }
        return Decision(RequestRoute, -1, dest, NoReason);
      }
      if tunFd < 0 {
        return Dropped(DestUnreachable);
      }
      if !config.CanReachInternetIp(src, dest) {
        return Dropped(AclDenied);
      }
      return Decision(ForwardInternet, tunFd, 0, NoReason);
    }
  }
}
