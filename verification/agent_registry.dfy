/** The registry with its entries on the heap, and what it owns at each moment. */
module AgentRegistries {
  import opened Wire
  import opened Agents
  import opened Maps

  class AgentEntry {
    const name: string
    const virtualIpv4: uint32
    const fd: int

    constructor (name: string, virtualIpv4: uint32, fd: int)
      ensures this.name == name && this.virtualIpv4 == virtualIpv4 && this.fd == fd
    {
      this.name, this.virtualIpv4, this.fd := name, virtualIpv4, fd;
    }

    ghost function Value(): Agent {
      Agent(name, virtualIpv4, fd)
    }
  }

  class AgentRegistry {
    var byIpv4: map<uint32, AgentEntry>
    var byFd: map<int, AgentEntry>
    var byName: map<string, AgentEntry>

    /** Entries allocated and not yet deleted. */
    ghost var live: set<AgentEntry>

    ghost function View(): Registry
      reads this
    {
      Registry(map ip <- byIpv4 :: byIpv4[ip].Value(),
               map fd <- byFd :: byFd[fd].Value(),
               map n <- byName :: byName[n].Value())
    }

    /** `byName` holds each live entry once; every pointer leads to a live entry under its key. */
    ghost predicate Valid()
      reads this
    {
      && (forall e <- live :: e.name in byName && byName[e.name] == e)
      && (forall n <- byName :: byName[n] in live && byName[n].name == n)
      && (forall ip <- byIpv4 :: byIpv4[ip] in live && byIpv4[ip].virtualIpv4 == ip)
      && (forall fd <- byFd :: byFd[fd] in live && byFd[fd].fd == fd)
    }

    lemma ViewIsCoherent()
      requires Valid()
      ensures Coherent(View())
    {
    }

    constructor ()
      ensures Valid() && View() == NOBODY && live == {}
    {
      byIpv4, byFd, byName, live := map[], map[], map[], {};
    }

    /** `register_agent`. */
    method RegisterAgent(name: string, virtualIpv4: uint32, fd: int) returns (entry: AgentEntry)
      requires Valid()
      modifies this
      ensures Valid() && View() == Apply(old(View()), Register(name, virtualIpv4, fd))
      ensures fresh(entry) && entry.Value() == Agent(name, virtualIpv4, fd)
      ensures live == (if name in old(byName) then old(live) - {old(byName)[name]} else old(live)) + {entry}
    {
      if name in byName {
        RemoveEntry(byName[name]);
      }
      entry := new AgentEntry(name, virtualIpv4, fd);
      AddEntry(entry);
    }

    method AddEntry(entry: AgentEntry)
      requires Valid() && entry.name !in byName
      modifies this
      ensures Valid() && View() == Add(old(View()), entry.Value())
      ensures live == old(live) + {entry}
    {
      byIpv4 := byIpv4[entry.virtualIpv4 := entry];
      byFd := byFd[entry.fd := entry];
      byName := byName[entry.name := entry];
      live := live + {entry};
      ghost var after := Add(old(View()), entry.Value());
      SameMap(View().byIpv4, after.byIpv4);
      SameMap(View().byFd, after.byFd);
      SameMap(View().byName, after.byName);
    }

    /** `unregister_by_fd`. */
    method UnregisterByFd(fd: int)
      requires Valid()
      modifies this
      ensures Valid() && View() == Apply(old(View()), Agents.UnregisterByFd(fd))
      ensures live == if fd in old(byFd) then old(live) - {old(byFd)[fd]} else old(live)
    {
      if fd in byFd {
        RemoveEntry(byFd[fd]);
      }
    }

    /** `unregister_by_name`. */
    method UnregisterByName(name: string)
      requires Valid()
      modifies this
      ensures Valid() && View() == Apply(old(View()), Agents.UnregisterByName(name))
      ensures live == if name in old(byName) then old(live) - {old(byName)[name]} else old(live)
    {
      if name in byName {
        RemoveEntry(byName[name]);
      }
    }

    function FindByIpv4(ipv4: uint32): AgentEntry?
      reads this
    {
      if ipv4 in byIpv4 then byIpv4[ipv4] else null
    }

    function FindByFd(fd: int): AgentEntry?
      reads this
    {
      if fd in byFd then byFd[fd] else null
    }

    /** `remove_entry`: the entry must not have been deleted before, and nothing leads to it after. */
    method RemoveEntry(entry: AgentEntry)
      requires Valid() && entry in live
      modifies this
      ensures Valid() && View() == Remove(old(View()), entry.Value())
      ensures live == old(live) - {entry}
    {
      byIpv4 := byIpv4 - {entry.virtualIpv4};
      byFd := byFd - {entry.fd};
      byName := byName - {entry.name};
      live := live - {entry};
      ghost var after := Remove(old(View()), entry.Value());
      SameMap(View().byIpv4, after.byIpv4);
      SameMap(View().byFd, after.byFd);
      SameMap(View().byName, after.byName);
    }

    /** The destructor: every live entry is deleted, none of them twice. */
    method Destroy()
      requires Valid()
      modifies this
      ensures live == {} && View() == NOBODY
    {
      var names := byName.Keys;
      while names != {}
        invariant names <= byName.Keys && byName == old(byName)
        invariant forall e :: e in live <==> e in old(live) && e.name in names
        decreases |names|
      {
        var n :| n in names;
        assert byName[n] in live;
        live := live - {byName[n]};
        names := names - {n};
      }
      byIpv4, byFd, byName := map[], map[], map[];
    }
  }
}
