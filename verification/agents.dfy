/** The agents connected to a switch, indexed three ways. */
module Agents {
  import opened Wire

  datatype Agent = Agent(name: string, ipv4: uint32, fd: int)

  datatype Registry = Registry(byIpv4: map<uint32, Agent>, byFd: map<int, Agent>, byName: map<string, Agent>)

  const NOBODY := Registry(map[], map[], map[])

  /** `remove_entry`: three keys go, whoever they lead to. */
  function Remove(r: Registry, e: Agent): Registry {
    Registry(r.byIpv4 - {e.ipv4}, r.byFd - {e.fd}, r.byName - {e.name})
  }

  function Add(r: Registry, e: Agent): Registry {
    Registry(r.byIpv4[e.ipv4 := e], r.byFd[e.fd := e], r.byName[e.name := e])
  }

  datatype Op =
    | Register(name: string, ipv4: uint32, fd: int)
    | UnregisterByFd(fd: int)
    | UnregisterByName(name: string)

  function Apply(r: Registry, op: Op): Registry {
    match op
    case Register(name, ipv4, fd) =>
      Add(if name in r.byName then Remove(r, r.byName[name]) else r, Agent(name, ipv4, fd))
    case UnregisterByFd(fd) => if fd in r.byFd then Remove(r, r.byFd[fd]) else r
    case UnregisterByName(name) => if name in r.byName then Remove(r, r.byName[name]) else r
  }

  function ApplyAll(r: Registry, ops: seq<Op>): Registry
    decreases |ops|
  {
    if ops == [] then r else ApplyAll(Apply(r, ops[0]), ops[1..])
  }

  /** The entry is in use: the index that owns it holds it. */
  predicate Live(r: Registry, e: Agent) {
    e.name in r.byName && r.byName[e.name] == e
  }

  /** Every index leads to live entries, under their own keys. */
  predicate Coherent(r: Registry) {
    && (forall n <- r.byName :: r.byName[n].name == n)
    && (forall ip <- r.byIpv4 :: r.byIpv4[ip].ipv4 == ip && Live(r, r.byIpv4[ip]))
    && (forall fd <- r.byFd :: r.byFd[fd].fd == fd && Live(r, r.byFd[fd]))
  }

  predicate ByFd(r: Registry, e: Agent) {
    e.fd in r.byFd && r.byFd[e.fd] == e
  }

  predicate ByIpv4(r: Registry, e: Agent) {
    e.ipv4 in r.byIpv4 && r.byIpv4[e.ipv4] == e
  }

  /** Every live entry can be found by its descriptor. */
  predicate FdExact(r: Registry) {
    forall n <- r.byName :: ByFd(r, r.byName[n])
  }

  /** Every live entry can be found by its address. */
  predicate IpExact(r: Registry) {
    forall n <- r.byName :: ByIpv4(r, r.byName[n])
  }

  /** Some other live name has this descriptor. */
  predicate FdTaken(r: Registry, name: string, fd: int) {
    exists n <- r.byName :: n != name && r.byName[n].fd == fd
  }

  predicate IpTaken(r: Registry, name: string, ipv4: uint32) {
    exists n <- r.byName :: n != name && r.byName[n].ipv4 == ipv4
  }

  lemma RemoveKeeps(r: Registry, e: Agent)
    requires Coherent(r) && Live(r, e)
    ensures Coherent(Remove(r, e))
    ensures FdExact(r) ==> FdExact(Remove(r, e))
    ensures IpExact(r) ==> IpExact(Remove(r, e))
  {
  }

  lemma ApplyCoherent(r: Registry, op: Op)
    requires Coherent(r)
    ensures Coherent(Apply(r, op))
    ensures !op.Register? && FdExact(r) ==> FdExact(Apply(r, op))
    ensures !op.Register? && IpExact(r) ==> IpExact(Apply(r, op))
  {
    match op
    case Register(name, _, _) =>
      if name in r.byName {
        RemoveKeeps(r, r.byName[name]);
      }
    case UnregisterByFd(fd) =>
      if fd in r.byFd {
        RemoveKeeps(r, r.byFd[fd]);
      }
    case UnregisterByName(name) =>
      if name in r.byName {
        RemoveKeeps(r, r.byName[name]);
      }
  }

  /** Who is registered after a call: the one registered, and all who were, but those of its name or found by its key. */
  lemma LiveAfter(r: Registry, op: Op, e: Agent)
    requires Coherent(r)
    ensures Live(Apply(r, op), e) <==>
            match op
            case Register(name, ipv4, fd) => if e.name == name then e == Agent(name, ipv4, fd) else Live(r, e)
            case UnregisterByFd(fd) => Live(r, e) && !(fd in r.byFd && r.byFd[fd] == e)
            case UnregisterByName(name) => Live(r, e) && e.name != name
  {
  }

  /** Registering keeps the descriptor index complete exactly when no other live name has that descriptor. */
  lemma RegisterFdExactIff(r: Registry, name: string, ipv4: uint32, fd: int)
    requires Coherent(r) && FdExact(r)
    ensures FdExact(Apply(r, Register(name, ipv4, fd))) <==> !FdTaken(r, name, fd)
  {
    var s := if name in r.byName then Remove(r, r.byName[name]) else r;
    if name in r.byName {
      RemoveKeeps(r, r.byName[name]);
    }
    assert FdExact(s);
    var p := Apply(r, Register(name, ipv4, fd));
    forall n | n in s.byName ensures n != name && n in p.byName && p.byName[n] == r.byName[n] {
    }
  }

  lemma RegisterIpExactIff(r: Registry, name: string, ipv4: uint32, fd: int)
    requires Coherent(r) && IpExact(r)
    ensures IpExact(Apply(r, Register(name, ipv4, fd))) <==> !IpTaken(r, name, ipv4)
  {
    var s := if name in r.byName then Remove(r, r.byName[name]) else r;
    if name in r.byName {
      RemoveKeeps(r, r.byName[name]);
    }
    assert IpExact(s);
    var p := Apply(r, Register(name, ipv4, fd));
    forall n | n in s.byName ensures n != name && n in p.byName && p.byName[n] == r.byName[n] {
    }
  }

  /** Over any calls at all, no index ever leads to an entry that was freed or to one under a wrong key. */
  lemma {:induction false} EveryRunCoherent(r: Registry, ops: seq<Op>)
    requires Coherent(r)
    ensures Coherent(ApplyAll(r, ops))
    decreases |ops|
  {
    if ops != [] {
      ApplyCoherent(r, ops[0]);
      EveryRunCoherent(Apply(r, ops[0]), ops[1..]);
    }
  }

  /** No call registers a descriptor or an address that another live name has. */
  predicate NoReuse(r: Registry, ops: seq<Op>)
    decreases |ops|
  {
    ops != [] ==>
      && (ops[0].Register? ==> !FdTaken(r, ops[0].name, ops[0].fd) && !IpTaken(r, ops[0].name, ops[0].ipv4))
      && NoReuse(Apply(r, ops[0]), ops[1..])
  }

  /** The three indexes hold the same entries. */
  ghost predicate Agree(r: Registry) {
    forall e :: (Live(r, e) <==> ByFd(r, e)) && (Live(r, e) <==> ByIpv4(r, e))
  }

  lemma ExactMeansAgree(r: Registry)
    requires Coherent(r) && FdExact(r) && IpExact(r)
    ensures Agree(r)
  {
  }

  /** Without such reuse the three indexes hold the same entries throughout. */
  lemma {:induction false} IndexesAgree(r: Registry, ops: seq<Op>)
    requires Coherent(r) && FdExact(r) && IpExact(r) && NoReuse(r, ops)
    ensures Agree(ApplyAll(r, ops))
    decreases |ops|
  {
    if ops == [] {
      ExactMeansAgree(r);
    } else {
      ApplyCoherent(r, ops[0]);
      if ops[0].Register? {
        RegisterFdExactIff(r, ops[0].name, ops[0].ipv4, ops[0].fd);
        RegisterIpExactIff(r, ops[0].name, ops[0].ipv4, ops[0].fd);
      }
      IndexesAgree(Apply(r, ops[0]), ops[1..]);
    }
  }
}
