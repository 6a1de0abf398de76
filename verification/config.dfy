/** The configuration of a switch: who has which address, and who may talk to whom. */
module Config {
  import opened Wire

  datatype Option<+T> = None | Some(value: T)

  type Token = s: string | s != "" witness "x"

  /** The two tokens of a line that is neither blank nor a comment. */
  datatype Line = Line(first: Token, second: Token)

  /** `inet_pton`; 0.0.0.0 is an address to it, but not to this program. */
  type Pton = string -> Option<uint32>

  const INTERNET_PREFIX := "::internet:"

  predicate IsIpv4(pton: Pton, s: string) {
    pton(s).Some?
  }

  function ParseIpv4(pton: Pton, s: string): uint32 {
    if pton(s).Some? then pton(s).value else 0
  }

  type Acl = map<uint32, set<uint32>>

  predicate Permits(acl: Acl, a: uint32, b: uint32) {
    a in acl && b in acl[a]
  }

  /** `acl[a].insert(b)`. */
  function Insert(acl: Acl, a: uint32, b: uint32): Acl {
    acl[a := (if a in acl then acl[a] else {}) + {b}]
  }

  /** The four maps of `Config`, and its lookups with 0 and "" for what is not there. */
  datatype Tables = Tables(
    nameToIp: map<string, uint32>,
    ipToName: map<uint32, string>,
    agentAcl: Acl,
    internetAcl: Acl)
  {
    function FindAgentForIp(ipv4: uint32): string {
      if ipv4 in ipToName then ipToName[ipv4] else ""
    }

    function FindIpForAgent(name: string): uint32 {
      if name in nameToIp then nameToIp[name] else 0
    }

    predicate CanAgentsCommunicate(src: uint32, dst: uint32) {
      Permits(agentAcl, src, dst)
    }

    predicate CanReachInternetIp(agent: uint32, internet: uint32) {
      Permits(internetAcl, agent, internet)
    }

    predicate HasAnyInternetAccess(agent: uint32) {
      agent in internetAcl && internetAcl[agent] != {}
    }
  }

  const EMPTY := Tables(map[], map[], map[], map[])

  /** One line of the first pass. */
  function Assign(pton: Pton, t: Tables, l: Line): (bool, Tables) {
    if !IsIpv4(pton, l.second) then (true, t)
    else
      var ipv4 := ParseIpv4(pton, l.second);
      if ipv4 == 0 || ipv4 in t.ipToName || l.first in t.nameToIp then (false, t)
      else (true, t.(nameToIp := t.nameToIp[l.first := ipv4], ipToName := t.ipToName[ipv4 := l.first]))
  }

  predicate IsInternetRule(l: Line) {
    INTERNET_PREFIX <= l.second
  }

  function InternetIp(pton: Pton, l: Line): uint32
    requires IsInternetRule(l)
  {
    ParseIpv4(pton, l.second[|INTERNET_PREFIX|..])
  }

  /** One line of the second pass. */
  function Rule(pton: Pton, t: Tables, l: Line): (bool, Tables) {
    if IsIpv4(pton, l.second) then (true, t)
    else if l.first !in t.nameToIp then (false, t)
    else
      var src := t.nameToIp[l.first];
      if IsInternetRule(l) then
        var ip := InternetIp(pton, l);
        if ip == 0 then (false, t)
        else (true, t.(internetAcl := Insert(t.internetAcl, src, ip)))
      else if l.second !in t.nameToIp then (false, t)
      else
        var dst := t.nameToIp[l.second];
        (true, t.(agentAcl := Insert(Insert(t.agentAcl, src, dst), dst, src)))
  }

  function AssignAll(pton: Pton, t: Tables, lines: seq<Line>): (bool, Tables)
    decreases |lines|
  {
    if lines == [] then (true, t)
    else
      var (ok, t1) := Assign(pton, t, lines[0]);
      if ok then AssignAll(pton, t1, lines[1..]) else (false, t1)
  }

  function RuleAll(pton: Pton, t: Tables, lines: seq<Line>): (bool, Tables)
    decreases |lines|
  {
    if lines == [] then (true, t)
    else
      var (ok, t1) := Rule(pton, t, lines[0]);
      if ok then RuleAll(pton, t1, lines[1..]) else (false, t1)
  }

  /** Both passes: whether all went well, and what the maps hold either way. */
  function LoadLines(pton: Pton, lines: seq<Line>): (bool, Tables) {
    var (ok, t) := AssignAll(pton, EMPTY, lines);
    if ok then RuleAll(pton, t, lines) else (false, t)
  }

  // --- What every load leaves, successful or not ---

  predicate Inverse(t: Tables) {
    && (forall n <- t.nameToIp :: t.nameToIp[n] in t.ipToName && t.ipToName[t.nameToIp[n]] == n)
    && (forall ip <- t.ipToName :: t.ipToName[ip] in t.nameToIp && t.nameToIp[t.ipToName[ip]] == ip)
  }

  /** The two maps are inverse, the agent ACL is symmetric, all is about configured agents, and no sentinel is stored. */
  ghost predicate Coherent(t: Tables) {
    && Inverse(t)
    && 0 !in t.ipToName && "" !in t.nameToIp
    && (forall a, b :: Permits(t.agentAcl, a, b) ==> Permits(t.agentAcl, b, a) && a in t.ipToName)
    && (forall a, b :: Permits(t.internetAcl, a, b) ==> a in t.ipToName && b != 0)
  }

  lemma {:induction false} AssignAllCoherent(pton: Pton, t: Tables, lines: seq<Line>)
    requires Coherent(t)
    ensures Coherent(AssignAll(pton, t, lines).1)
    decreases |lines|
  {
    if lines != [] {
      var (ok, t1) := Assign(pton, t, lines[0]);
      if ok {
        AssignAllCoherent(pton, t1, lines[1..]);
      }
    }
  }

  lemma InsertPermits(acl: Acl, a: uint32, b: uint32)
    ensures forall x, y :: Permits(Insert(acl, a, b), x, y) <==> Permits(acl, x, y) || (x == a && y == b)
  {
  }

  lemma RuleCoherent(pton: Pton, t: Tables, l: Line)
    requires Coherent(t)
    ensures Coherent(Rule(pton, t, l).1)
  {
    var (ok, t1) := Rule(pton, t, l);
    if ok && !IsIpv4(pton, l.second) {
      var src := t.nameToIp[l.first];
      if IsInternetRule(l) {
        InsertPermits(t.internetAcl, src, InternetIp(pton, l));
      } else {
        var dst := t.nameToIp[l.second];
        InsertPermits(t.agentAcl, src, dst);
        InsertPermits(Insert(t.agentAcl, src, dst), dst, src);
      }
    }
  }

  lemma {:induction false} RuleAllCoherent(pton: Pton, t: Tables, lines: seq<Line>)
    requires Coherent(t)
    ensures Coherent(RuleAll(pton, t, lines).1)
    decreases |lines|
  {
    if lines != [] {
      RuleCoherent(pton, t, lines[0]);
      var (ok, t1) := Rule(pton, t, lines[0]);
      if ok {
        RuleAllCoherent(pton, t1, lines[1..]);
      }
    }
  }

  lemma LoadIsCoherent(pton: Pton, lines: seq<Line>)
    ensures Coherent(LoadLines(pton, lines).1)
  {
    var (ok, t) := AssignAll(pton, EMPTY, lines);
    AssignAllCoherent(pton, EMPTY, lines);
    RuleAllCoherent(pton, t, lines);
  }

  /** In such tables 0 and "" mean "not configured" and nothing else, and the two lookups undo each other. */
  lemma SentinelsAreUnambiguous(t: Tables, name: string, ipv4: uint32)
    requires Coherent(t)
    ensures t.FindIpForAgent(name) == 0 <==> name !in t.nameToIp
    ensures t.FindAgentForIp(ipv4) == "" <==> ipv4 !in t.ipToName
    ensures name != "" && ipv4 != 0 ==> (t.FindIpForAgent(name) == ipv4 <==> t.FindAgentForIp(ipv4) == name)
  {
    assert name in t.nameToIp ==> t.nameToIp[name] in t.ipToName;
    assert ipv4 in t.ipToName ==> t.ipToName[ipv4] in t.nameToIp;
  }

  /** An agent has internet access when there is an address it can reach. */
  lemma AnyInternetAccessIff(t: Tables, agent: uint32)
    ensures t.HasAnyInternetAccess(agent) <==> exists internet :: t.CanReachInternetIp(agent, internet)
  {
    if t.HasAnyInternetAccess(agent) {
      var internet :| internet in t.internetAcl[agent];
      assert t.CanReachInternetIp(agent, internet);
    }
  }
}
