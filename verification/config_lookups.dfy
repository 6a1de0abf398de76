/** What the lookups answer after a file was loaded, in terms of its lines. */
module ConfigLookups {
  import opened Wire
  import opened Config
  import opened ConfigMeaning
  import ConfigOrder

  /** A line that gives `name` the address `ipv4`. */
  predicate HostLine(pton: Pton, l: Line, name: string, ipv4: uint32) {
    pton(l.second) == Some(ipv4) && l.first == name
  }

  ghost predicate Host(pton: Pton, lines: seq<Line>, name: string, ipv4: uint32) {
    exists l <- lines :: HostLine(pton, l, name, ipv4)
  }

  /** A line with two names, `x y`. */
  predicate TalkLine(pton: Pton, l: Line, x: string, y: string) {
    pton(l.second) == None && !("::internet:" <= l.second) && l.first == x && l.second == y
  }

  /** A line with a name and an internet address, `x ::internet:i`. */
  predicate NetLine(pton: Pton, l: Line, x: string, i: uint32) {
    && pton(l.second) == None && l.first == x
    && "::internet:" <= l.second && pton(l.second[11..]) == Some(i) && i != 0
  }

  /** Some line lets the hosts at `a` and `b` talk. */
  ghost predicate MayTalk(pton: Pton, lines: seq<Line>, a: uint32, b: uint32) {
    exists l <- lines, x, y :: Talks(pton, lines, l, x, y, a, b)
  }

  ghost predicate Talks(pton: Pton, lines: seq<Line>, l: Line, x: string, y: string, a: uint32, b: uint32) {
    && (TalkLine(pton, l, x, y) || TalkLine(pton, l, y, x))
    && Host(pton, lines, x, a) && Host(pton, lines, y, b)
  }

  /** Some line lets the host at `a` reach the internet address `i`. */
  ghost predicate MayReach(pton: Pton, lines: seq<Line>, a: uint32, i: uint32) {
    exists l <- lines, x :: NetLine(pton, l, x, i) && Host(pton, lines, x, a)
  }

  lemma InternetLines(pton: Pton, l: Line)
    ensures IsInternetRule(l) <==> "::internet:" <= l.second
    ensures IsInternetRule(l) ==>
      match pton(l.second[11..]) case None => InternetIp(pton, l) == 0 case Some(i) => InternetIp(pton, l) == i
  {
    assert INTERNET_PREFIX == "::internet:" && |INTERNET_PREFIX| == 11;
  }

  lemma DeclaredIsHost(pton: Pton, lines: seq<Line>, name: string, ipv4: uint32)
    ensures Declared(pton, multiset(lines), name, ipv4) <==> Host(pton, lines, name, ipv4)
  {
    assert forall l :: l in multiset(lines) <==> l in lines;
    assert forall l :: Declares(pton, l, name, ipv4) <==> HostLine(pton, l, name, ipv4);
  }

  lemma HostsAreConfigured(pton: Pton, lines: seq<Line>, name: string, ipv4: uint32)
    requires LoadLines(pton, lines).0
    ensures var t := LoadLines(pton, lines).1;
            Host(pton, lines, name, ipv4) <==> name in t.nameToIp && t.nameToIp[name] == ipv4
  {
    LoadMeaning(pton, lines);
    DeclaredIsHost(pton, lines, name, ipv4);
    var t := LoadLines(pton, lines).1;
    assert Maps(t.nameToIp, name, ipv4) <==> Declared(pton, multiset(lines), name, ipv4);
  }

  /** The name and address lookups are the assignments of the file, in both directions. */
  lemma NamesMeanLines(pton: Pton, lines: seq<Line>, name: string, ipv4: uint32)
    requires LoadLines(pton, lines).0 && name != "" && ipv4 != 0
    ensures var t := LoadLines(pton, lines).1;
            && (t.FindIpForAgent(name) == ipv4 <==> Host(pton, lines, name, ipv4))
            && (t.FindAgentForIp(ipv4) == name <==> Host(pton, lines, name, ipv4))
  {
    var t := LoadLines(pton, lines).1;
    LoadMeaning(pton, lines);
    LoadIsCoherent(pton, lines);
    DeclaredIsHost(pton, lines, name, ipv4);
    SentinelsAreUnambiguous(t, name, ipv4);
    assert Maps(t.nameToIp, name, ipv4) <==> Declared(pton, multiset(lines), name, ipv4);
  }

  /** Two agents may talk exactly when a line of the file says so, in one order or the other. */
  lemma TalkMeansLine(pton: Pton, lines: seq<Line>, a: uint32, b: uint32)
    requires LoadLines(pton, lines).0
    ensures LoadLines(pton, lines).1.CanAgentsCommunicate(a, b) <==> MayTalk(pton, lines, a, b)
  {
    var t := LoadLines(pton, lines).1;
    LoadMeaning(pton, lines);
    forall l | l in lines
      ensures Grants(pton, t.nameToIp, l, a, b) <==> exists x, y :: Talks(pton, lines, l, x, y, a, b)
    {
      GrantIsTalk(pton, lines, t, l, a, b);
    }
    assert forall l :: l in multiset(lines) <==> l in lines;
    assert Permits(t.agentAcl, a, b) <==> Granted(pton, t.nameToIp, multiset(lines), a, b);
    if MayTalk(pton, lines, a, b) {
      var l, x, y :| l in lines && Talks(pton, lines, l, x, y, a, b);
    }
  }

  lemma GrantIsTalk(pton: Pton, lines: seq<Line>, t: Tables, l: Line, a: uint32, b: uint32)
    requires Means(pton, multiset(lines), t)
    ensures Grants(pton, t.nameToIp, l, a, b) <==> exists x, y :: Talks(pton, lines, l, x, y, a, b)
  {
    InternetLines(pton, l);
    forall n, ip ensures Maps(t.nameToIp, n, ip) <==> Host(pton, lines, n, ip) {
      DeclaredIsHost(pton, lines, n, ip);
    }
    if Grants(pton, t.nameToIp, l, a, b) {
      if Maps(t.nameToIp, l.first, a) && Maps(t.nameToIp, l.second, b) {
        assert Talks(pton, lines, l, l.first, l.second, a, b);
      } else {
        assert Talks(pton, lines, l, l.second, l.first, a, b);
      }
    }
  }

  /** An agent may reach an internet address exactly when a line of the file says so. */
  lemma ReachMeansLine(pton: Pton, lines: seq<Line>, a: uint32, i: uint32)
    requires LoadLines(pton, lines).0
    ensures LoadLines(pton, lines).1.CanReachInternetIp(a, i) <==> MayReach(pton, lines, a, i)
  {
    var t := LoadLines(pton, lines).1;
    LoadMeaning(pton, lines);
    LoadSucceedsIff(pton, lines);
    forall n, ip ensures Maps(t.nameToIp, n, ip) <==> Host(pton, lines, n, ip) {
      DeclaredIsHost(pton, lines, n, ip);
    }
    assert forall l :: l in multiset(lines) <==> l in lines;
    forall l | l in lines
      ensures GrantsInternet(pton, t.nameToIp, l, a, i) <==> exists x :: NetLine(pton, l, x, i) && Host(pton, lines, x, a)
    {
      InternetLines(pton, l);
      if GrantsInternet(pton, t.nameToIp, l, a, i) {
        assert Resolves(pton, multiset(lines), l);
        assert NetLine(pton, l, l.first, i);
      }
    }
    assert Permits(t.internetAcl, a, i) <==> GrantedInternet(pton, t.nameToIp, multiset(lines), a, i);
  }

  // --- When a file loads ---

  /** Assignments are of addresses other than 0, and no two are of one name or of one address. */
  predicate HostsOk(pton: Pton, lines: seq<Line>) {
    && (forall l <- lines :: pton(l.second) != Some(0))
    && (forall i, j :: 0 <= i < j < |lines| && pton(lines[i].second).Some? && pton(lines[j].second).Some? ==>
          lines[i].first != lines[j].first && pton(lines[i].second) != pton(lines[j].second))
  }

  ghost predicate Named(pton: Pton, lines: seq<Line>, name: string) {
    exists l <- lines :: pton(l.second).Some? && l.first == name
  }

  /** A line that assigns nothing is a rule between hosts or of a host and an internet address. */
  ghost predicate RuleStands(pton: Pton, lines: seq<Line>, l: Line) {
    && Named(pton, lines, l.first)
    && if "::internet:" <= l.second then exists i :: NetLine(pton, l, l.first, i) else Named(pton, lines, l.second)
  }

  lemma TwiceCounts(s: seq<Line>, i: nat, j: nat)
    requires i < j < |s| && s[i] == s[j]
    ensures multiset(s)[s[i]] >= 2
  {
    assert s == s[..j] + s[j..];
    assert s[..j][i] in multiset(s[..j]) && s[j..][0] in multiset(s[j..]);
  }

  lemma HostsOkIff(pton: Pton, lines: seq<Line>)
    ensures AssignmentsOk(pton, multiset(lines)) <==> HostsOk(pton, lines)
  {
    assert forall l :: l in multiset(lines) <==> l in lines;
    if AssignmentsOk(pton, multiset(lines)) {
      forall i, j | 0 <= i < j < |lines| && pton(lines[i].second).Some? && pton(lines[j].second).Some?
        ensures lines[i].first != lines[j].first && pton(lines[i].second) != pton(lines[j].second)
      {
        assert lines[i] in multiset(lines) && lines[j] in multiset(lines);
        if lines[i] == lines[j] {
          TwiceCounts(lines, i, j);
        }
        assert !Clash(pton, lines[i], lines[j]);
      }
    } else if HostsOk(pton, lines) {
      var i, j := ConfigOrder.Rivals(pton, lines);
      assert false;
    }
  }

  /** A file loads exactly when its assignments are of different hosts and all its rules stand. */
  lemma LoadSucceedsByLines(pton: Pton, lines: seq<Line>)
    ensures LoadLines(pton, lines).0 <==>
            HostsOk(pton, lines) && forall l <- lines :: pton(l.second) == None ==> RuleStands(pton, lines, l)
  {
    LoadSucceedsIff(pton, lines);
    HostsOkIff(pton, lines);
    assert forall l :: l in multiset(lines) <==> l in lines;
    assert forall x :: Known(pton, multiset(lines), x) <==> Named(pton, lines, x);
    forall l | l in lines && pton(l.second) == None
      ensures Resolves(pton, multiset(lines), l) <==> RuleStands(pton, lines, l)
    {
      InternetLines(pton, l);
      if "::internet:" <= l.second && InternetIp(pton, l) != 0 {
        assert NetLine(pton, l, l.first, InternetIp(pton, l));
      }
    }
  }
}
