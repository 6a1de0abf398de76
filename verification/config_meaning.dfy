/** What a configuration means, as a bag of lines, and that loading finds just that. */
module ConfigMeaning {
  import opened Wire
  import opened Config

  predicate Declares(pton: Pton, l: Line, name: string, ipv4: uint32) {
    IsIpv4(pton, l.second) && l.first == name && ParseIpv4(pton, l.second) == ipv4
  }

  /** Some line gives this name this address. */
  predicate Declared(pton: Pton, ms: multiset<Line>, name: string, ipv4: uint32) {
    exists l <- ms :: Declares(pton, l, name, ipv4)
  }

  predicate Known(pton: Pton, ms: multiset<Line>, name: string) {
    exists l <- ms :: IsIpv4(pton, l.second) && l.first == name
  }

  predicate Clash(pton: Pton, l: Line, m: Line) {
    ParseIpv4(pton, l.second) == ParseIpv4(pton, m.second) || l.first == m.first
  }

  /** Addresses are not 0, no address and no name is assigned twice. */
  predicate AssignmentsOk(pton: Pton, ms: multiset<Line>) {
    forall l <- ms | IsIpv4(pton, l.second) ::
      && ParseIpv4(pton, l.second) != 0
      && ms[l] == 1
      && (forall m <- ms | IsIpv4(pton, m.second) && m != l :: !Clash(pton, l, m))
  }

  /** The rule `l` is about names that are assigned, or an internet address that parses. */
  predicate Resolves(pton: Pton, ms: multiset<Line>, l: Line) {
    && Known(pton, ms, l.first)
    && (if IsInternetRule(l) then InternetIp(pton, l) != 0 else Known(pton, ms, l.second))
  }

  /** Every other line is a rule that resolves. */
  predicate RulesOk(pton: Pton, ms: multiset<Line>) {
    forall l <- ms | !IsIpv4(pton, l.second) :: Resolves(pton, ms, l)
  }

  predicate Maps(names: map<string, uint32>, name: string, ipv4: uint32) {
    name in names && names[name] == ipv4
  }

  // --- First pass ---

  predicate NewTo(pton: Pton, t: Tables, l: Line) {
    IsIpv4(pton, l.second) ==> ParseIpv4(pton, l.second) !in t.ipToName && l.first !in t.nameToIp
  }

  lemma OkSplits(pton: Pton, l: Line, rest: seq<Line>)
    ensures AssignmentsOk(pton, multiset([l] + rest))
       <==> && AssignmentsOk(pton, multiset(rest))
            && (IsIpv4(pton, l.second) ==>
                  && ParseIpv4(pton, l.second) != 0
                  && (forall m <- multiset(rest) | IsIpv4(pton, m.second) :: !Clash(pton, l, m)))
  {
    var ms, all := multiset(rest), multiset([l] + rest);
    assert all == multiset{l} + ms;
    assert forall m :: m in all <==> m == l || m in ms;
    if AssignmentsOk(pton, all) {
      forall m <- ms | IsIpv4(pton, m.second)
        ensures ms[m] == 1 && (IsIpv4(pton, l.second) ==> !Clash(pton, l, m))
      {
        assert all[m] == 1 && m in all;
      }
    }
  }

  predicate AllNew(pton: Pton, t: Tables, ms: multiset<Line>) {
    forall l <- ms :: NewTo(pton, t, l)
  }

  lemma {:induction false} AssignAllIff(pton: Pton, t: Tables, lines: seq<Line>)
    requires Inverse(t)
    ensures AssignAll(pton, t, lines).0 <==> AssignmentsOk(pton, multiset(lines)) && AllNew(pton, t, multiset(lines))
    decreases |lines|
  {
    if lines != [] {
      var l, rest := lines[0], lines[1..];
      assert lines == [l] + rest;
      OkSplits(pton, l, rest);
      assert forall m :: m in multiset(lines) <==> m == l || m in multiset(rest);
      var (ok, t1) := Assign(pton, t, l);
      if ok {
        hide AssignmentsOk;
        AssignStep(pton, t, l, rest);
        AssignAllIff(pton, t1, rest);
      }
    }
  }

  lemma {:induction false} AssignAllMeaning(pton: Pton, t: Tables, lines: seq<Line>)
    requires Inverse(t) && AssignAll(pton, t, lines).0
    ensures var u := AssignAll(pton, t, lines).1;
            && Inverse(u) && u == t.(nameToIp := u.nameToIp, ipToName := u.ipToName)
            && (forall n, ip :: Maps(u.nameToIp, n, ip) <==> Maps(t.nameToIp, n, ip) || Declared(pton, multiset(lines), n, ip))
    decreases |lines|
  {
    if lines != [] {
      var l, rest := lines[0], lines[1..];
      assert lines == [l] + rest;
      AssignStep(pton, t, l, rest);
      AssignAllMeaning(pton, Assign(pton, t, l).1, rest);
    }
  }

  lemma AssignStep(pton: Pton, t: Tables, l: Line, rest: seq<Line>)
    requires Inverse(t) && Assign(pton, t, l).0
    ensures var t1 := Assign(pton, t, l).1;
            && Inverse(t1)
            && (forall n, ip :: Maps(t1.nameToIp, n, ip) <==> Maps(t.nameToIp, n, ip) || Declares(pton, l, n, ip))
            && (forall m :: NewTo(pton, t1, m) <==>
                  NewTo(pton, t, m) && (IsIpv4(pton, l.second) && IsIpv4(pton, m.second) ==> !Clash(pton, l, m)))
    ensures forall n, ip :: Declared(pton, multiset([l] + rest), n, ip)
                       <==> Declares(pton, l, n, ip) || Declared(pton, multiset(rest), n, ip)
  {
    assert forall m :: m in multiset([l] + rest) <==> m == l || m in multiset(rest);
  }

  // --- Second pass ---

  predicate RuleOk(pton: Pton, names: map<string, uint32>, l: Line) {
    !IsIpv4(pton, l.second) ==>
      && l.first in names
      && (if IsInternetRule(l) then InternetIp(pton, l) != 0 else l.second in names)
  }

  /** The line `l` lets `a` and `b` talk, in this direction or the other. */
  predicate Grants(pton: Pton, names: map<string, uint32>, l: Line, a: uint32, b: uint32) {
    && !IsIpv4(pton, l.second) && !IsInternetRule(l)
    && ((Maps(names, l.first, a) && Maps(names, l.second, b)) || (Maps(names, l.first, b) && Maps(names, l.second, a)))
  }

  predicate GrantsInternet(pton: Pton, names: map<string, uint32>, l: Line, a: uint32, i: uint32) {
    !IsIpv4(pton, l.second) && IsInternetRule(l) && Maps(names, l.first, a) && InternetIp(pton, l) == i
  }

  predicate Granted(pton: Pton, names: map<string, uint32>, ms: multiset<Line>, a: uint32, b: uint32) {
    exists l <- ms :: Grants(pton, names, l, a, b)
  }

  predicate GrantedInternet(pton: Pton, names: map<string, uint32>, ms: multiset<Line>, a: uint32, i: uint32) {
    exists l <- ms :: GrantsInternet(pton, names, l, a, i)
  }

  predicate NoEmptySet(acl: Acl) {
    forall a <- acl :: acl[a] != {}
  }

  lemma RuleStep(pton: Pton, t: Tables, l: Line)
    ensures var (ok, u) := Rule(pton, t, l);
            && (ok <==> RuleOk(pton, t.nameToIp, l))
            && u.nameToIp == t.nameToIp && u.ipToName == t.ipToName
            && (ok ==> forall a, b :: Permits(u.agentAcl, a, b) <==> Permits(t.agentAcl, a, b) || Grants(pton, t.nameToIp, l, a, b))
            && (ok ==> forall a, i :: Permits(u.internetAcl, a, i) <==> Permits(t.internetAcl, a, i) || GrantsInternet(pton, t.nameToIp, l, a, i))
            && (NoEmptySet(t.agentAcl) ==> NoEmptySet(u.agentAcl))
            && (NoEmptySet(t.internetAcl) ==> NoEmptySet(u.internetAcl))
  {
    if !IsIpv4(pton, l.second) && l.first in t.nameToIp {
      var src := t.nameToIp[l.first];
      if IsInternetRule(l) {
        InsertPermits(t.internetAcl, src, InternetIp(pton, l));
      } else if l.second in t.nameToIp {
        var dst := t.nameToIp[l.second];
        InsertPermits(t.agentAcl, src, dst);
        InsertPermits(Insert(t.agentAcl, src, dst), dst, src);
      }
    }
  }

  lemma {:induction false} RuleAllIff(pton: Pton, t: Tables, lines: seq<Line>)
    requires NoEmptySet(t.agentAcl) && NoEmptySet(t.internetAcl)
    ensures var (ok, u) := RuleAll(pton, t, lines);
            && (ok <==> forall l <- multiset(lines) :: RuleOk(pton, t.nameToIp, l))
            && u.nameToIp == t.nameToIp && u.ipToName == t.ipToName
            && NoEmptySet(u.agentAcl) && NoEmptySet(u.internetAcl)
            && (ok ==> forall a, b :: Permits(u.agentAcl, a, b)
                         <==> Permits(t.agentAcl, a, b) || Granted(pton, t.nameToIp, multiset(lines), a, b))
            && (ok ==> forall a, i :: Permits(u.internetAcl, a, i)
                         <==> Permits(t.internetAcl, a, i) || GrantedInternet(pton, t.nameToIp, multiset(lines), a, i))
    decreases |lines|
  {
    if lines != [] {
      var l, rest := lines[0], lines[1..];
      assert lines == [l] + rest;
      assert forall m :: m in multiset(lines) <==> m == l || m in multiset(rest);
      RuleStep(pton, t, l);
      var (ok, t1) := Rule(pton, t, l);
      if ok {
        RuleAllIff(pton, t1, rest);
      }
    }
  }

  // --- Both passes ---

  lemma KnownIff(pton: Pton, names: map<string, uint32>, ms: multiset<Line>, name: string)
    requires forall n, ip :: Maps(names, n, ip) <==> Declared(pton, ms, n, ip)
    ensures name in names <==> Known(pton, ms, name)
  {
    if name in names {
      assert Maps(names, name, names[name]);
    }
    if Known(pton, ms, name) {
      var l :| l in ms && IsIpv4(pton, l.second) && l.first == name;
      assert Declares(pton, l, name, ParseIpv4(pton, l.second));
      assert Maps(names, name, ParseIpv4(pton, l.second));
    }
  }

  /** Loading succeeds exactly when the lines, in whatever order, make sense together. */
  lemma LoadSucceedsIff(pton: Pton, lines: seq<Line>)
    ensures LoadLines(pton, lines).0 <==> AssignmentsOk(pton, multiset(lines)) && RulesOk(pton, multiset(lines))
  {
    var ms := multiset(lines);
    AssignAllIff(pton, EMPTY, lines);
    var (ok, t) := AssignAll(pton, EMPTY, lines);
    if ok {
      AssignAllMeaning(pton, EMPTY, lines);
      RuleAllIff(pton, t, lines);
      forall l <- ms ensures l.first in t.nameToIp <==> Known(pton, ms, l.first)
        ensures l.second in t.nameToIp <==> Known(pton, ms, l.second)
      {
        KnownIff(pton, t.nameToIp, ms, l.first);
        KnownIff(pton, t.nameToIp, ms, l.second);
      }
    }
  }

  /** The maps of a successful load hold what the lines say, and nothing else. */
  ghost predicate Means(pton: Pton, ms: multiset<Line>, t: Tables) {
    && Inverse(t)
    && NoEmptySet(t.agentAcl) && NoEmptySet(t.internetAcl)
    && (forall n, ip :: Maps(t.nameToIp, n, ip) <==> Declared(pton, ms, n, ip))
    && (forall a, b :: Permits(t.agentAcl, a, b) <==> Granted(pton, t.nameToIp, ms, a, b))
    && (forall a, i :: Permits(t.internetAcl, a, i) <==> GrantedInternet(pton, t.nameToIp, ms, a, i))
  }

  lemma LoadMeaning(pton: Pton, lines: seq<Line>)
    requires LoadLines(pton, lines).0
    ensures Means(pton, multiset(lines), LoadLines(pton, lines).1)
  {
    AssignAllMeaning(pton, EMPTY, lines);
    RuleAllIff(pton, AssignAll(pton, EMPTY, lines).1, lines);
  }

  lemma SameAcl(a: Acl, b: Acl)
    requires NoEmptySet(a) && NoEmptySet(b)
    requires forall x, y :: Permits(a, x, y) <==> Permits(b, x, y)
    ensures a == b
  {
    forall x <- a ensures x in b && a[x] == b[x] {
      var y :| y in a[x];
      assert Permits(a, x, y);
      assert forall z :: z in a[x] <==> Permits(a, x, z);
      assert forall z :: z in b[x] <==> Permits(b, x, z);
    }
    forall x <- b ensures x in a {
      var y :| y in b[x];
      assert Permits(b, x, y);
    }
  }

  lemma SameNames(m: map<string, uint32>, n: map<string, uint32>)
    requires forall k, v :: Maps(m, k, v) <==> Maps(n, k, v)
    ensures m == n
  {
    assert forall k <- m :: Maps(m, k, m[k]);
    assert forall k <- n :: Maps(n, k, n[k]);
  }

  /** A bag of lines has one meaning. */
  lemma MeaningIsUnique(pton: Pton, ms: multiset<Line>, t: Tables, u: Tables)
    requires Means(pton, ms, t) && Means(pton, ms, u)
    ensures t == u
  {
    SameNames(t.nameToIp, u.nameToIp);
    SameAcl(t.agentAcl, u.agentAcl);
    SameAcl(t.internetAcl, u.internetAcl);
    assert t.ipToName == u.ipToName;
  }

  /** The order of the lines decides neither whether loading succeeds nor what a successful load holds. */
  lemma LoadIgnoresOrder(pton: Pton, lines: seq<Line>, shuffled: seq<Line>)
    requires multiset(lines) == multiset(shuffled)
    ensures LoadLines(pton, lines).0 == LoadLines(pton, shuffled).0
    ensures LoadLines(pton, lines).0 ==> LoadLines(pton, lines) == LoadLines(pton, shuffled)
  {
    LoadSucceedsIff(pton, lines);
    LoadSucceedsIff(pton, shuffled);
    if LoadLines(pton, lines).0 {
      LoadMeaning(pton, lines);
      LoadMeaning(pton, shuffled);
      MeaningIsUnique(pton, multiset(lines), LoadLines(pton, lines).1, LoadLines(pton, shuffled).1);
    }
  }
}
