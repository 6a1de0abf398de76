/** Which files leave the same tables behind however their lines are ordered. */
module ConfigOrder {
  import opened Wire
  import opened Config
  import opened ConfigMeaning

  ghost predicate OrderFree(pton: Pton, lines: seq<Line>) {
    forall other: seq<Line> | multiset(other) == multiset(lines) ::
      LoadLines(pton, other).1 == LoadLines(pton, lines).1
  }

  /** No line assigns anything but the address 0. */
  predicate OnlyZeros(pton: Pton, ms: multiset<Line>) {
    forall l <- ms | IsIpv4(pton, l.second) :: ParseIpv4(pton, l.second) == 0
  }

  /** All assignments are of one address to one name. */
  predicate OnlyOne(pton: Pton, ms: multiset<Line>) {
    forall l <- ms, m <- ms | IsIpv4(pton, l.second) && IsIpv4(pton, m.second) ::
      l.first == m.first && ParseIpv4(pton, l.second) == ParseIpv4(pton, m.second)
  }

  predicate NoRuleResolves(pton: Pton, ms: multiset<Line>) {
    forall l <- ms | !IsIpv4(pton, l.second) :: !Resolves(pton, ms, l)
  }

  /** Either all is well, or the pass that fails leaves nothing that could depend on what came first. */
  predicate Settled(pton: Pton, ms: multiset<Line>) {
    if AssignmentsOk(pton, ms) then RulesOk(pton, ms) || NoRuleResolves(pton, ms)
    else OnlyZeros(pton, ms) || OnlyOne(pton, ms)
  }

  // --- What a line at the front decides ---

  function Front(lines: seq<Line>, i: nat): (r: seq<Line>)
    requires i < |lines|
    ensures multiset(r) == multiset(lines) && |r| == |lines| && r[0] == lines[i]
  {
    assert lines == lines[..i] + [lines[i]] + lines[i + 1..];
    [lines[i]] + lines[..i] + lines[i + 1..]
  }

  function FrontTwo(lines: seq<Line>, i: nat, j: nat): (r: seq<Line>)
    requires i < |lines| && j < |lines| && i != j
    ensures multiset(r) == multiset(lines) && |r| == |lines| && r[0] == lines[i] && r[1] == lines[j]
  {
    Front(Front(lines, j), if i < j then i + 1 else i)
  }

  function Only(name: string, ipv4: uint32): Tables {
    EMPTY.(nameToIp := map[name := ipv4], ipToName := map[ipv4 := name])
  }

  lemma {:induction false} AssignAllGrows(pton: Pton, t: Tables, lines: seq<Line>, name: string)
    requires name in t.nameToIp
    ensures Maps(AssignAll(pton, t, lines).1.nameToIp, name, t.nameToIp[name])
    decreases |lines|
  {
    if lines != [] && Assign(pton, t, lines[0]).0 {
      AssignAllGrows(pton, Assign(pton, t, lines[0]).1, lines[1..], name);
    }
  }

  /** An assignment in front is made unless it is of the address 0, which ends the pass. */
  lemma FirstIsAssigned(pton: Pton, lines: seq<Line>)
    requires lines != [] && IsIpv4(pton, lines[0].second)
    ensures var ipv4, t := ParseIpv4(pton, lines[0].second), AssignAll(pton, EMPTY, lines).1;
            if ipv4 == 0 then t == EMPTY else Maps(t.nameToIp, lines[0].first, ipv4)
  {
    var (ok, t) := Assign(pton, EMPTY, lines[0]);
    if ok {
      AssignAllGrows(pton, t, lines[1..], lines[0].first);
    }
  }

  /** Two assignments that say the same, in front, leave just that. */
  lemma SecondEndsIt(pton: Pton, lines: seq<Line>)
    requires |lines| >= 2 && IsIpv4(pton, lines[0].second) && IsIpv4(pton, lines[1].second)
    requires ParseIpv4(pton, lines[0].second) != 0 && Clash(pton, lines[0], lines[1])
    ensures AssignAll(pton, EMPTY, lines) == (false, Only(lines[0].first, ParseIpv4(pton, lines[0].second)))
  {
    var t := Assign(pton, EMPTY, lines[0]).1;
    assert t == Only(lines[0].first, ParseIpv4(pton, lines[0].second));
    assert AssignAll(pton, t, lines[1..]) == (false, t);
  }

  lemma {:induction false} ZerosAssignNothing(pton: Pton, t: Tables, lines: seq<Line>)
    requires OnlyZeros(pton, multiset(lines))
    ensures AssignAll(pton, t, lines).1 == t
    decreases |lines|
  {
    if lines != [] && Assign(pton, t, lines[0]).0 {
      assert forall l <- multiset(lines[1..]) :: l in multiset(lines);
      assert lines[0] in multiset(lines);
      ZerosAssignNothing(pton, t, lines[1..]);
    }
  }

  /** One assignment said once or often leaves just that. */
  lemma {:induction false} OneAssignsOne(pton: Pton, t: Tables, lines: seq<Line>, name: string, ipv4: uint32)
    requires ipv4 != 0 && t in {EMPTY, Only(name, ipv4)}
    requires forall l <- lines | IsIpv4(pton, l.second) :: l.first == name && ParseIpv4(pton, l.second) == ipv4
    ensures AssignAll(pton, t, lines).1 ==
            if exists l <- lines :: IsIpv4(pton, l.second) then Only(name, ipv4) else t
    decreases |lines|
  {
    if lines != [] {
      var (ok, u) := Assign(pton, t, lines[0]);
      assert forall l :: l in lines <==> l == lines[0] || l in lines[1..];
      if ok {
        OneAssignsOne(pton, u, lines[1..], name, ipv4);
      }
    }
  }

  // --- The first pass fails ---

  lemma FailsInEveryOrder(pton: Pton, lines: seq<Line>)
    ensures !AssignmentsOk(pton, multiset(lines)) <==> !AssignAll(pton, EMPTY, lines).0
    ensures !AssignmentsOk(pton, multiset(lines)) ==> LoadLines(pton, lines) == (false, AssignAll(pton, EMPTY, lines).1)
  {
    AssignAllIff(pton, EMPTY, lines);
  }

  lemma FailedButSettled(pton: Pton, lines: seq<Line>, other: seq<Line>)
    requires !AssignmentsOk(pton, multiset(lines)) && Settled(pton, multiset(lines))
    requires multiset(other) == multiset(lines)
    ensures LoadLines(pton, other).1 == LoadLines(pton, lines).1
  {
    FailsInEveryOrder(pton, lines);
    FailsInEveryOrder(pton, other);
    if OnlyZeros(pton, multiset(lines)) {
      ZerosAssignNothing(pton, EMPTY, lines);
      ZerosAssignNothing(pton, EMPTY, other);
    } else {
      var l :| l in multiset(lines) && IsIpv4(pton, l.second) && ParseIpv4(pton, l.second) != 0;
      assert forall m :: (m in lines <==> m in multiset(lines)) && (m in other <==> m in multiset(other));
      OneAssignsOne(pton, EMPTY, lines, l.first, ParseIpv4(pton, l.second));
      OneAssignsOne(pton, EMPTY, other, l.first, ParseIpv4(pton, l.second));
    }
  }

  lemma {:induction false} TwoPlaces(s: seq<Line>, x: Line) returns (i: nat, j: nat)
    requires multiset(s)[x] >= 2
    ensures i < j < |s| && s[i] == s[j] == x
  {
    assert s == [s[0]] + s[1..];
    if s[0] == x {
      assert x in multiset(s[1..]);
      i := 0;
      var k :| 0 <= k < |s[1..]| && s[1..][k] == x;
      j := k + 1;
    } else {
      i, j := TwoPlaces(s[1..], x);
      i, j := i + 1, j + 1;
    }
  }

  /** Where a first pass fails without a 0, two assignments are in each other's way. */
  lemma Rivals(pton: Pton, lines: seq<Line>) returns (i: nat, j: nat)
    requires !AssignmentsOk(pton, multiset(lines))
    requires forall l <- lines | IsIpv4(pton, l.second) :: ParseIpv4(pton, l.second) != 0
    ensures i < |lines| && j < |lines| && i != j && Clash(pton, lines[i], lines[j])
    ensures IsIpv4(pton, lines[i].second) && IsIpv4(pton, lines[j].second)
  {
    var ms := multiset(lines);
    var l :| l in ms && IsIpv4(pton, l.second)
          && !(ms[l] == 1 && forall m <- ms | IsIpv4(pton, m.second) && m != l :: !Clash(pton, l, m));
    if ms[l] != 1 {
      i, j := TwoPlaces(lines, l);
    } else {
      var m :| m in ms && IsIpv4(pton, m.second) && m != l && Clash(pton, l, m);
      i :| 0 <= i < |lines| && lines[i] == l;
      j :| 0 <= j < |lines| && lines[j] == m;
    }
  }

  /** If the order makes no difference, the tables hold every assignment, for each may come first. */
  lemma AllAreHeld(pton: Pton, lines: seq<Line>, i: nat)
    requires !AssignmentsOk(pton, multiset(lines)) && OrderFree(pton, lines)
    requires i < |lines| && IsIpv4(pton, lines[i].second)
    ensures var ipv4, t := ParseIpv4(pton, lines[i].second), LoadLines(pton, lines).1;
            if ipv4 == 0 then t == EMPTY else Maps(t.nameToIp, lines[i].first, ipv4)
  {
    var other := Front(lines, i);
    FailsInEveryOrder(pton, other);
    FirstIsAssigned(pton, other);
    assert LoadLines(pton, other).1 == LoadLines(pton, lines).1;
  }

  lemma FailedAndOrderFree(pton: Pton, lines: seq<Line>)
    requires !AssignmentsOk(pton, multiset(lines)) && OrderFree(pton, lines)
    requires !OnlyZeros(pton, multiset(lines))
    ensures OnlyOne(pton, multiset(lines))
  {
    var t := LoadLines(pton, lines).1;
    LoadIsCoherent(pton, lines);
    forall k | 0 <= k < |lines| && IsIpv4(pton, lines[k].second)
      ensures ParseIpv4(pton, lines[k].second) != 0
      ensures Maps(t.nameToIp, lines[k].first, ParseIpv4(pton, lines[k].second))
    {
      var g :| 0 <= g < |lines| && IsIpv4(pton, lines[g].second) && ParseIpv4(pton, lines[g].second) != 0;
      AllAreHeld(pton, lines, g);
      AllAreHeld(pton, lines, k);
    }
    var i, j := Rivals(pton, lines);
    TwoInFront(pton, lines, i, j);
    forall l <- multiset(lines) | IsIpv4(pton, l.second)
      ensures l.first == lines[i].first && ParseIpv4(pton, l.second) == ParseIpv4(pton, lines[i].second)
    {
      var k :| 0 <= k < |lines| && lines[k] == l;
    }
  }

  lemma TwoInFront(pton: Pton, lines: seq<Line>, i: nat, j: nat)
    requires !AssignmentsOk(pton, multiset(lines)) && OrderFree(pton, lines)
    requires i < |lines| && j < |lines| && i != j && Clash(pton, lines[i], lines[j])
    requires IsIpv4(pton, lines[i].second) && IsIpv4(pton, lines[j].second) && ParseIpv4(pton, lines[i].second) != 0
    ensures LoadLines(pton, lines).1 == Only(lines[i].first, ParseIpv4(pton, lines[i].second))
  {
    hide AssignmentsOk, LoadLines, FrontTwo;
    var two := FrontTwo(lines, i, j);
    FailsInEveryOrder(pton, two);
    SecondEndsIt(pton, two);
    assert LoadLines(pton, two).1 == LoadLines(pton, lines).1;
  }

  // --- The second pass fails ---

  /** A first pass that succeeds leaves the same tables in every order, with names for those that are assigned. */
  lemma SameAssignments(pton: Pton, lines: seq<Line>, other: seq<Line>)
    requires AssignmentsOk(pton, multiset(lines)) && multiset(other) == multiset(lines)
    ensures AssignAll(pton, EMPTY, other) == AssignAll(pton, EMPTY, lines)
    ensures var (ok, t) := AssignAll(pton, EMPTY, lines);
            && ok && t.agentAcl == map[] && t.internetAcl == map[]
            && forall l: Line :: !IsIpv4(pton, l.second) ==> (RuleOk(pton, t.nameToIp, l) <==> Resolves(pton, multiset(lines), l))
  {
    AssignAllIff(pton, EMPTY, lines);
    AssignAllIff(pton, EMPTY, other);
    AssignAllMeaning(pton, EMPTY, lines);
    AssignAllMeaning(pton, EMPTY, other);
    var t, u := AssignAll(pton, EMPTY, lines).1, AssignAll(pton, EMPTY, other).1;
    SameNames(t.nameToIp, u.nameToIp);
    assert t.ipToName == u.ipToName;
    forall l: Line | !IsIpv4(pton, l.second)
      ensures RuleOk(pton, t.nameToIp, l) <==> Resolves(pton, multiset(lines), l)
    {
      KnownIff(pton, t.nameToIp, multiset(lines), l.first);
      KnownIff(pton, t.nameToIp, multiset(lines), l.second);
    }
  }

  lemma {:induction false} BadRulesChangeNothing(pton: Pton, t: Tables, lines: seq<Line>)
    requires forall l <- lines | !IsIpv4(pton, l.second) :: !RuleOk(pton, t.nameToIp, l)
    ensures RuleAll(pton, t, lines).1 == t
    decreases |lines|
  {
    if lines != [] {
      RuleStep(pton, t, lines[0]);
      BadRulesChangeNothing(pton, t, lines[1..]);
    }
  }

  predicate Granting(t: Tables) {
    t.agentAcl != map[] || t.internetAcl != map[]
  }

  lemma {:induction false} GrantsRemain(pton: Pton, t: Tables, lines: seq<Line>)
    requires Granting(t)
    ensures Granting(RuleAll(pton, t, lines).1)
    decreases |lines|
  {
    if lines != [] {
      var (ok, u) := Rule(pton, t, lines[0]);
      InsertIsNotEmpty(pton, t, lines[0]);
      if ok {
        GrantsRemain(pton, u, lines[1..]);
      }
    }
  }

  lemma InsertIsNotEmpty(pton: Pton, t: Tables, l: Line)
    ensures var u := Rule(pton, t, l).1;
            && (Granting(t) ==> Granting(u))
            && (!IsIpv4(pton, l.second) && RuleOk(pton, t.nameToIp, l) ==> Granting(u))
  {
    assert forall acl: Acl, a, b :: a in Insert(acl, a, b);
  }

  /** A rule in front decides whether the ACLs of a failed load hold anything: it does if it resolves. */
  lemma FirstRuleShows(pton: Pton, lines: seq<Line>)
    requires AssignmentsOk(pton, multiset(lines)) && lines != [] && !IsIpv4(pton, lines[0].second)
    ensures Granting(LoadLines(pton, lines).1) <==> Resolves(pton, multiset(lines), lines[0])
  {
    SameAssignments(pton, lines, lines);
    var t := AssignAll(pton, EMPTY, lines).1;
    var (ok, u) := Rule(pton, t, lines[0]);
    RuleStep(pton, t, lines[0]);
    InsertIsNotEmpty(pton, t, lines[0]);
    if ok {
      GrantsRemain(pton, u, lines[1..]);
    }
  }

  lemma BadRulesInAnyOrder(pton: Pton, lines: seq<Line>, other: seq<Line>)
    requires AssignmentsOk(pton, multiset(lines)) && NoRuleResolves(pton, multiset(lines))
    requires multiset(other) == multiset(lines)
    ensures LoadLines(pton, other).1 == LoadLines(pton, lines).1
  {
    SameAssignments(pton, lines, other);
    assert forall l <- other :: l in multiset(other);
    assert forall l <- lines :: l in multiset(lines);
    var t := AssignAll(pton, EMPTY, lines).1;
    BadRulesChangeNothing(pton, t, other);
    BadRulesChangeNothing(pton, t, lines);
  }

  lemma RulesFailedIff(pton: Pton, lines: seq<Line>)
    requires AssignmentsOk(pton, multiset(lines)) && !RulesOk(pton, multiset(lines))
    ensures OrderFree(pton, lines) <==> NoRuleResolves(pton, multiset(lines))
  {
    hide AssignmentsOk, Resolves, LoadLines, Granting;
    if NoRuleResolves(pton, multiset(lines)) {
      forall other: seq<Line> | multiset(other) == multiset(lines)
        ensures LoadLines(pton, other).1 == LoadLines(pton, lines).1
      {
        BadRulesInAnyOrder(pton, lines, other);
      }
    } else {
      var g :| 0 <= g < |lines| && !IsIpv4(pton, lines[g].second) && Resolves(pton, multiset(lines), lines[g]);
      var b :| 0 <= b < |lines| && !IsIpv4(pton, lines[b].second) && !Resolves(pton, multiset(lines), lines[b]);
      FirstRuleShows(pton, Front(lines, g));
      FirstRuleShows(pton, Front(lines, b));
    }
  }

  // --- Both passes ---

  /** The tables are the same for every order of the lines exactly when the lines are settled. */
  lemma OrderFreeIff(pton: Pton, lines: seq<Line>)
    ensures OrderFree(pton, lines) <==> Settled(pton, multiset(lines))
  {
    var ms := multiset(lines);
    if !AssignmentsOk(pton, ms) {
      if Settled(pton, ms) {
        forall other: seq<Line> | multiset(other) == ms
          ensures LoadLines(pton, other).1 == LoadLines(pton, lines).1
        {
          FailedButSettled(pton, lines, other);
        }
      } else if OrderFree(pton, lines) {
        FailedAndOrderFree(pton, lines);
      }
    } else if RulesOk(pton, ms) {
      LoadSucceedsIff(pton, lines);
      forall other: seq<Line> | multiset(other) == ms
        ensures LoadLines(pton, other).1 == LoadLines(pton, lines).1
      {
        LoadIgnoresOrder(pton, lines, other);
      }
    } else {
      RulesFailedIff(pton, lines);
    }
  }

  /** Two lines that fail in either order, and leave different lookups. */
  lemma FailedLoadDependsOnOrder(pton: Pton, s: Token)
    requires IsIpv4(pton, s) && ParseIpv4(pton, s) != 0
    ensures var a, b := Line("a", s), Line("b", s);
            var ((ok1, t1), (ok2, t2)) := (LoadLines(pton, [a, b]), LoadLines(pton, [b, a]));
            && multiset([a, b]) == multiset([b, a])
            && !ok1 && !ok2
            && t1.FindAgentForIp(ParseIpv4(pton, s)) == "a"
            && t2.FindAgentForIp(ParseIpv4(pton, s)) == "b"
  {
    SecondAssignmentFails(pton, Line("a", s), Line("b", s));
    SecondAssignmentFails(pton, Line("b", s), Line("a", s));
  }

  lemma SecondAssignmentFails(pton: Pton, l: Line, m: Line)
    requires IsIpv4(pton, l.second) && ParseIpv4(pton, l.second) != 0 && m.second == l.second
    ensures !LoadLines(pton, [l, m]).0
    ensures LoadLines(pton, [l, m]).1.FindAgentForIp(ParseIpv4(pton, l.second)) == l.first
  {
    var (ok, t) := Assign(pton, EMPTY, l);
    assert ok && !Assign(pton, t, m).0;
    assert [l, m][1..] == [m];
    assert AssignAll(pton, EMPTY, [l, m]) == AssignAll(pton, t, [m]);
  }
}
