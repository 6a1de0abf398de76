/** What the conductor's lists hold, in terms of all that connections have said. */
module ConductorMeaning {
  import opened Conductor
  import opened Lists
  import opened RoundRobin
  import opened Wire

  lemma {:induction false} AfterSnoc(s: State, es: seq<Event>)
    requires Booked(s) && Run(s, es) && es != []
    ensures var before, e := es[..|es| - 1], es[|es| - 1];
            && Run(s, before) && Booked(After(s, before)) && Allowed(After(s, before), e)
            && After(s, es) == Apply(After(s, before), e) && Booked(After(s, es))
    decreases |es|
  {
    EveryRunBooked(s, es);
    BookedIff(s, es[0]);
    hide Booked, Allowed, Apply;
    if |es| > 1 {
      AfterSnoc(Apply(s, es[0]), es[1..]);
      assert es[..|es| - 1][1..] == es[1..][..|es| - 2];
    } else {
      assert es[..0] == [] && es[1..] == [];
    }
  }

  // --- Switches ---

  /** `c` said it is a switch of this name and network, and has not been closed since. */
  ghost predicate RegisteredAs(es: seq<Event>, c: nat, name: string, network: string) {
    exists i :: 0 <= i < |es| && es[i] == SwitchMip(c, name, network) && NotClosedSince(es, c, i)
  }

  predicate NotClosedSince(es: seq<Event>, c: nat, i: nat) {
    forall j :: i < j < |es| ==> es[j] != Closed(c)
  }

  lemma RegisteredSnoc(es: seq<Event>, e: Event, c: nat, name: string, network: string)
    ensures RegisteredAs(es + [e], c, name, network) <==>
            e == SwitchMip(c, name, network) || (RegisteredAs(es, c, name, network) && e != Closed(c))
  {
    var all := es + [e];
    assert all[|es|] == e && forall j :: 0 <= j < |es| ==> all[j] == es[j];
    if RegisteredAs(all, c, name, network) {
      var i :| 0 <= i < |all| && all[i] == SwitchMip(c, name, network) && NotClosedSince(all, c, i);
      if i < |es| {
        assert es[i] == all[i] && NotClosedSince(es, c, i);
      }
    }
    if e == SwitchMip(c, name, network) {
      assert NotClosedSince(all, c, |es|);
    } else if RegisteredAs(es, c, name, network) && e != Closed(c) {
      var i :| 0 <= i < |es| && es[i] == SwitchMip(c, name, network) && NotClosedSince(es, c, i);
      assert all[i] == es[i] && NotClosedSince(all, c, i);
    }
  }

  predicate SwitchIs(s: State, c: nat, name: string, network: string) {
    c in s.switches && c in s.infos && s.infos[c] == Info(SwitchConn, name, network)
  }

  lemma SwitchStep(s: State, e: Event, c: nat, name: string, network: string)
    requires Booked(s) && Allowed(s, e)
    ensures SwitchIs(Apply(s, e), c, name, network) <==>
            e == SwitchMip(c, name, network) || (SwitchIs(s, c, name, network) && e != Closed(c))
  {
    if e.Closed? {
      WithoutHolds(s.switches, e.c);
    }
  }

  /** The switches listed are those registered, under the names and networks they gave. */
  lemma {:induction false} SwitchesAreRegistered(es: seq<Event>, c: nat, name: string, network: string)
    requires Booked(START) && Run(START, es)
    ensures SwitchIs(After(START, es), c, name, network) <==> RegisteredAs(es, c, name, network)
    decreases |es|
  {
    if es != [] {
      AfterSnoc(START, es);
      var before, e := es[..|es| - 1], es[|es| - 1];
      assert es == before + [e];
      SwitchesAreRegistered(before, c, name, network);
      hide Booked, Allowed, Apply, SwitchIs, RegisteredAs;
      SwitchStep(After(START, before), e, c, name, network);
      RegisteredSnoc(before, e, c, name, network);
    }
  }

  /** A switch is within reach of a network exactly when it registered for that network or for all. */
  lemma ReachMeansRegistered(es: seq<Event>, network: string, i: nat)
    requires Booked(START) && Run(START, es)
    ensures Booked(After(START, es))
    ensures i < |After(START, es).switches| ==>
              (Reach(After(START, es), network)[i] <==>
                 exists name, w :: (w == network || w == "::internet") && RegisteredAs(es, After(START, es).switches[i], name, w))
  {
    EveryRunBooked(START, es);
    var s := After(START, es);
    if i < |s.switches| {
      var c := s.switches[i];
      var info := s.infos[c];
      assert c in s.switches && SwitchIs(s, c, info.name, info.network);
      forall name, w ensures SwitchIs(s, c, name, w) <==> RegisteredAs(es, c, name, w) {
        SwitchesAreRegistered(es, c, name, w);
      }
      assert RegisteredAs(es, c, info.name, info.network);
    }
  }

  // --- What a record holds ---

  /** Something is written into the record of `c`. */
  predicate Registers(e: Event, c: nat) {
    !e.Closed? && e.c == c
  }

  /** The record says what the event said, and nothing at first; a returning agent names no network. */
  predicate RecordFits(info: Info, e: Event) {
    match e
    case Accept(_) => info == Info(Unknown, "", "")
    case SwitchMip(_, name, network) => info == Info(SwitchConn, name, network)
    case AgentMip(_, name, network, _, _, _) => info == Info(AgentConn, name, network)
    case AgentMrp(_, name) => info.role == AgentConn && info.name == name
    case _ => false
  }

  /** A record holds what its connection said last. */
  lemma {:induction false} RecordIsLastGiven(es: seq<Event>, c: nat, i: nat)
    requires Booked(START) && Run(START, es) && i < |es| && Registers(es[i], c)
    requires forall j :: i < j < |es| ==> !Registers(es[j], c) && es[j] != Closed(c)
    ensures c in After(START, es).infos && RecordFits(After(START, es).infos[c], es[i])
    decreases |es|
  {
    AfterSnoc(START, es);
    var before, e := es[..|es| - 1], es[|es| - 1];
    if i < |es| - 1 {
      RecordIsLastGiven(before, c, i);
      assert before[i] == es[i];
    }
  }

  // --- Agents and tokens ---

  /** Both messages about the token got through. */
  predicate Told(e: Event) {
    e.AgentMip? && e.toldAgent && e.toldSwitch
  }

  /** An agent enters the list when it returns, or when it is given a switch. */
  predicate Enters(s: State, e: Event, c: nat) {
    (e.AgentMrp? && e.c == c) || (Told(e) && e.c == c && s.switches != [])
  }

  lemma AgentStep(s: State, e: Event, c: nat)
    requires Booked(s) && Allowed(s, e)
    ensures c in Apply(s, e).agents <==> Enters(s, e, c) || (c in s.agents && e != Closed(c))
  {
    if e.Closed? {
      WithoutHolds(s.agents, e.c);
    }
  }

  /** The states in which the events come. */
  ghost function Trace(es: seq<Event>): (tr: seq<State>)
    requires Booked(START) && Run(START, es)
    ensures |tr| == |es|
    decreases |es|
  {
    if es == [] then []
    else
      AfterSnoc(START, es);
      Trace(es[..|es| - 1]) + [After(START, es[..|es| - 1])]
  }

  lemma {:induction false} TraceAt(es: seq<Event>, i: nat)
    requires Booked(START) && Run(START, es) && i < |es|
    ensures Trace(es)[i] == Before(START, es, i)
    decreases |es|
  {
    AfterSnoc(START, es);
    if i < |es| - 1 {
      TraceAt(es[..|es| - 1], i);
      assert es[..|es| - 1][..i] == es[..i];
    }
  }

  predicate HasEntered(tr: seq<State>, es: seq<Event>, c: nat)
    requires |tr| == |es|
  {
    exists i :: 0 <= i < |es| && Enters(tr[i], es[i], c) && NotClosedSince(es, c, i)
  }

  lemma HasEnteredSnoc(tr: seq<State>, es: seq<Event>, s: State, e: Event, c: nat)
    requires |tr| == |es|
    ensures HasEntered(tr + [s], es + [e], c) <==> Enters(s, e, c) || (HasEntered(tr, es, c) && e != Closed(c))
  {
    hide Enters;
    var trs, all := tr + [s], es + [e];
    assert trs[|es|] == s && all[|es|] == e;
    assert forall j :: 0 <= j < |es| ==> all[j] == es[j] && trs[j] == tr[j];
    if HasEntered(trs, all, c) {
      var i :| 0 <= i < |all| && Enters(trs[i], all[i], c) && NotClosedSince(all, c, i);
      if i < |es| {
        assert Enters(tr[i], es[i], c) && NotClosedSince(es, c, i);
      }
    }
    if Enters(s, e, c) {
      assert Enters(trs[|es|], all[|es|], c) && NotClosedSince(all, c, |es|);
    } else if HasEntered(tr, es, c) && e != Closed(c) {
      var i :| 0 <= i < |es| && Enters(tr[i], es[i], c) && NotClosedSince(es, c, i);
      assert Enters(trs[i], all[i], c) && NotClosedSince(all, c, i);
    }
  }

  /** An agent is listed exactly when it has entered and not been closed since. */
  lemma {:induction false} AgentsHaveEntered(es: seq<Event>, c: nat)
    requires Booked(START) && Run(START, es)
    ensures c in After(START, es).agents <==> HasEntered(Trace(es), es, c)
    decreases |es|
  {
    if es != [] {
      AfterSnoc(START, es);
      var before, e := es[..|es| - 1], es[|es| - 1];
      assert es == before + [e];
      AgentsHaveEntered(before, c);
      assert Trace(es) == Trace(before) + [After(START, before)];
      hide *;
      AgentStep(After(START, before), e, c);
      HasEnteredSnoc(Trace(before), before, After(START, before), e, c);
    }
  }

  /**
   An agent that is told of its switch is listed, and one token is pending for it, under the name of
   the switch chosen and of the agent; the notice sent names the same switch, agent and token.
   Otherwise nothing is pending and nothing is sent.
   */
  lemma ToldAgentIsBooked(s: State, e: Event)
    requires Booked(s) && Allowed(s, e) && e.AgentMip?
    ensures var t := Apply(s, e);
            if Told(e) && s.switches != [] then
              var sw := s.switches[Chosen(s, e.network)];
              && t.pending == s.pending + [PendingToken(e.name, s.infos[sw].name, e.token)]
              && t.agents == s.agents + [e.c]
              && Sent(s, e) == [Notice(sw, e.name, e.token)]
            else t.pending == s.pending && t.agents == s.agents && Sent(s, e) == []
    ensures s.switches != [] ==> Issued(s, e) == [Notice(s.switches[Chosen(s, e.network)], e.name, e.token)]
  {
    if s.switches != [] {
      AskKeepsReach(s, e, e.network);
      var known := Register(s, e.c, Info(AgentConn, e.name, e.network));
      assert Reach(known, e.network) == Reach(s, e.network);
    }
  }

  lemma OthersLeaveTokens(s: State, e: Event, p: PendingToken)
    requires Booked(s) && Allowed(s, e) && !e.AgentMip?
    ensures p in Apply(s, e).pending <==>
            p in s.pending && !(e.Closed? && s.infos[e.c].role == SwitchConn && s.infos[e.c].name == p.switch)
  {
    if e.Closed? {
      NotForHolds(s.pending, s.infos[e.c].name);
    }
  }

  /** `p` is made for the switch chosen at the event `e`. */
  ghost predicate Makes(s: State, e: Event, p: PendingToken) {
    && Sound(s) && Told(e) && s.switches != []
    && p == PendingToken(e.name, s.infos[s.switches[Chosen(s, e.network)]].name, e.token)
  }

  /** A switch called `name` is closed. */
  predicate Takes(s: State, e: Event, name: string) {
    e.Closed? && e.c in s.infos && s.infos[e.c].role == SwitchConn && s.infos[e.c].name == name
  }

  lemma TokenStep(s: State, e: Event, p: PendingToken)
    requires Booked(s) && Allowed(s, e)
    ensures p in Apply(s, e).pending <==> Makes(s, e, p) || (p in s.pending && !Takes(s, e, p.switch))
  {
    if e.AgentMip? {
      ToldAgentIsBooked(s, e);
    } else {
      OthersLeaveTokens(s, e, p);
    }
  }

  /** `es[i]` made `p`, and no switch of that name was closed since. */
  ghost predicate MadeAt(tr: seq<State>, es: seq<Event>, p: PendingToken, i: nat)
    requires |tr| == |es|
  {
    && i < |es| && Makes(tr[i], es[i], p)
    && forall j :: i < j < |es| ==> !Takes(tr[j], es[j], p.switch)
  }

  ghost predicate WasMade(tr: seq<State>, es: seq<Event>, p: PendingToken)
    requires |tr| == |es|
  {
    exists i: nat :: MadeAt(tr, es, p, i)
  }

  lemma WasMadeSnoc(tr: seq<State>, es: seq<Event>, s: State, e: Event, p: PendingToken)
    requires |tr| == |es|
    ensures WasMade(tr + [s], es + [e], p) <==> Makes(s, e, p) || (WasMade(tr, es, p) && !Takes(s, e, p.switch))
  {
    hide Makes, Takes;
    var trs, all := tr + [s], es + [e];
    assert trs[|es|] == s && all[|es|] == e;
    assert forall j :: 0 <= j < |es| ==> all[j] == es[j] && trs[j] == tr[j];
    if i: nat :| MadeAt(trs, all, p, i) {
      if i < |es| {
        assert MadeAt(tr, es, p, i);
      }
    }
    if Makes(s, e, p) {
      assert MadeAt(trs, all, p, |es|);
    } else if WasMade(tr, es, p) && !Takes(s, e, p.switch) {
      var i: nat :| MadeAt(tr, es, p, i);
      assert MadeAt(trs, all, p, i);
    }
  }

  /** A token is pending exactly when it was made and no switch of its name was closed since. */
  lemma {:induction false} TokensWereMade(es: seq<Event>, p: PendingToken)
    requires Booked(START) && Run(START, es)
    ensures p in After(START, es).pending <==> WasMade(Trace(es), es, p)
    decreases |es|
  {
    if es != [] {
      AfterSnoc(START, es);
      var before, e := es[..|es| - 1], es[|es| - 1];
      assert es == before + [e];
      TokensWereMade(before, p);
      assert Trace(es) == Trace(before) + [After(START, before)];
      hide *;
      TokenStep(After(START, before), e, p);
      WasMadeSnoc(Trace(before), before, After(START, before), e, p);
    }
  }
}
